// Stable release tags `vMAJOR.MINOR.PATCH` and their precedence, as in section 11
// of Semantic Versioning 2.0.0. The pattern of the scripts admits leading zeros,
// so distinct tags can denote one version.
module Versions {
  import opened Common
  import opened Paths
  import opened PathSpelling

  datatype Version = Version(major: nat, minor: nat, patch: nat)

  predicate VersionLe(a: Version, b: Version) {
    if a.major != b.major then a.major < b.major
    else if a.minor != b.minor then a.minor < b.minor
    else a.patch <= b.patch
  }

  predicate VersionLt(a: Version, b: Version) {
    VersionLe(a, b) && a != b
  }

  predicate IsDigits(s: string) {
    s != "" && forall i :: 0 <= i < |s| ==> IsDigit(s[i])
  }

  function DecimalValue(s: string): nat
    requires forall i :: 0 <= i < |s| ==> IsDigit(s[i])
  {
    if s == "" then 0
    else
      assert IsDigit(s[|s| - 1]);
      DecimalValue(s[..|s| - 1]) * 10 + (s[|s| - 1] as int - '0' as int)
  }

  /** `parse_stable_tag` and `stable_version` */
  function ParseStableTag(tag: string): Option<Version> {
    if tag == "" || tag[0] != 'v' then None
    else
      var parts := Split(tag[1..], '.');
      if |parts| == 3 && IsDigits(parts[0]) && IsDigits(parts[1]) && IsDigits(parts[2]) then
        Some(Version(DecimalValue(parts[0]), DecimalValue(parts[1]), DecimalValue(parts[2])))
      else None
  }

  predicate IsStableTag(tag: string) {
    ParseStableTag(tag).Some?
  }

  function VersionOf(tag: string): Version
    requires IsStableTag(tag)
  {
    ParseStableTag(tag).value
  }

  lemma {:induction false} LeadingZeroKeepsValue(s: string)
    requires forall i :: 0 <= i < |s| ==> IsDigit(s[i])
    ensures DecimalValue("0" + s) == DecimalValue(s)
  {
    if s != "" {
      LeadingZeroKeepsValue(s[..|s| - 1]);
      assert ("0" + s)[..|s|] == "0" + s[..|s| - 1];
    }
  }

  /** Writing a zero before the major number gives another tag for the same version. */
  lemma LeadingZeroAliases(tag: string)
    requires IsStableTag(tag)
    ensures "v0" + tag[1..] != tag
    ensures IsStableTag("v0" + tag[1..])
    ensures VersionOf("v0" + tag[1..]) == VersionOf(tag)
  {
    var rest := tag[1..];
    var alias := "v0" + rest;
    var parts := Split(rest, '.');
    assert alias[1..] == "0" + rest;
    assert ("0" + rest)[1..] == rest;
    assert Split("0" + rest, '.') == ["0" + parts[0]] + parts[1..];
    LeadingZeroKeepsValue(parts[0]);
    assert |alias| == |tag| + 1;
  }

  // ------------------------------------------------------------ canonical tags

  predicate IsCanonicalNumber(s: string) {
    IsDigits(s) && (s[0] == '0' ==> |s| == 1)
  }

  /** A tag without leading zeros, as section 2 of Semantic Versioning 2.0.0 asks. */
  predicate IsCanonicalTag(tag: string) {
    IsStableTag(tag) && forall p :: p in Split(tag[1..], '.') ==> IsCanonicalNumber(p)
  }

  lemma {:induction false} NonZeroValue(s: string)
    requires IsDigits(s) && s[0] != '0'
    ensures DecimalValue(s) > 0
  {
    if |s| == 1 {
      assert s[..0] == "" && IsDigit(s[0]);
    } else {
      NonZeroValue(s[..|s| - 1]);
    }
  }

  /** Decimal text without leading zeros is determined by its value. */
  lemma {:induction false} CanonicalNumberInjective(a: string, b: string)
    requires IsCanonicalNumber(a) && IsCanonicalNumber(b) && DecimalValue(a) == DecimalValue(b)
    ensures a == b
    decreases |a|
  {
    var m, n := |a| - 1, |b| - 1;
    var front, front' := a[..m], b[..n];
    var last, last' := a[m] as int - '0' as int, b[n] as int - '0' as int;
    assert IsDigit(a[m]) && IsDigit(b[n]);
    assert DecimalValue(a) == DecimalValue(front) * 10 + last && DecimalValue(b) == DecimalValue(front') * 10 + last';
    assert last == last' && DecimalValue(front) == DecimalValue(front');
    assert a == front + [a[m]] && b == front' + [b[n]];
    if m > 0 {
      NonZeroValue(front);
    }
    if n > 0 {
      NonZeroValue(front');
    }
    if m > 0 && n > 0 {
      CanonicalNumberInjective(front, front');
    }
  }

  lemma {:induction false} JoinSplit(s: string, sep: char)
    ensures Join(Split(s, sep), sep) == s
  {
    if s != "" {
      JoinSplit(s[1..], sep);
      var rest := Split(s[1..], sep);
      var parts := Split(s, sep);
      assert s == [s[0]] + s[1..];
      if s[0] == sep {
        assert parts == [""] + rest && parts[1..] == rest;
      } else {
        assert parts == [[s[0]] + rest[0]] + rest[1..] && parts[1..] == rest[1..];
      }
    }
  }

  /** Canonical tags are determined by their versions. */
  lemma CanonicalTagInjective(a: string, b: string)
    requires IsCanonicalTag(a) && IsCanonicalTag(b) && VersionOf(a) == VersionOf(b)
    ensures a == b
  {
    var p, q := Split(a[1..], '.'), Split(b[1..], '.');
    assert p[0] in p && p[1] in p && p[2] in p && q[0] in q && q[1] in q && q[2] in q;
    CanonicalNumberInjective(p[0], q[0]);
    CanonicalNumberInjective(p[1], q[1]);
    CanonicalNumberInjective(p[2], q[2]);
    assert p == [p[0], p[1], p[2]] && q == [q[0], q[1], q[2]];
    JoinSplit(a[1..], '.');
    JoinSplit(b[1..], '.');
    assert a == ['v'] + a[1..] && b == ['v'] + b[1..];
  }

  // ------------------------------------------------------------ zero padding

  function StripZeros(s: string): (r: string)
    requires IsDigits(s)
    ensures IsCanonicalNumber(r)
    decreases |s|
  {
    if s[0] == '0' && |s| > 1 then StripZeros(s[1..]) else s
  }

  lemma {:induction false} StripZerosKeepsValue(s: string)
    requires IsDigits(s)
    ensures DecimalValue(StripZeros(s)) == DecimalValue(s)
    decreases |s|
  {
    if s[0] == '0' && |s| > 1 {
      StripZerosKeepsValue(s[1..]);
      LeadingZeroKeepsValue(s[1..]);
      assert s == "0" + s[1..];
    }
  }

  /** Two digit strings have one value exactly when they differ in zero padding only. */
  lemma SameValueExactly(a: string, b: string)
    requires IsDigits(a) && IsDigits(b)
    ensures DecimalValue(a) == DecimalValue(b) <==> StripZeros(a) == StripZeros(b)
  {
    StripZerosKeepsValue(a);
    StripZerosKeepsValue(b);
    if DecimalValue(a) == DecimalValue(b) {
      CanonicalNumberInjective(StripZeros(a), StripZeros(b));
    }
  }

  /** The texts of two tags differ in zero padding only. */
  predicate SameUpToZeros(a: string, b: string)
    requires IsStableTag(a) && IsStableTag(b)
  {
    var p, q := Split(a[1..], '.'), Split(b[1..], '.');
    StripZeros(p[0]) == StripZeros(q[0]) && StripZeros(p[1]) == StripZeros(q[1]) && StripZeros(p[2]) == StripZeros(q[2])
  }

  /** Two tags denote one version exactly when their texts differ in zero padding only. */
  lemma SameVersionExactly(a: string, b: string)
    requires IsStableTag(a) && IsStableTag(b)
    ensures VersionOf(a) == VersionOf(b) <==> SameUpToZeros(a, b)
  {
    var p, q := Split(a[1..], '.'), Split(b[1..], '.');
    SameValueExactly(p[0], q[0]);
    SameValueExactly(p[1], q[1]);
    SameValueExactly(p[2], q[2]);
  }

  const ZERO := Version(0, 0, 0)

  lemma SplitHead(head: char, rest: string, sep: char)
    ensures var parts := Split(rest, sep);
            Split([head] + rest, sep) ==
            if head == sep then [""] + parts else [[head] + parts[0]] + parts[1..]
  {
    assert ([head] + rest)[1..] == rest;
  }

  lemma SplitZeros()
    ensures Split("0.0.0", '.') == ["0", "0", "0"]
  {
    SplitHead('0', "", '.');
    SplitHead('.', "0", '.');
    SplitHead('0', ".0", '.');
    SplitHead('.', "0.0", '.');
    SplitHead('0', ".0.0", '.');
    assert "0" == ['0'] + "" && ".0" == ['.'] + "0" && "0.0" == ['0'] + ".0" && ".0.0" == ['.'] + "0.0";
    assert "0.0.0" == ['0'] + ".0.0";
  }

  lemma ZeroTag()
    ensures IsStableTag("v0.0.0") && VersionOf("v0.0.0") == ZERO
  {
    assert "v0.0.0"[1..] == "0.0.0";
    SplitZeros();
    assert IsDigit("0"[0]) && "0"[..0] == "";
  }

  // ------------------------------------------------------------ tags written from numbers

  function DigitChar(d: nat): char
    requires d < 10
  {
    ('0' as int + d) as char
  }

  /** The decimal text of a number. */
  function Decimal(n: nat): string {
    if n < 10 then [DigitChar(n)] else Decimal(n / 10) + [DigitChar(n % 10)]
  }

  /** `vMAJOR.MINOR.PATCH` */
  function Tag(major: nat, minor: nat, patch: nat): string {
    "v" + (Decimal(major) + ("." + (Decimal(minor) + ("." + Decimal(patch)))))
  }

  lemma {:induction false} DecimalRoundTrip(n: nat)
    ensures IsDigits(Decimal(n)) && DecimalValue(Decimal(n)) == n
  {
    var text := Decimal(n);
    if n < 10 {
      assert text[..0] == "" && IsDigit(text[0]);
    } else {
      DecimalRoundTrip(n / 10);
      assert text[..|text| - 1] == Decimal(n / 10) && IsDigit(text[|text| - 1]);
    }
  }

  lemma SplitAtFirst(a: string, rest: string, sep: char)
    requires sep !in a
    ensures Split(a + ([sep] + rest), sep) == [a] + Split(rest, sep)
  {
    assert a + ([sep] + rest) == a + [sep] + rest;
    SplitPlain(a, sep);
    SplitConcat(a, rest, sep);
  }

  lemma DigitsHaveNoDot(s: string)
    requires IsDigits(s)
    ensures '.' !in s
  {
  }

  /** Three digit strings in tag position parse to their values in this order. */
  lemma PartsParse(a: string, b: string, c: string)
    requires IsDigits(a) && IsDigits(b) && IsDigits(c)
    ensures ParseStableTag("v" + (a + ("." + (b + ("." + c))))) ==
            Some(Version(DecimalValue(a), DecimalValue(b), DecimalValue(c)))
  {
    var tag := "v" + (a + ("." + (b + ("." + c))));
    DigitsHaveNoDot(a);
    DigitsHaveNoDot(b);
    DigitsHaveNoDot(c);
    assert tag[1..] == a + ("." + (b + ("." + c)));
    SplitAtFirst(a, b + ("." + c), '.');
    SplitAtFirst(b, c, '.');
    SplitPlain(c, '.');
  }

  /** The stable tags are exactly the texts `v`, digits, dot, digits, dot, digits. */
  lemma StableTagExactly(tag: string)
    ensures IsStableTag(tag) <==>
            exists a, b, c :: IsDigits(a) && IsDigits(b) && IsDigits(c) && tag == "v" + (a + ("." + (b + ("." + c))))
  {
    if IsStableTag(tag) {
      var p := Split(tag[1..], '.');
      JoinSplit(tag[1..], '.');
      assert p == [p[0], p[1], p[2]] && p[1..] == [p[1], p[2]] && p[1..][1..] == [p[2]];
      assert Join(p[1..], '.') == p[1] + "." + p[2];
      assert tag == "v" + tag[1..];
      assert tag == "v" + (p[0] + ("." + (p[1] + ("." + p[2]))));
    }
    if a, b, c :| IsDigits(a) && IsDigits(b) && IsDigits(c) && tag == "v" + (a + ("." + (b + ("." + c)))) {
      PartsParse(a, b, c);
    }
  }

  /** A written tag denotes the numbers it was written from. */
  lemma TagDenotes(major: nat, minor: nat, patch: nat)
    ensures IsStableTag(Tag(major, minor, patch))
    ensures VersionOf(Tag(major, minor, patch)) == Version(major, minor, patch)
  {
    DecimalRoundTrip(major);
    DecimalRoundTrip(minor);
    DecimalRoundTrip(patch);
    PartsParse(Decimal(major), Decimal(minor), Decimal(patch));
  }

  /** Precedence of written tags: major, then minor, then patch, each as a number. */
  lemma PrecedenceExactly(x: nat, y: nat, z: nat, x': nat, y': nat, z': nat)
    ensures IsStableTag(Tag(x, y, z)) && IsStableTag(Tag(x', y', z'))
    ensures VersionLe(VersionOf(Tag(x, y, z)), VersionOf(Tag(x', y', z'))) <==>
              x < x' || (x == x' && (y < y' || (y == y' && z <= z')))
    ensures VersionLt(VersionOf(Tag(x, y, z)), VersionOf(Tag(x', y', z'))) <==>
              x < x' || (x == x' && (y < y' || (y == y' && z < z')))
  {
    TagDenotes(x, y, z);
    TagDenotes(x', y', z');
  }

  /** Every stable tag is some written tag up to zero padding, so its precedence is that tag's. */
  lemma EveryTagIsWritten(tag: string) returns (major: nat, minor: nat, patch: nat)
    requires IsStableTag(tag)
    ensures IsStableTag(Tag(major, minor, patch))
    ensures SameUpToZeros(tag, Tag(major, minor, patch))
    ensures VersionOf(tag) == VersionOf(Tag(major, minor, patch))
  {
    major, minor, patch := VersionOf(tag).major, VersionOf(tag).minor, VersionOf(tag).patch;
    TagDenotes(major, minor, patch);
    SameVersionExactly(tag, Tag(major, minor, patch));
  }

  // ------------------------------------------------------------ positive numbers as text

  lemma {:induction false} DecimalIsCanonical(n: nat)
    ensures Decimal(n) != "" && (n > 0 ==> '1' <= Decimal(n)[0] <= '9')
  {
    if n >= 10 {
      DecimalIsCanonical(n / 10);
    }
  }

  /** The pattern of a workflow run id admits exactly the decimal texts of the positive numbers. */
  lemma PositiveExactly(s: string)
    ensures IsPositiveIntString(s) <==> exists n: nat :: n > 0 && s == Decimal(n)
  {
    forall n: nat | n > 0 ensures IsPositiveIntString(Decimal(n)) {
      DecimalIsCanonical(n);
      DecimalRoundTrip(n);
    }
    if IsPositiveIntString(s) {
      var n := DecimalValue(s);
      NonZeroValue(s);
      DecimalIsCanonical(n);
      DecimalRoundTrip(n);
      CanonicalNumberInjective(s, Decimal(n));
    }
  }
}
