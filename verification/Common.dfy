// Vocabulary shared by the release scripts: optional values, raw bytes, blank
// text and the digest formats that the regular expressions of the scripts test.
module Common {

  datatype Option<+T> = None | Some(value: T)

  newtype byte = x: int | 0 <= x < 256

  type Bytes = seq<byte>

  predicate IsSpace(c: char) {
    c == ' ' || c == '\t' || c == '\n' || c == '\r' || c as int == 11 || c as int == 12
  }

  /** `value.strip()` is nonempty. */
  predicate NonBlank(s: string) {
    exists i :: 0 <= i < |s| && !IsSpace(s[i])
  }

  predicate IsLowerHex(c: char) {
    '0' <= c <= '9' || 'a' <= c <= 'f'
  }

  predicate IsDigit(c: char) {
    '0' <= c <= '9'
  }

  /** sixty-four lower-case hexadecimal digits */
  predicate IsSha256Hex(s: string) {
    |s| == 64 && forall i :: 0 <= i < |s| ==> IsLowerHex(s[i])
  }

  /** `sha256:` followed by sixty-four lower-case hexadecimal digits */
  predicate IsSha256Ref(s: string) {
    |s| == 71 && s[..7] == "sha256:" && IsSha256Hex(s[7..])
  }

  /** a decimal string without leading zero, at least one */
  predicate IsPositiveIntString(s: string) {
    |s| > 0 && '1' <= s[0] <= '9' && forall i :: 0 <= i < |s| ==> IsDigit(s[i])
  }

  predicate StartsWith(s: string, prefix: string) {
    |prefix| <= |s| && s[..|prefix|] == prefix
  }

  /** One field of each element. */
  function Project<T, R>(xs: seq<T>, field: T -> R): (ys: seq<R>)
    ensures |ys| == |xs|
    ensures forall i :: 0 <= i < |xs| ==> ys[i] == field(xs[i])
  {
    seq(|xs|, i requires 0 <= i < |xs| => field(xs[i]))
  }

  predicate Distinct<T(==)>(xs: seq<T>) {
    forall i, j :: 0 <= i < j < |xs| ==> xs[i] != xs[j]
  }

  lemma DistinctSnoc<T>(xs: seq<T>, x: T)
    ensures Distinct(xs + [x]) <==> Distinct(xs) && x !in xs
  {
    var all := xs + [x];
    assert forall i :: 0 <= i < |xs| ==> all[i] == xs[i];
    assert all[|xs|] == x;
  }

  lemma DistinctCons<T>(x: T, xs: seq<T>)
    requires Distinct(xs) && x !in xs
    ensures Distinct([x] + xs)
  {
    var all := [x] + xs;
    assert forall i :: 1 <= i < |all| ==> all[i] == xs[i - 1] && all[i] in xs;
  }
}
