// What an extracted snippet holds: the marked lines without blank edges, without a code fence
// around them, and without their common indent.
module SnippetText {
  import opened Common
  import opened Markers
  import opened QuickstartSnippets
  import opened SnippetMeaning

  /** `body` is `lines` without the blank lines at its edges. */
  ghost predicate Unpadded(lines: seq<string>, body: seq<string>) {
    exists start, end :: IsTrimmed(lines, body, start, end)
  }

  function Spaces(n: nat): (s: string)
    ensures |s| == n && forall i :: 0 <= i < n ==> s[i] == ' '
  {
    seq(n, _ => ' ')
  }

  /** One line before and after `n` spaces are taken off. */
  predicate LineShifted(line: string, result: string, n: nat) {
    if NonBlank(line) then line == Spaces(n) + result else result == line
  }

  predicate StartsFlush(line: string) {
    NonBlank(line) && line[0] != ' '
  }

  predicate ShiftedBy(lines: seq<string>, result: seq<string>, n: nat) {
    && |result| == |lines|
    && (forall i :: 0 <= i < |lines| ==> LineShifted(lines[i], result[i], n))
    && ((exists line :: line in lines && NonBlank(line)) ==> exists line :: line in result && StartsFlush(line))
  }

  /** `result` is `lines` without their common indent: each line that is not blank is some number of
      spaces followed by its result, blank lines are as they were, and some line starts flush. */
  ghost predicate Undented(lines: seq<string>, result: seq<string>) {
    exists n: nat :: ShiftedBy(lines, result, n)
  }

  const FENCE := "```"

  /** The lines are a code block: an opening fence, perhaps with a language, and a closing one. */
  predicate Fenced(body: seq<string>) {
    |body| >= 2 && StartsWith(body[0], FENCE) && body[|body| - 1] == FENCE
  }

  /** What the extractor is to return for the lines between two markers. */
  ghost predicate IsEntry(lines: seq<string>, entry: seq<string>) {
    exists body :: Unpadded(lines, body) && IsUnfenced(body, entry)
  }

  /** The text of a block of lines: of what the fence encloses, if it is fenced. */
  ghost predicate IsUnfenced(body: seq<string>, entry: seq<string>) {
    if Fenced(body) then IsInside(body[1..|body| - 1], entry) else Undented(body, entry)
  }

  ghost predicate IsInside(lines: seq<string>, entry: seq<string>) {
    exists inner :: Unpadded(lines, inner) && Undented(inner, entry)
  }

  // ------------------------------------------------------------ blank edges

  lemma {:induction false} TrimFrontEdge(lines: seq<string>) returns (a: nat)
    ensures a <= |lines| && AllBlank(lines[..a]) && TrimFront(lines) == lines[a..] && (a < |lines| ==> NonBlank(lines[a]))
  {
    if lines != [] && IsBlank(lines[0]) {
      var k := TrimFrontEdge(lines[1..]);
      a := k + 1;
      assert lines[..a] == [lines[0]] + lines[1..][..k];
      assert lines[1..][k..] == lines[a..];
    } else {
      a := 0;
    }
  }

  lemma {:induction false} TrimBackEdge(lines: seq<string>) returns (b: nat)
    ensures b <= |lines| && AllBlank(lines[b..]) && TrimBack(lines) == lines[..b] && (b > 0 ==> NonBlank(lines[b - 1]))
  {
    if lines != [] && IsBlank(lines[|lines| - 1]) {
      var front := lines[..|lines| - 1];
      b := TrimBackEdge(front);
      assert lines[b..] == front[b..] + [lines[|lines| - 1]];
      assert front[..b] == lines[..b];
    } else {
      b := |lines|;
    }
  }

  lemma {:induction false} TrimUnpads(lines: seq<string>)
    ensures Unpadded(lines, Trim(lines))
  {
    var a := TrimFrontEdge(lines);
    var rest := lines[a..];
    var b := TrimBackEdge(rest);
    TrimEdges(lines, a, b);
  }

  lemma {:induction false} TrimEdges(lines: seq<string>, a: nat, b: nat)
    requires a <= |lines| && AllBlank(lines[..a]) && TrimFront(lines) == lines[a..] && (a < |lines| ==> NonBlank(lines[a]))
    requires b <= |lines[a..]| && AllBlank(lines[a..][b..]) && TrimBack(lines[a..]) == lines[a..][..b]
    requires b > 0 ==> NonBlank(lines[a..][b - 1])
    ensures IsTrimmed(lines, Trim(lines), a, a + b)
  {
    var body := lines[a..a + b];
    assert lines[a..][..b] == body && lines[a..][b..] == lines[a + b..];
    if body != [] {
      assert body[0] == lines[a] && body[|body| - 1] == lines[a..][b - 1];
    }
  }

  lemma EdgesAgree(lines: seq<string>, body: seq<string>, a: nat, b: nat, other: seq<string>, a': nat, b': nat)
    requires IsTrimmed(lines, body, a, b) && IsTrimmed(lines, other, a', b') && body != []
    ensures a' <= a && b <= b'
  {
    assert body[0] == lines[a] && body[|body| - 1] == lines[b - 1];
    forall k | 0 <= k < a' ensures IsBlank(lines[k]) {
      assert lines[..a'][k] == lines[k] && lines[k] in lines[..a'];
    }
    forall k | b' <= k < |lines| ensures IsBlank(lines[k]) {
      assert lines[b'..][k - b'] == lines[k] && lines[k] in lines[b'..];
    }
  }

  lemma UnpaddedUnique(lines: seq<string>, body: seq<string>, other: seq<string>)
    requires Unpadded(lines, body) && Unpadded(lines, other)
    ensures body == other
  {
    var a, b :| IsTrimmed(lines, body, a, b);
    var a', b' :| IsTrimmed(lines, other, a', b');
    if body != [] {
      EdgesAgree(lines, body, a, b, other, a', b');
    }
    if other != [] {
      EdgesAgree(lines, other, a', b', body, a, b);
    }
  }

  // ------------------------------------------------------------ the common indent

  lemma {:induction false} LeadingAreSpaces(line: string)
    ensures forall i :: 0 <= i < LeadingSpaces(line) ==> line[i] == ' '
    ensures LeadingSpaces(line) < |line| ==> line[LeadingSpaces(line)] != ' '
  {
    if line != "" && line[0] == ' ' {
      LeadingAreSpaces(line[1..]);
      forall i | 0 <= i < LeadingSpaces(line) ensures line[i] == ' ' {
        assert i > 0 ==> line[i] == line[1..][i - 1];
      }
      assert LeadingSpaces(line) < |line| ==> line[LeadingSpaces(line)] == line[1..][LeadingSpaces(line[1..])];
    }
  }

  lemma SolidHasRoom(line: string)
    requires NonBlank(line)
    ensures LeadingSpaces(line) < |line|
  {
    LeadingAreSpaces(line);
    var k :| 0 <= k < |line| && !IsSpace(line[k]);
  }

  lemma CutIsShift(line: string, n: nat)
    requires NonBlank(line) && n <= LeadingSpaces(line)
    ensures Cut(line, n) == line[n..] && line == Spaces(n) + line[n..]
    ensures n == LeadingSpaces(line) ==> StartsFlush(line[n..])
  {
    LeadingAreSpaces(line);
    SolidHasRoom(line);
    CutSpaces(line, n);
    assert line[n..][0] == line[n];
  }

  /** The common indent fits every line and is the indent of one of them. */
  lemma {:induction false} CommonIndentFits(lines: seq<string>)
    ensures CommonIndent(lines).None? ==> forall line :: line in lines ==> IsBlank(line)
    ensures CommonIndent(lines).Some? ==>
              && (forall line :: line in lines && NonBlank(line) ==> CommonIndent(lines).value <= LeadingSpaces(line))
              && (exists line :: line in lines && NonBlank(line) && LeadingSpaces(line) == CommonIndent(lines).value)
  {
    if lines != [] {
      CommonIndentFits(lines[1..]);
      assert lines == [lines[0]] + lines[1..];
      assert forall line :: line in lines <==> line == lines[0] || line in lines[1..];
    }
  }

  lemma CutAllShifts(lines: seq<string>, n: nat)
    requires forall line :: line in lines && NonBlank(line) ==> n <= LeadingSpaces(line)
    requires exists line :: line in lines && NonBlank(line) && LeadingSpaces(line) == n
    ensures ShiftedBy(lines, CutAll(lines, n), n)
  {
    var result := CutAll(lines, n);
    forall i | 0 <= i < |lines| ensures LineShifted(lines[i], result[i], n) {
      assert lines[i] in lines;
      if NonBlank(lines[i]) {
        CutIsShift(lines[i], n);
      }
    }
    var line :| line in lines && NonBlank(line) && LeadingSpaces(line) == n;
    var k :| 0 <= k < |lines| && lines[k] == line;
    CutIsShift(line, n);
    assert result[k] in result && StartsFlush(result[k]);
  }

  lemma CutNothing(lines: seq<string>)
    ensures CutAll(lines, 0) == lines
  {
  }

  lemma DedentUndents(lines: seq<string>)
    ensures Undented(lines, Dedent(lines))
  {
    CommonIndentFits(lines);
    CutNothing(lines);
    if CommonIndent(lines).None? {
      assert ShiftedBy(lines, lines, 0);
    } else {
      CutAllShifts(lines, CommonIndent(lines).value);
      assert ShiftedBy(lines, Dedent(lines), CommonIndent(lines).value);
    }
  }

  lemma ShiftNotLess(lines: seq<string>, a: seq<string>, n: nat, b: seq<string>, m: nat)
    requires ShiftedBy(lines, a, n) && ShiftedBy(lines, b, m)
    requires exists line :: line in lines && NonBlank(line)
    ensures m <= n
  {
    var flush :| flush in a && StartsFlush(flush);
    var k :| 0 <= k < |a| && a[k] == flush;
    assert LineShifted(lines[k], a[k], n) && LineShifted(lines[k], b[k], m);
    assert NonBlank(lines[k]) && lines[k] == Spaces(n) + flush && lines[k] == Spaces(m) + b[k];
    assert lines[k][n] == flush[0];
    assert forall i :: 0 <= i < m ==> lines[k][i] == ' ';
  }

  lemma UndentedUnique(lines: seq<string>, a: seq<string>, b: seq<string>)
    requires Undented(lines, a) && Undented(lines, b)
    ensures a == b
  {
    var n: nat :| ShiftedBy(lines, a, n);
    var m: nat :| ShiftedBy(lines, b, m);
    if exists line :: line in lines && NonBlank(line) {
      ShiftNotLess(lines, a, n, b, m);
      ShiftNotLess(lines, b, m, a, n);
    }
    forall i | 0 <= i < |lines| ensures a[i] == b[i] {
      assert LineShifted(lines[i], a[i], n) && LineShifted(lines[i], b[i], m);
      if NonBlank(lines[i]) {
        assert lines[i] in lines;
        assert a[i] == lines[i][n..] && b[i] == lines[i][m..];
      }
    }
  }

  // ------------------------------------------------------------ entries

  lemma NormalizedIsEntry(lines: seq<string>)
    ensures IsEntry(lines, NormalizeBody(lines))
  {
    var body := Trim(lines);
    TrimUnpads(lines);
    assert Fenced(body) <==> |body| >= 2 && IsFence(body[0]) && body[|body| - 1] == "```";
    if Fenced(body) {
      TrimUnpads(body[1..|body| - 1]);
      DedentUndents(Trim(body[1..|body| - 1]));
      assert IsInside(body[1..|body| - 1], NormalizeBody(lines));
    } else {
      DedentUndents(body);
    }
    assert IsUnfenced(body, NormalizeBody(lines));
  }

  lemma InsideUnique(lines: seq<string>, a: seq<string>, b: seq<string>)
    requires IsInside(lines, a) && IsInside(lines, b)
    ensures a == b
  {
    var inner :| Unpadded(lines, inner) && Undented(inner, a);
    var other :| Unpadded(lines, other) && Undented(other, b);
    UnpaddedUnique(lines, inner, other);
    UndentedUnique(inner, a, b);
  }

  /** There is only one such text. */
  lemma EntryUnique(lines: seq<string>, a: seq<string>, b: seq<string>)
    requires IsEntry(lines, a) && IsEntry(lines, b)
    ensures a == b
  {
    var body :| Unpadded(lines, body) && IsUnfenced(body, a);
    var other :| Unpadded(lines, other) && IsUnfenced(other, b);
    UnpaddedUnique(lines, body, other);
    if Fenced(body) {
      InsideUnique(body[1..|body| - 1], a, b);
    } else {
      UndentedUnique(body, a, b);
    }
  }

  /** Under the name of a marked snippet the extractor finds the lines between its markers without
      blank edges, without the code fence around them, and without their common indent. */
  lemma SnippetHolds(lines: seq<string>, i: int, j: int, name: string)
    requires Extracted(lines).Some? && IsSnippet(lines, i, j, name)
    ensures name in Extracted(lines).value && IsEntry(lines[i + 1..j], Extracted(lines).value[name])
  {
    SnippetFound(lines, i, j, name);
    NormalizedIsEntry(lines[i + 1..j]);
  }
}
