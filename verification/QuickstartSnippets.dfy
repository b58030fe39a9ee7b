// Extracting the marked quickstart snippets of a document, and why rendering the
// freshness status cannot change them.
module QuickstartSnippets {
  import opened Common
  import opened Markers
  import opened StatusMarker

  // ------------------------------------------------------------ snippet bodies

  predicate AllBlank(lines: seq<string>) {
    forall line :: line in lines ==> IsBlank(line)
  }

  /** `body` is `lines` without the blank lines at its edges. */
  predicate IsTrimmed(lines: seq<string>, body: seq<string>, start: nat, end: nat) {
    && start <= end <= |lines|
    && body == lines[start..end]
    && AllBlank(lines[..start])
    && AllBlank(lines[end..])
    && (body != [] ==> NonBlank(body[0]) && NonBlank(body[|body| - 1]))
  }

  function TrimFront(lines: seq<string>): seq<string> {
    if lines != [] && IsBlank(lines[0]) then TrimFront(lines[1..]) else lines
  }

  function TrimBack(lines: seq<string>): seq<string> {
    if lines != [] && IsBlank(lines[|lines| - 1]) then TrimBack(lines[..|lines| - 1]) else lines
  }

  function Trim(lines: seq<string>): seq<string> {
    TrimBack(TrimFront(lines))
  }

  lemma {:induction false} TrimFrontAt(lines: seq<string>, a: nat)
    requires a <= |lines| && AllBlank(lines[..a]) && (a < |lines| ==> NonBlank(lines[a]))
    ensures TrimFront(lines) == lines[a..]
    decreases a
  {
    if a > 0 {
      assert lines[..a][0] == lines[0];
      assert lines[1..][..a - 1] == lines[..a][1..];
      TrimFrontAt(lines[1..], a - 1);
      assert lines[1..][a - 1..] == lines[a..];
    }
  }

  lemma {:induction false} TrimBackAt(lines: seq<string>, b: nat)
    requires b <= |lines| && AllBlank(lines[b..]) && (b > 0 ==> NonBlank(lines[b - 1]))
    ensures TrimBack(lines) == lines[..b]
    decreases |lines| - b
  {
    if b < |lines| {
      var front := lines[..|lines| - 1];
      assert lines[b..][|lines| - 1 - b] == lines[|lines| - 1];
      assert front[b..] == lines[b..][..|lines| - 1 - b];
      TrimBackAt(front, b);
      assert front[..b] == lines[..b];
    } else {
      assert lines[..b] == lines;
    }
  }

  predicate BlankFrom(lines: seq<string>, from: int, to: int)
    requires 0 <= from && to <= |lines|
  {
    forall k :: from <= k < to ==> IsBlank(lines[k])
  }

  lemma {:induction false} BlankSlices(lines: seq<string>, a: nat, b: nat)
    requires a <= b <= |lines| && BlankFrom(lines, 0, a) && BlankFrom(lines, b, |lines|)
    ensures AllBlank(lines[..a]) && AllBlank(lines[b..]) && AllBlank(lines[a..][b - a..])
  {
    assert lines[a..][b - a..] == lines[b..];
  }

  lemma {:induction false} TrimAt(lines: seq<string>, a: nat, b: nat)
    requires a <= b <= |lines| && AllBlank(lines[..a]) && AllBlank(lines[a..][b - a..])
    requires a < |lines| ==> NonBlank(lines[a])
    requires a < b ==> NonBlank(lines[b - 1])
    ensures Trim(lines) == lines[a..][..b - a]
  {
    TrimFrontAt(lines, a);
    var rest := lines[a..];
    if a < b {
      assert rest[b - a - 1] == lines[b - 1];
    }
    TrimBackAt(rest, b - a);
  }

  /** Cutting where the blank edges stop trims. */
  lemma {:induction false} TrimmedAt(lines: seq<string>, a: nat, b: nat)
    requires a <= b <= |lines| && BlankFrom(lines, 0, a) && BlankFrom(lines, b, |lines|)
    requires a < |lines| ==> NonBlank(lines[a])
    requires a < b ==> NonBlank(lines[b - 1])
    ensures Trim(lines) == lines[a..b] && IsTrimmed(lines, lines[a..b], a, b)
  {
    BlankSlices(lines, a, b);
    TrimAt(lines, a, b);
    SliceOfTail(lines, a, b);
    SolidEdges(lines, a, b);
  }

  lemma SliceOfTail(lines: seq<string>, a: nat, b: nat)
    requires a <= b <= |lines|
    ensures lines[a..][..b - a] == lines[a..b]
  {
  }

  lemma {:induction false} SolidEdges(lines: seq<string>, a: nat, b: nat)
    requires a <= b <= |lines| && AllBlank(lines[..a]) && AllBlank(lines[b..])
    requires a < b ==> NonBlank(lines[a]) && NonBlank(lines[b - 1])
    ensures IsTrimmed(lines, lines[a..b], a, b)
  {
    if a < b {
      assert lines[a..b][0] == lines[a] && lines[a..b][b - a - 1] == lines[b - 1];
    }
  }

  /** `trim_blank_edges`: two indices moving towards each other. */
  method TrimBlankEdges(lines: seq<string>) returns (body: seq<string>, ghost start: nat, ghost end: nat)
    ensures body == Trim(lines)
    ensures IsTrimmed(lines, body, start, end)
  {
    var a, b := 0, |lines|;
    while a < b && IsBlank(lines[a])
      invariant 0 <= a <= b == |lines|
      invariant BlankFrom(lines, 0, a)
    {
      a := a + 1;
    }
    while b > a && IsBlank(lines[b - 1])
      invariant a <= b <= |lines|
      invariant BlankFrom(lines, b, |lines|)
    {
      b := b - 1;
    }
    TrimmedAt(lines, a, b);
    body, start, end := lines[a..b], a, b;
  }

  function LeadingSpaces(s: string): (n: nat)
    ensures n <= |s|
  {
    if s != "" && s[0] == ' ' then 1 + LeadingSpaces(s[1..]) else 0
  }

  /** The smallest indent once one more line is looked at. */
  function JoinIndent(line: string, rest: Option<nat>): Option<nat> {
    if IsBlank(line) then rest
    else if rest.Some? && rest.value < LeadingSpaces(line) then rest
    else Some(LeadingSpaces(line))
  }

  /** The smallest indent of the lines that are not blank. */
  function CommonIndent(lines: seq<string>): Option<nat> {
    if lines == [] then None else JoinIndent(lines[0], CommonIndent(lines[1..]))
  }

  function Cut(line: string, n: nat): string {
    if NonBlank(line) && n <= |line| then line[n..] else line
  }

  /** `dedent_common_indent` */
  function Dedent(lines: seq<string>): (r: seq<string>)
    ensures |r| == |lines|
  {
    var indent := CommonIndent(lines);
    if indent.None? || indent.value == 0 then lines
    else CutAll(lines, indent.value)
  }

  lemma {:induction false} CutSpaces(line: string, n: nat)
    requires NonBlank(line) && n <= LeadingSpaces(line)
    ensures NonBlank(line[n..]) && LeadingSpaces(line[n..]) == LeadingSpaces(line) - n
    decreases n
  {
    if n > 0 {
      var k :| 0 <= k < |line| && !IsSpace(line[k]);
      assert line[1..][k - 1] == line[k];
      CutSpaces(line[1..], n - 1);
      assert line[1..][n - 1..] == line[n..];
    } else {
      assert line[0..] == line;
    }
  }

  function CutAll(lines: seq<string>, n: nat): (r: seq<string>)
    ensures |r| == |lines|
    ensures forall i :: 0 <= i < |lines| ==> r[i] == Cut(lines[i], n)
  {
    Project(lines, (line: string) => Cut(line, n))
  }

  function LessIndent(indent: Option<nat>, n: nat): Option<nat>
    requires indent.Some? ==> n <= indent.value
  {
    if indent.None? then None else Some(indent.value - n)
  }

  lemma {:induction false} CutOneLine(line: string, rest: Option<nat>, n: nat)
    requires JoinIndent(line, rest).Some? ==> n <= JoinIndent(line, rest).value
    ensures rest.Some? ==> n <= rest.value
    ensures JoinIndent(Cut(line, n), LessIndent(rest, n)) == LessIndent(JoinIndent(line, rest), n)
  {
    if NonBlank(line) {
      CutSpaces(line, n);
    }
  }

  lemma {:induction false} IndentAfterCut(lines: seq<string>, n: nat)
    requires CommonIndent(lines).Some? ==> n <= CommonIndent(lines).value
    ensures CommonIndent(CutAll(lines, n)) == LessIndent(CommonIndent(lines), n)
  {
    if lines != [] {
      CutOneLine(lines[0], CommonIndent(lines[1..]), n);
      assert CutAll(lines, n)[1..] == CutAll(lines[1..], n);
      IndentAfterCut(lines[1..], n);
    }
  }

  /** Dedenting leaves no common indent, so dedenting again changes nothing. */
  lemma DedentIdempotent(lines: seq<string>)
    ensures CommonIndent(Dedent(lines)).None? || CommonIndent(Dedent(lines)) == Some(0)
    ensures Dedent(Dedent(lines)) == Dedent(lines)
  {
    if CommonIndent(lines).Some? {
      IndentAfterCut(lines, CommonIndent(lines).value);
    }
  }

  predicate IsFence(line: string) {
    |line| >= 3 && line[..3] == "```"
  }

  /** `normalize_snippet_body`, as lines */
  function NormalizeBody(lines: seq<string>): seq<string> {
    var body := Trim(lines);
    var inner := if |body| >= 2 && IsFence(body[0]) && body[|body| - 1] == "```" then Trim(body[1..|body| - 1]) else body;
    Dedent(inner)
  }

  // ------------------------------------------------------------ extraction

  datatype Active = Outside | Inside(name: string, lines: seq<string>)

  /** Where a reader of the document stands after some of its lines. */
  datatype Scan = Failed | Scanning(active: Active, snippets: map<string, seq<string>>)

  const START := Scanning(Outside, map[])

  function ScanLine(scan: Scan, line: string): Scan {
    if scan.Failed? then Failed
    else
      match SnippetOf(line)
      case NoSnippet =>
        if scan.active.Inside? then scan.(active := scan.active.(lines := scan.active.lines + [line])) else scan
      case SnippetStart(name) =>
        if scan.active.Inside? || name in scan.snippets then Failed
        else scan.(active := Inside(name, []))
      case SnippetEnd(name) =>
        if scan.active.Outside? || scan.active.name != name then Failed
        else Scanning(Outside, scan.snippets[name := NormalizeBody(scan.active.lines)])
  }

  function ScanFrom(scan: Scan, lines: seq<string>): Scan {
    if lines == [] then scan else ScanLine(ScanFrom(scan, lines[..|lines| - 1]), lines[|lines| - 1])
  }

  /** The snippets of a document, or nothing when its markers are unbalanced. */
  function Extracted(lines: seq<string>): Option<map<string, seq<string>>> {
    var scan := ScanFrom(START, lines);
    if scan.Failed? || scan.active.Inside? then None else Some(scan.snippets)
  }

  lemma {:induction false} FailedStays(scan: Scan, lines: seq<string>, n: nat)
    requires n <= |lines| && ScanFrom(scan, lines[..n]).Failed?
    ensures ScanFrom(scan, lines).Failed?
    decreases |lines|
  {
    if n < |lines| {
      assert lines[..|lines| - 1][..n] == lines[..n];
      FailedStays(scan, lines[..|lines| - 1], n);
    } else {
      assert lines[..n] == lines;
    }
  }

  lemma {:induction false} ScanSnoc(scan: Scan, front: seq<string>, last: string)
    ensures ScanFrom(scan, front + [last]) == ScanLine(ScanFrom(scan, front), last)
  {
    assert (front + [last])[..|front|] == front;
  }

  /** `extract_marked_quickstart_snippets_from_text` */
  method ExtractMarkedSnippets(lines: seq<string>) returns (result: Option<map<string, seq<string>>>)
    ensures result == Extracted(lines)
  {
    var active := Outside;
    var snippets: map<string, seq<string>> := map[];
    for n := 0 to |lines|
      invariant ScanFrom(START, lines[..n]) == Scanning(active, snippets)
    {
      var line := lines[n];
      assert lines[..n + 1] == lines[..n] + [line];
      ScanSnoc(START, lines[..n], line);
      match SnippetOf(line) {
        case NoSnippet =>
          if active.Inside? {
            active := active.(lines := active.lines + [line]);
          }
        case SnippetStart(name) =>
          if active.Inside? || name in snippets {
            FailedStays(START, lines, n + 1);
            return None;
          }
          active := Inside(name, []);
        case SnippetEnd(name) =>
          if active.Outside? || active.name != name {
            FailedStays(START, lines, n + 1);
            return None;
          }
          snippets := snippets[name := NormalizeBody(active.lines)];
          active := Outside;
      }
      assert ScanFrom(START, lines[..n + 1]) == Scanning(active, snippets);
    }
    assert lines[..|lines|] == lines;
    result := if active.Inside? then None else Some(snippets);
  }

  // ------------------------------------------------------------ commutation with the renderer

  lemma {:induction false} ScanConcat(scan: Scan, a: seq<string>, b: seq<string>)
    ensures ScanFrom(scan, a + b) == ScanFrom(ScanFrom(scan, a), b)
    decreases |b|
  {
    if b == [] {
      assert a + b == a;
    } else {
      var front, last := b[..|b| - 1], b[|b| - 1];
      assert (a + b)[..|a + b| - 1] == a + front && (a + b)[|a + b| - 1] == last;
      ScanConcat(scan, a, front);
    }
  }

  predicate NoSnippetMarkers(lines: seq<string>) {
    forall line :: line in lines ==> SnippetOf(line) == NoSnippet
  }

  /** Outside a snippet, lines without snippet markers leave no trace. */
  lemma {:induction false} PlainLinesLeaveNoTrace(scan: Scan, lines: seq<string>)
    requires scan.Scanning? ==> scan.active.Outside?
    requires NoSnippetMarkers(lines)
    ensures ScanFrom(scan, lines) == scan
  {
    if lines != [] {
      var front := lines[..|lines| - 1];
      assert forall line :: line in front ==> line in lines;
      PlainLinesLeaveNoTrace(scan, front);
      assert lines[|lines| - 1] in lines;
    }
  }

  /** The status block starts outside every open snippet. */
  predicate BlockOutsideSnippets(lines: seq<string>, i: int)
    requires 0 <= i < |lines|
  {
    var before := ScanFrom(START, lines[..i]);
    before.Scanning? ==> before.active.Outside?
  }

  /** Skipping the text between two markers, when it holds no snippet marker. */
  lemma ScanSkipsBlock(lines: seq<string>, i: int, j: int, inner: seq<string>)
    requires IsBlock(lines, i, j) && BlockOutsideSnippets(lines, i) && NoSnippetMarkers(inner)
    ensures ScanFrom(START, Between(lines, i, j, inner)) == ScanFrom(ScanFrom(START, lines[..i]), lines[j..])
  {
    var marked := [lines[i]] + inner;
    var before := ScanFrom(START, lines[..i]);
    assert Between(lines, i, j, inner) == lines[..i] + marked + lines[j..];
    ScanConcat(START, lines[..i] + marked, lines[j..]);
    ScanConcat(START, lines[..i], marked);
    MarkersDisjoint(lines[i]);
    assert forall line :: line in marked ==> line == lines[i] || line in inner;
    PlainLinesLeaveNoTrace(before, marked);
  }

  lemma BlockItself(lines: seq<string>, i: int, j: int)
    requires 0 <= i < j < |lines|
    ensures Between(lines, i, j, lines[i + 1..j]) == lines
  {
  }

  lemma SameScanSameSnippets(a: seq<string>, b: seq<string>)
    requires ScanFrom(START, a) == ScanFrom(START, b)
    ensures Extracted(a) == Extracted(b)
  {
  }

  /** Rendering the status never changes the extracted snippets, nor whether extraction
      succeeds, when the block lies outside every open snippet and neither the old nor the new
      block text holds a snippet marker: the renderer's guard cannot fire. */
  lemma RenderingKeepsSnippets(lines: seq<string>, i: int, j: int, replacement: seq<string>)
    requires IsBlock(lines, i, j) && BlockOutsideSnippets(lines, i)
    requires NoSnippetMarkers(lines[i + 1..j]) && NoSnippetMarkers(replacement)
    ensures Replaced(lines, replacement).Some?
    ensures Extracted(Replaced(lines, replacement).value) == Extracted(lines)
  {
    ReplacedAt(lines, i, j, replacement);
    BlockItself(lines, i, j);
    ScanSkipsBlock(lines, i, j, replacement);
    ScanSkipsBlock(lines, i, j, lines[i + 1..j]);
    SameScanSameSnippets(Between(lines, i, j, replacement), lines);
  }
}
