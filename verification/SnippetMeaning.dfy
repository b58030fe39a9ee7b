// What the snippet extractor computes, without its loop: when it succeeds, which names it finds
// and what it finds under each.
module SnippetMeaning {
  import opened Common
  import opened Markers
  import opened QuickstartSnippets

  // ------------------------------------------------------------ when extraction succeeds

  /** The snippet markers of a document, in order. */
  function Marks(lines: seq<string>): seq<SnippetMark> {
    if lines == [] then []
    else
      var mark := SnippetOf(lines[|lines| - 1]);
      Marks(lines[..|lines| - 1]) + (if mark == NoSnippet then [] else [mark])
  }

  function MarkName(mark: SnippetMark): string {
    match mark
    case NoSnippet => ""
    case SnippetStart(name) => name
    case SnippetEnd(name) => name
  }

  /** Starts and ends alternate, each end names the start before it, and no name starts twice. */
  predicate Paired(marks: seq<SnippetMark>) {
    && (forall i :: 0 <= i < |marks| ==> InTurn(marks, i))
    && (forall i, j :: 0 <= i < j < |marks| ==> Differ(marks, i, j))
  }

  predicate InTurn(marks: seq<SnippetMark>, i: int)
    requires 0 <= i < |marks|
  {
    if i % 2 == 0 then marks[i].SnippetStart? else marks[i] == SnippetEnd(MarkName(marks[i - 1]))
  }

  predicate Differ(marks: seq<SnippetMark>, i: int, j: int)
    requires 0 <= i < j < |marks|
  {
    i % 2 == 0 && j % 2 == 0 ==> MarkName(marks[i]) != MarkName(marks[j])
  }

  /** The names whose end has been read. */
  function Closed(marks: seq<SnippetMark>): set<string> {
    set i | 0 <= i < |marks| && i % 2 == 1 :: MarkName(marks[i])
  }

  lemma ClosedSnoc(marks: seq<SnippetMark>, mark: SnippetMark)
    ensures Closed(marks + [mark]) == Closed(marks) + (if |marks| % 2 == 1 then {MarkName(mark)} else {})
  {
    var all := marks + [mark];
    forall name ensures name in Closed(all) <==> name in Closed(marks) || (|marks| % 2 == 1 && name == MarkName(mark)) {
      if name in Closed(all) {
        var i :| 0 <= i < |all| && i % 2 == 1 && MarkName(all[i]) == name;
        assert i < |marks| ==> MarkName(marks[i]) == name;
      }
      if name in Closed(marks) {
        var i :| 0 <= i < |marks| && i % 2 == 1 && MarkName(marks[i]) == name;
        assert all[i] == marks[i];
      }
      assert all[|marks|] == mark;
    }
  }

  /** Between snippets, the names that started are the names that ended. */
  lemma StartedIsClosed(marks: seq<SnippetMark>, name: string)
    requires Paired(marks) && |marks| % 2 == 0
    ensures name in Closed(marks) <==> exists i :: 0 <= i < |marks| && i % 2 == 0 && MarkName(marks[i]) == name
  {
    if name in Closed(marks) {
      var i :| 0 <= i < |marks| && i % 2 == 1 && MarkName(marks[i]) == name;
      assert InTurn(marks, i) && MarkName(marks[i - 1]) == name;
    }
    if i :| 0 <= i < |marks| && i % 2 == 0 && MarkName(marks[i]) == name {
      assert InTurn(marks, i + 1) && marks[i + 1] == SnippetEnd(MarkName(marks[i]));
      assert MarkName(marks[i + 1]) == name;
    }
  }

  /** What the next marker has to be. */
  predicate Continues(marks: seq<SnippetMark>, mark: SnippetMark) {
    if |marks| % 2 == 0 then mark.SnippetStart? && mark.name !in Closed(marks)
    else mark == SnippetEnd(MarkName(marks[|marks| - 1]))
  }

  lemma PairedPrefix(marks: seq<SnippetMark>, mark: SnippetMark)
    requires Paired(marks + [mark])
    ensures Paired(marks)
  {
    var all := marks + [mark];
    forall i | 0 <= i < |marks| ensures InTurn(marks, i) {
      assert InTurn(all, i);
    }
    forall i, j | 0 <= i < j < |marks| ensures Differ(marks, i, j) {
      assert Differ(all, i, j);
    }
  }

  lemma ContinuedIsPaired(marks: seq<SnippetMark>, mark: SnippetMark)
    requires Paired(marks) && Continues(marks, mark)
    ensures Paired(marks + [mark])
  {
    var all, n := marks + [mark], |marks|;
    forall i | 0 <= i < n + 1 ensures InTurn(all, i) {
      assert i < n ==> InTurn(marks, i);
    }
    forall i, j | 0 <= i < j < n + 1 ensures Differ(all, i, j) {
      if j < n {
        assert Differ(marks, i, j);
      } else if n % 2 == 0 && i % 2 == 0 {
        StartedIsClosed(marks, MarkName(mark));
        assert MarkName(marks[i]) != MarkName(mark);
      }
    }
  }

  lemma PairedContinues(marks: seq<SnippetMark>, mark: SnippetMark)
    requires Paired(marks + [mark])
    ensures Continues(marks, mark)
  {
    var all, n := marks + [mark], |marks|;
    PairedPrefix(marks, mark);
    assert InTurn(all, n);
    if n % 2 == 0 {
      forall i | 0 <= i < n && i % 2 == 0 ensures MarkName(marks[i]) != MarkName(mark) {
        assert Differ(all, i, n);
      }
      StartedIsClosed(marks, MarkName(mark));
    }
  }

  lemma PairedSnoc(marks: seq<SnippetMark>, mark: SnippetMark)
    requires Paired(marks)
    ensures Paired(marks + [mark]) <==> Continues(marks, mark)
  {
    if Continues(marks, mark) {
      ContinuedIsPaired(marks, mark);
    }
    if Paired(marks + [mark]) {
      PairedContinues(marks, mark);
    }
  }

  /** What the markers read so far say: whether they are paired, the names closed, and the name
      of a snippet still open. */
  datatype Reading = Reading(paired: bool, closed: set<string>, open: Option<string>)

  function ReadingOf(marks: seq<SnippetMark>): Reading {
    Reading(Paired(marks), Closed(marks), if |marks| % 2 == 1 then Some(MarkName(marks[|marks| - 1])) else None)
  }

  predicate Agrees(scan: Scan, r: Reading) {
    if scan.Failed? then !r.paired
    else r.paired && scan.snippets.Keys == r.closed && r.open == (if scan.active.Inside? then Some(scan.active.name) else None)
  }

  /** The scanner's state, read off the markers alone. */
  predicate ScanMatches(scan: Scan, marks: seq<SnippetMark>) {
    Agrees(scan, ReadingOf(marks))
  }

  function NextReading(r: Reading, mark: SnippetMark): Reading {
    var continues := if r.open.None? then mark.SnippetStart? && mark.name !in r.closed else mark == SnippetEnd(r.open.value);
    Reading(r.paired && continues,
            if r.open.None? then r.closed else r.closed + {MarkName(mark)},
            if r.open.None? then Some(MarkName(mark)) else None)
  }

  lemma ReadingSnoc(marks: seq<SnippetMark>, mark: SnippetMark)
    ensures ReadingOf(marks + [mark]) == NextReading(ReadingOf(marks), mark)
  {
    ClosedSnoc(marks, mark);
    assert (marks + [mark])[|marks|] == mark;
    if Paired(marks) {
      PairedSnoc(marks, mark);
    } else if Paired(marks + [mark]) {
      PairedPrefix(marks, mark);
    }
  }

  /** What the scanner does at a marker, in terms of the marker alone. */
  function AtMark(scan: Scan, mark: SnippetMark): Scan
    requires mark != NoSnippet
  {
    if scan.Failed? then Failed
    else
      match mark
      case SnippetStart(name) =>
        if scan.active.Inside? || name in scan.snippets then Failed else scan.(active := Inside(name, []))
      case SnippetEnd(name) =>
        if scan.active.Outside? || scan.active.name != name then Failed
        else Scanning(Outside, scan.snippets[name := NormalizeBody(scan.active.lines)])
  }

  lemma MarkStep(scan: Scan, r: Reading, mark: SnippetMark)
    requires Agrees(scan, r) && mark != NoSnippet
    ensures Agrees(AtMark(scan, mark), NextReading(r, mark))
  {
  }

  lemma MarkerStep(scan: Scan, marks: seq<SnippetMark>, line: string)
    requires ScanMatches(scan, marks) && SnippetOf(line) != NoSnippet
    ensures ScanMatches(ScanLine(scan, line), marks + [SnippetOf(line)])
  {
    MarkStep(scan, ReadingOf(marks), SnippetOf(line));
    ReadingSnoc(marks, SnippetOf(line));
    assert ScanLine(scan, line) == AtMark(scan, SnippetOf(line));
  }

  lemma {:induction false} ScanFollowsMarks(lines: seq<string>)
    ensures ScanMatches(ScanFrom(START, lines), Marks(lines))
  {
    if lines != [] {
      var front, last := lines[..|lines| - 1], lines[|lines| - 1];
      ScanFollowsMarks(front);
      if SnippetOf(last) == NoSnippet {
        assert Marks(lines) == Marks(front);
      } else {
        MarkerStep(ScanFrom(START, front), Marks(front), last);
      }
    }
  }

  /** Extraction succeeds exactly when the markers alternate start and end with matching names,
      pairwise distinct, and the last snippet is closed. */
  lemma ExtractionSucceedsExactly(lines: seq<string>)
    ensures Extracted(lines).Some? <==> Paired(Marks(lines)) && |Marks(lines)| % 2 == 0
    ensures Extracted(lines).Some? ==> Extracted(lines).value.Keys == Closed(Marks(lines))
  {
    ScanFollowsMarks(lines);
  }

  // ------------------------------------------------------------ what is found under a name

  /** Lines `i` and `j` mark a snippet, with no marker between them. */
  predicate IsSnippet(lines: seq<string>, i: int, j: int, name: string) {
    && 0 <= i < j < |lines|
    && SnippetOf(lines[i]) == SnippetStart(name)
    && SnippetOf(lines[j]) == SnippetEnd(name)
    && NoSnippetMarkers(lines[i + 1..j])
  }

  lemma {:induction false} BodyCollected(scan: Scan, name: string, body: seq<string>)
    requires scan.Scanning? && scan.active == Inside(name, []) && NoSnippetMarkers(body)
    ensures ScanFrom(scan, body) == scan.(active := Inside(name, body))
  {
    if body != [] {
      var front := body[..|body| - 1];
      assert forall line :: line in front ==> line in body;
      BodyCollected(scan, name, front);
      assert body[|body| - 1] in body;
      assert body == front + [body[|body| - 1]];
    }
  }

  /** An entry once made is never changed. */
  lemma {:induction false} EntryStays(scan: Scan, lines: seq<string>, name: string)
    requires scan.Scanning? && name in scan.snippets && (scan.active.Inside? ==> scan.active.name != name)
    ensures var after := ScanFrom(scan, lines);
            after.Scanning? ==>
              && name in after.snippets && after.snippets[name] == scan.snippets[name]
              && (after.active.Inside? ==> after.active.name != name)
  {
    if lines != [] {
      EntryStays(scan, lines[..|lines| - 1], name);
    }
  }

  lemma ScanOne(scan: Scan, line: string)
    ensures ScanFrom(scan, [line]) == ScanLine(scan, line)
  {
    assert [line][..0] == [];
  }

  /** Reading one marked snippet from outside makes its entry. */
  lemma SnippetRead(scan: Scan, start: string, body: seq<string>, end: string, name: string)
    requires SnippetOf(start) == SnippetStart(name) && SnippetOf(end) == SnippetEnd(name) && NoSnippetMarkers(body)
    requires ScanLine(scan, start).Scanning?
    ensures ScanFrom(scan, [start] + body + [end]) == Scanning(Outside, scan.snippets[name := NormalizeBody(body)])
  {
    ScanConcat(scan, [start] + body, [end]);
    ScanConcat(scan, [start], body);
    ScanOne(scan, start);
    BodyCollected(ScanLine(scan, start), name, body);
    ScanOne(ScanFrom(scan, [start] + body), end);
  }

  lemma NeverFailedBefore(lines: seq<string>, n: nat)
    requires n <= |lines| && ScanFrom(START, lines).Scanning?
    ensures ScanFrom(START, lines[..n]).Scanning?
  {
    if ScanFrom(START, lines[..n]).Failed? {
      FailedStays(START, lines, n);
    }
  }

  lemma SnippetFoundInParts(before: seq<string>, start: string, body: seq<string>, end: string, rest: seq<string>,
                            name: string)
    requires SnippetOf(start) == SnippetStart(name) && SnippetOf(end) == SnippetEnd(name) && NoSnippetMarkers(body)
    requires ScanFrom(START, before + [start]).Scanning?
    ensures var after := ScanFrom(START, before + ([start] + body + [end]) + rest);
            after.Scanning? ==> name in after.snippets && after.snippets[name] == NormalizeBody(body)
  {
    var scan, block := ScanFrom(START, before), [start] + body + [end];
    ScanConcat(START, before, [start]);
    ScanOne(scan, start);
    SnippetRead(scan, start, body, end, name);
    ScanConcat(START, before, block);
    ScanConcat(START, before + block, rest);
    EntryStays(ScanFrom(START, before + block), rest, name);
  }

  lemma CutAround(lines: seq<string>, i: int, j: int)
    requires 0 <= i < j < |lines|
    ensures lines == lines[..i] + ([lines[i]] + lines[i + 1..j] + [lines[j]]) + lines[j + 1..]
    ensures lines[..i + 1] == lines[..i] + [lines[i]]
  {
  }

  /** Under the name of a marked snippet the extractor finds the normalised lines between its
      markers. */
  lemma {:induction false} SnippetFound(lines: seq<string>, i: int, j: int, name: string)
    requires Extracted(lines).Some? && IsSnippet(lines, i, j, name)
    ensures name in Extracted(lines).value && Extracted(lines).value[name] == NormalizeBody(lines[i + 1..j])
  {
    CutAround(lines, i, j);
    NeverFailedBefore(lines, i + 1);
    SnippetFoundInParts(lines[..i], lines[i], lines[i + 1..j], lines[j], lines[j + 1..], name);
  }

  /** Some marked snippet of this name has this body. */
  ghost predicate HasSource(lines: seq<string>, name: string, body: seq<string>) {
    exists i, j :: IsSnippet(lines, i, j, name) && body == NormalizeBody(lines[i + 1..j])
  }

  lemma SourceSnoc(front: seq<string>, last: string, name: string, body: seq<string>)
    requires HasSource(front, name, body)
    ensures HasSource(front + [last], name, body)
  {
    var i, j :| IsSnippet(front, i, j, name) && body == NormalizeBody(front[i + 1..j]);
    SnippetSnoc(front, last, i, j, name);
  }

  lemma SnippetSnoc(front: seq<string>, last: string, i: int, j: int, name: string)
    requires IsSnippet(front, i, j, name)
    ensures IsSnippet(front + [last], i, j, name) && (front + [last])[i + 1..j] == front[i + 1..j]
  {
    var lines := front + [last];
    assert lines[i] == front[i] && lines[j] == front[j];
    assert lines[i + 1..j] == front[i + 1..j];
  }

  /** The snippet opened at line `i` holds all lines since. */
  predicate OpenAt(lines: seq<string>, i: int, name: string, body: seq<string>) {
    && 0 <= i < |lines|
    && SnippetOf(lines[i]) == SnippetStart(name)
    && lines[i + 1..] == body
    && NoSnippetMarkers(body)
  }

  ghost predicate OpenSince(lines: seq<string>, active: Active) {
    active.Inside? ==> exists i :: OpenAt(lines, i, active.name, active.lines)
  }

  lemma OpenAtSnoc(front: seq<string>, last: string, i: int, name: string, body: seq<string>)
    requires OpenAt(front, i, name, body) && SnippetOf(last) == NoSnippet
    ensures OpenAt(front + [last], i, name, body + [last])
  {
    var lines := front + [last];
    assert lines[i] == front[i] && lines[i + 1..] == front[i + 1..] + [last];
  }

  lemma OpenSnoc(front: seq<string>, last: string, active: Active)
    requires active.Inside? && OpenSince(front, active) && SnippetOf(last) == NoSnippet
    ensures OpenSince(front + [last], Inside(active.name, active.lines + [last]))
  {
    var i :| OpenAt(front, i, active.name, active.lines);
    OpenAtSnoc(front, last, i, active.name, active.lines);
  }

  lemma OpenNow(front: seq<string>, last: string, name: string)
    requires SnippetOf(last) == SnippetStart(name)
    ensures OpenSince(front + [last], Inside(name, []))
  {
    var lines := front + [last];
    assert lines[|front|] == last && lines[|front| + 1..] == [];
    assert OpenAt(lines, |front|, name, []);
  }

  lemma ClosedNow(front: seq<string>, last: string, active: Active)
    requires active.Inside? && OpenSince(front, active) && SnippetOf(last) == SnippetEnd(active.name)
    ensures HasSource(front + [last], active.name, NormalizeBody(active.lines))
  {
    var i :| OpenAt(front, i, active.name, active.lines);
    var lines := front + [last];
    assert lines[i] == front[i] && lines[|front|] == last;
    assert lines[i + 1..|front|] == active.lines;
    assert IsSnippet(lines, i, |front|, active.name);
  }

  lemma {:induction false} EntriesHaveSources(lines: seq<string>)
    ensures var scan := ScanFrom(START, lines);
            scan.Scanning? ==>
              && OpenSince(lines, scan.active)
              && forall name :: name in scan.snippets ==> HasSource(lines, name, scan.snippets[name])
  {
    if lines != [] && ScanFrom(START, lines).Scanning? {
      var front, last := lines[..|lines| - 1], lines[|lines| - 1];
      assert lines == front + [last];
      EntriesHaveSources(front);
      var before, after := ScanFrom(START, front), ScanFrom(START, lines);
      if before.active.Inside? && SnippetOf(last) == NoSnippet {
        OpenSnoc(front, last, before.active);
      } else if SnippetOf(last).SnippetStart? {
        OpenNow(front, last, SnippetOf(last).name);
      }
      forall name | name in after.snippets ensures HasSource(lines, name, after.snippets[name]) {
        if SnippetOf(last) == SnippetEnd(name) {
          ClosedNow(front, last, before.active);
        } else {
          SourceSnoc(front, last, name, before.snippets[name]);
        }
      }
    }
  }

  /** Exactly the marked snippets are found: a name has an entry if and only if it marks a snippet,
      and the entry is that snippet's body. */
  lemma EntriesExactly(lines: seq<string>, name: string)
    requires Extracted(lines).Some?
    ensures name in Extracted(lines).value <==> exists i, j :: IsSnippet(lines, i, j, name)
    ensures name in Extracted(lines).value ==> HasSource(lines, name, Extracted(lines).value[name])
  {
    EntriesHaveSources(lines);
    if i, j :| IsSnippet(lines, i, j, name) {
      SnippetFound(lines, i, j, name);
    }
  }
}
