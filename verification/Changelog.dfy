// The changelog as a list of lines: what `strip` does to it, how release headers read,
// and the extraction of one release section.
module Changelog {
  import opened Common
  import opened Markers

  // ------------------------------------------------------------ stripping a text of lines

  /** `text.rstrip()` of the joined lines */
  function RStripText(lines: seq<string>): seq<string> {
    if lines == [] then []
    else
      var front, last := lines[..|lines| - 1], RStrip(lines[|lines| - 1]);
      if last == "" then RStripText(front) else front + [last]
  }

  /** `text.lstrip()` of the joined lines */
  function LStripText(lines: seq<string>): seq<string> {
    if lines == [] then []
    else
      var first := LStrip(lines[0]);
      if first == "" then LStripText(lines[1..]) else [first] + lines[1..]
  }

  /** `text.strip()` of the joined lines; the empty list stands for the empty text */
  function StripText(lines: seq<string>): seq<string> {
    LStripText(RStripText(lines))
  }

  lemma {:induction false} RStripIdempotent(s: string)
    ensures RStrip(RStrip(s)) == RStrip(s)
  {
    if s != "" && IsSpace(s[|s| - 1]) {
      RStripIdempotent(s[..|s| - 1]);
    }
  }

  lemma RStripTextSnoc(lines: seq<string>, last: string)
    ensures RStripText(lines + [last]) == if RStrip(last) == "" then RStripText(lines) else lines + [RStrip(last)]
  {
    assert (lines + [last])[..|lines|] == lines;
  }

  /** Stripping a concatenation works on its last part that is not all blank. */
  lemma {:induction false} RStripTextConcat(a: seq<string>, b: seq<string>)
    ensures RStripText(a + b) == if RStripText(b) == [] then RStripText(a) else a + RStripText(b)
    decreases |b|
  {
    if b == [] {
      assert a + b == a;
    } else {
      var front, last := b[..|b| - 1], b[|b| - 1];
      assert a + b == (a + front) + [last] && b == front + [last];
      RStripTextSnoc(a + front, last);
      RStripTextSnoc(front, last);
      if RStrip(last) == "" {
        RStripTextConcat(a, front);
      } else {
        assert a + (front + [RStrip(last)]) == (a + front) + [RStrip(last)];
      }
    }
  }

  lemma {:induction false} RStripTextIdempotent(lines: seq<string>)
    ensures RStripText(RStripText(lines)) == RStripText(lines)
  {
    if lines != [] {
      var front, last := lines[..|lines| - 1], lines[|lines| - 1];
      if RStrip(last) == "" {
        RStripTextIdempotent(front);
      } else {
        RStripIdempotent(last);
        RStripTextSnoc(front, RStrip(last));
      }
    }
  }

  /** A line without trailing white space survives, wherever it stands. */
  lemma {:induction false} SolidLineSurvives(lines: seq<string>, line: string)
    requires line in lines && line != "" && RStrip(line) == line
    ensures line in RStripText(lines)
  {
    var front, last := lines[..|lines| - 1], lines[|lines| - 1];
    assert lines == front + [last];
    if RStrip(last) == "" {
      SolidLineSurvives(front, line);
    } else if line in front {
      assert line in front + [RStrip(last)];
    } else {
      assert line == last;
    }
  }

  lemma {:induction false} LStripIsSuffix(s: string)
    ensures |LStrip(s)| <= |s| && LStrip(s) == s[|s| - |LStrip(s)|..]
  {
    if s != "" && IsSpace(s[0]) {
      LStripIsSuffix(s[1..]);
    }
  }

  lemma LStripEndsAlike(s: string)
    requires RStrip(s) == s
    ensures RStrip(LStrip(s)) == LStrip(s)
  {
    LStripIsSuffix(s);
  }

  /** Stripped text ends on a stripped line that is not empty, and such text is stripped. */
  lemma {:induction false} StrippedEnd(lines: seq<string>)
    requires lines != []
    ensures var last := lines[|lines| - 1];
            RStripText(lines) == lines <==> RStrip(last) == last && last != ""
  {
    var front, last := lines[..|lines| - 1], lines[|lines| - 1];
    assert lines == front + [last];
    RStripTextSnoc(front, last);
    RStripTextShrinks(front);
  }

  /** Stripping is idempotent. */
  lemma {:induction false} LStripKeepsRStripped(lines: seq<string>)
    requires RStripText(lines) == lines
    ensures RStripText(LStripText(lines)) == LStripText(lines)
  {
    if lines != [] {
      StrippedEnd(lines);
      if LStrip(lines[0]) != "" {
        var after := [LStrip(lines[0])] + lines[1..];
        if |lines| == 1 {
          LStripEndsAlike(lines[0]);
        }
        StrippedEnd(after);
      } else if |lines| > 1 {
        StrippedEnd(lines[1..]);
        LStripKeepsRStripped(lines[1..]);
      }
    }
  }

  lemma {:induction false} RStripTextShrinks(lines: seq<string>)
    ensures |RStripText(lines)| <= |lines|
  {
    if lines != [] {
      RStripTextShrinks(lines[..|lines| - 1]);
    }
  }

  lemma StrippedStaysStripped(lines: seq<string>)
    ensures var body := StripText(lines); RStripText(body) == body
  {
    RStripTextIdempotent(lines);
    LStripKeepsRStripped(RStripText(lines));
  }

  lemma {:induction false} LStripIdempotent(s: string)
    ensures LStrip(LStrip(s)) == LStrip(s)
  {
    if s != "" && IsSpace(s[0]) {
      LStripIdempotent(s[1..]);
    }
  }

  lemma {:induction false} LStripTextIdempotent(lines: seq<string>)
    ensures LStripText(LStripText(lines)) == LStripText(lines)
  {
    if lines != [] {
      var first := LStrip(lines[0]);
      if first == "" {
        LStripTextIdempotent(lines[1..]);
      } else {
        LStripIdempotent(lines[0]);
        assert ([first] + lines[1..])[1..] == lines[1..];
      }
    }
  }

  /** Blank lines around a stripped body go away again. */
  lemma StripOfPadded(lines: seq<string>)
    ensures var body := StripText(lines); StripText([""] + body + [""]) == body
    ensures StripText([""]) == []
  {
    var body := StripText(lines);
    StrippedStaysStripped(lines);
    RStripTextSnoc([""] + body, "");
    RStripTextConcat([""], body);
    RStripTextSnoc([], "");
    assert [] + [""] == [""];
    if body != [] {
      assert ([""] + body)[1..] == body;
      LStripTextIdempotent(RStripText(lines));
      assert LStripText([""] + body) == LStripText(body);
    } else {
      assert [""] + body == [""];
    }
  }

  // ------------------------------------------------------------ headers

  const HEADING := "## ["
  const DATE_MARK := "] \U{2014} "

  /** any second-level heading in brackets ends the section before it */
  predicate IsHeading(line: string) {
    StartsWith(line, HEADING)
  }

  predicate IsDate(s: string) {
    && |s| == 10
    && s[4] == '-'
    && s[7] == '-'
    && forall i :: 0 <= i < 10 && i != 4 && i != 7 ==> IsDigit(s[i])
  }

  /** everything before the first `]`, and everything from it on */
  function UpToBracket(s: string): string {
    if s == "" || s[0] == ']' then "" else [s[0]] + UpToBracket(s[1..])
  }

  /** The tag of a dated release header, white space at the end of the line allowed. */
  function HeaderTag(line: string): Option<string> {
    if !IsHeading(line) then None
    else
      var rest := line[|HEADING|..];
      var tag := UpToBracket(rest);
      if StartsWith(rest, tag + DATE_MARK) && IsDate(RStrip(rest[|tag + DATE_MARK|..])) then Some(tag) else None
  }

  function Header(tag: string, date: string): string {
    HEADING + tag + DATE_MARK + date
  }

  lemma {:induction false} UpToBracketOf(tag: string, tail: string)
    requires ']' !in tag && tail != "" && tail[0] == ']'
    ensures UpToBracket(tag + tail) == tag
  {
    if tag == "" {
      assert tag + tail == tail;
    } else {
      assert (tag + tail)[0] == tag[0] && (tag + tail)[1..] == tag[1..] + tail;
      assert tag[0] in tag && forall c :: c in tag[1..] ==> c in tag;
      UpToBracketOf(tag[1..], tail);
    }
  }

  lemma SolidDate(date: string)
    requires IsDate(date)
    ensures RStrip(date) == date
  {
    assert IsDigit(date[9]) && !IsSpace(date[9]);
  }

  /** A written header reads back as its tag. */
  lemma HeaderRoundTrip(tag: string, date: string)
    requires ']' !in tag && IsDate(date)
    ensures HeaderTag(Header(tag, date)) == Some(tag)
    ensures IsHeading(Header(tag, date))
    ensures RStrip(Header(tag, date)) == Header(tag, date)
  {
    var line := Header(tag, date);
    assert line[..4] == HEADING;
    var rest := line[4..];
    assert rest == tag + (DATE_MARK + date);
    UpToBracketOf(tag, DATE_MARK + date);
    assert rest[..|tag + DATE_MARK|] == tag + DATE_MARK;
    assert rest[|tag + DATE_MARK|..] == date;
    SolidDate(date);
    assert line[|line| - 1] == date[9] && IsDigit(date[9]);
  }

  lemma {:induction false} RStripKeepsStart(s: string, prefix: string)
    requires prefix != "" && !IsSpace(prefix[|prefix| - 1])
    ensures StartsWith(RStrip(s), prefix) <==> StartsWith(s, prefix)
  {
    if s != "" && IsSpace(s[|s| - 1]) {
      RStripKeepsStart(s[..|s| - 1], prefix);
      if StartsWith(s, prefix) {
        assert s[..|prefix|][|prefix| - 1] == s[|prefix| - 1];
        assert s[..|s| - 1][..|prefix|] == s[..|prefix|];
      }
    }
  }

  // ------------------------------------------------------------ reading one section

  datatype Reader = Searching | Reading(body: seq<string>) | Finished(body: seq<string>)

  /** One turn of the loop of `extract_section` and of `extract_release_notes`. */
  function ReadLine(r: Reader, line: string, tag: string): Reader {
    match r
    case Searching => if HeaderTag(line) == Some(tag) then Reading([]) else Searching
    case Reading(body) => if IsHeading(line) then Finished(body) else Reading(body + [line])
    case Finished(_) => r
  }

  function ReadFrom(r: Reader, lines: seq<string>, tag: string): Reader {
    if lines == [] then r else ReadLine(ReadFrom(r, lines[..|lines| - 1], tag), lines[|lines| - 1], tag)
  }

  function BodyOf(r: Reader): seq<string> {
    if r.Searching? then [] else r.body
  }

  /** The section of `tag`, stripped; empty when there is none. */
  function Section(lines: seq<string>, tag: string): seq<string> {
    StripText(BodyOf(ReadFrom(Searching, lines, tag)))
  }

  lemma {:induction false} FinishedStays(r: Reader, lines: seq<string>, tag: string)
    requires r.Finished?
    ensures ReadFrom(r, lines, tag) == r
  {
    if lines != [] {
      FinishedStays(r, lines[..|lines| - 1], tag);
    }
  }

  lemma {:induction false} ReadConcat(r: Reader, a: seq<string>, b: seq<string>, tag: string)
    ensures ReadFrom(r, a + b, tag) == ReadFrom(ReadFrom(r, a, tag), b, tag)
    decreases |b|
  {
    if b == [] {
      assert a + b == a;
    } else {
      var front, last := b[..|b| - 1], b[|b| - 1];
      assert (a + b)[..|a + b| - 1] == a + front && (a + b)[|a + b| - 1] == last;
      ReadConcat(r, a, front, tag);
    }
  }

  /** `extract_section`: a flag and a body, stopping at the next heading */
  method ExtractSection(lines: seq<string>, tag: string) returns (section: seq<string>)
    ensures section == Section(lines, tag)
  {
    var found := false;
    var body: seq<string> := [];
    for n := 0 to |lines|
      invariant ReadFrom(Searching, lines[..n], tag) == if found then Reading(body) else Searching
      invariant !found ==> body == []
    {
      var line := lines[n];
      assert lines[..n + 1][..n] == lines[..n];
      if !found {
        found := HeaderTag(line) == Some(tag);
        continue;
      }
      if IsHeading(line) {
        assert lines == lines[..n + 1] + lines[n + 1..];
        ReadConcat(Searching, lines[..n + 1], lines[n + 1..], tag);
        FinishedStays(Finished(body), lines[n + 1..], tag);
        return StripText(body);
      }
      body := body + [line];
    }
    assert lines[..|lines|] == lines;
    section := if found then StripText(body) else [];
    assert StripText([]) == [];
  }

  /** `extract_release_notes`: the same walk; `None` stands for the empty text, any other
      result ends in a newline */
  method ExtractReleaseNotes(lines: seq<string>, tag: string) returns (notes: Option<seq<string>>)
    ensures notes == if Section(lines, tag) == [] then None else Some(Section(lines, tag))
  {
    var found := false;
    var body: seq<string> := [];
    var n := 0;
    while n < |lines| && !(found && IsHeading(lines[n]))
      invariant 0 <= n <= |lines|
      invariant ReadFrom(Searching, lines[..n], tag) == if found then Reading(body) else Searching
      invariant !found ==> body == []
    {
      var line := lines[n];
      assert lines[..n + 1][..n] == lines[..n];
      if !found {
        found := HeaderTag(line) == Some(tag);
      } else {
        body := body + [line];
      }
      n := n + 1;
    }
    if n < |lines| {
      assert lines[..n + 1][..n] == lines[..n];
      assert lines == lines[..n + 1] + lines[n + 1..];
      ReadConcat(Searching, lines[..n + 1], lines[n + 1..], tag);
      FinishedStays(Finished(body), lines[n + 1..], tag);
    } else {
      assert lines[..n] == lines;
    }
    assert StripText([]) == [];
    var text := StripText(body);
    notes := if text == [] then None else Some(text);
  }
}
