// Landing reviewed release sections in the changelog.
module Backfill {
  import opened Common
  import opened Markers
  import opened Versions
  import opened Changelog

  const UNRELEASED := "## [Unreleased]"

  /** A reviewed section: its tag, its date and the lines of its body. */
  datatype Reviewed = Reviewed(tag: string, date: string, body: seq<string>)

  predicate IsV02Tag(tag: string) {
    StartsWith(tag, "v0.2.") && IsDigits(tag[5..])
  }

  predicate IsV02Header(line: string) {
    HeaderTag(line).Some? && IsV02Tag(HeaderTag(line).value)
  }

  /** One rendered section after `strip().splitlines()` */
  function SectionLines(s: Reviewed): seq<string> {
    RStripText([Header(s.tag, s.date), ""] + StripText(s.body))
  }

  function Landed(sections: seq<Reviewed>): seq<string> {
    if sections == [] then [] else SectionLines(sections[0]) + [""] + Landed(sections[1..])
  }

  function UnreleasedLines(body: seq<string>): seq<string> {
    (if body == [] then [UNRELEASED] else [UNRELEASED, ""] + body) + [""]
  }

  /** `lines.index(line)` */
  function IndexOf(lines: seq<string>, line: string): (i: Option<nat>)
    ensures i.Some? ==> i.value < |lines| && lines[i.value] == line && line !in lines[..i.value]
    ensures i.None? ==> line !in lines
  {
    if lines == [] then None
    else if lines[0] == line then Some(0)
    else
      var rest := IndexOf(lines[1..], line);
      if rest.None? then None
      else
        assert lines[..rest.value + 1] == [lines[0]] + lines[1..][..rest.value];
        Some(rest.value + 1)
  }

  /** The first heading at or after `from`, or the end. */
  function NextHeading(lines: seq<string>, from: nat): (n: nat)
    requires from <= |lines|
    ensures from <= n <= |lines|
    ensures n < |lines| ==> IsHeading(lines[n])
    ensures forall k :: from <= k < n ==> !IsHeading(lines[k])
    decreases |lines| - from
  {
    if from == |lines| || IsHeading(lines[from]) then from else NextHeading(lines, from + 1)
  }

  predicate HasV02Header(lines: seq<string>) {
    exists line :: line in lines && IsV02Header(line)
  }

  /** The changelog after a backfill, or nothing when it is refused. */
  function Backfilled(lines: seq<string>, unreleased: seq<string>, sections: seq<Reviewed>): Option<seq<string>> {
    var u := IndexOf(lines, UNRELEASED);
    if u.None? || HasV02Header(lines) then None
    else
      var next := NextHeading(lines, u.value + 1);
      Some(RStripText(lines[..u.value] + UnreleasedLines(unreleased) + Landed(sections) + lines[next..]))
  }

  lemma {:induction false} LandedSnoc(sections: seq<Reviewed>, s: Reviewed)
    ensures Landed(sections + [s]) == Landed(sections) + (SectionLines(s) + [""])
  {
    if sections == [] {
      assert [] + [s] == [s] && [s][1..] == [];
      assert Landed([s]) == SectionLines(s) + [""] + [];
    } else {
      assert (sections + [s])[0] == sections[0] && (sections + [s])[1..] == sections[1..] + [s];
      LandedSnoc(sections[1..], s);
    }
  }

  /** `apply_backfill`: a search for the next heading and a loop that extends the section lines */
  method ApplyBackfill(lines: seq<string>, unreleased: seq<string>, sections: seq<Reviewed>)
    returns (result: Option<seq<string>>)
    ensures result == Backfilled(lines, unreleased, sections)
  {
    var u := IndexOf(lines, UNRELEASED);
    if u.None? {
      return None;
    }
    var next := u.value + 1;
    while next < |lines| && !IsHeading(lines[next])
      invariant u.value + 1 <= next <= |lines|
      invariant NextHeading(lines, next) == NextHeading(lines, u.value + 1)
    {
      next := next + 1;
    }
    if exists line :: line in lines && IsV02Header(line) {
      return None;
    }
    var sectionLines: seq<string> := [];
    for k := 0 to |sections|
      invariant sectionLines == Landed(sections[..k])
    {
      assert sections[..k + 1] == sections[..k] + [sections[k]];
      LandedSnoc(sections[..k], sections[k]);
      sectionLines := sectionLines + SectionLines(sections[k]);
      sectionLines := sectionLines + [""];
    }
    assert sections[..|sections|] == sections;
    result := Some(RStripText(lines[..u.value] + UnreleasedLines(unreleased) + sectionLines + lines[next..]));
  }

  // ------------------------------------------------------------ what is preserved

  predicate NoHeadings(lines: seq<string>) {
    forall line :: line in lines ==> !IsHeading(line)
  }

  /** Reviewed material of the promised shape: distinct v0.2 tags, real dates, no heading inside
      a body. */
  predicate Reviewable(sections: seq<Reviewed>) {
    && (forall s :: s in sections ==> IsV02Tag(s.tag) && IsDate(s.date) && NoHeadings(StripText(s.body)))
    && forall i, j :: 0 <= i < j < |sections| ==> sections[i].tag != sections[j].tag
  }

  lemma UnreleasedIsHeading()
    ensures IsHeading(UNRELEASED) && HeaderTag(UNRELEASED).None?
    ensures RStrip(UNRELEASED) == UNRELEASED
  {
    assert UNRELEASED[..4] == HEADING;
    var rest := UNRELEASED[4..];
    assert rest == "Unreleased" + "]";
    UpToBracketOf("Unreleased", "]");
    assert |rest| == 11 && |"Unreleased" + DATE_MARK| == 14;
    assert !IsSpace(UNRELEASED[|UNRELEASED| - 1]);
  }

  lemma V02TagHasNoBracket(tag: string)
    requires IsV02Tag(tag)
    ensures ']' !in tag
  {
    assert tag == tag[..5] + tag[5..];
    assert forall c :: c in tag[5..] ==> IsDigit(c);
    assert ']' !in "v0.2.";
  }

  lemma {:induction false} HeaderAlone(header: string)
    requires header != "" && RStrip(header) == header
    ensures RStripText([header, ""]) == [header]
  {
    assert [header, ""] == [header] + [""] && [] + [header] == [header];
    RStripTextSnoc([header], "");
    RStripTextSnoc([], header);
  }

  lemma {:induction false} RenderedShape(header: string, body: seq<string>)
    requires header != "" && RStrip(header) == header && RStripText(body) == body
    ensures RStripText([header, ""] + body) + [""] == [header] + (if body == [] then [""] else [""] + body + [""])
  {
    RStripTextConcat([header, ""], body);
    if body == [] {
      HeaderAlone(header);
    } else {
      RenderedWithBody(header, body);
    }
  }

  lemma RenderedWithBody(header: string, body: seq<string>)
    ensures [header, ""] + body + [""] == [header] + ([""] + body + [""])
  {
  }

  /** The rendered section: its header, and below it a body that strips to the reviewed one. */
  lemma {:induction false} SectionShape(s: Reviewed)
    requires IsDate(s.date) && IsV02Tag(s.tag)
    ensures var body := StripText(s.body);
            SectionLines(s) + [""] ==
            [Header(s.tag, s.date)] + (if body == [] then [""] else [""] + body + [""])
  {
    V02TagHasNoBracket(s.tag);
    HeaderRoundTrip(s.tag, s.date);
    StrippedStaysStripped(s.body);
    RenderedShape(Header(s.tag, s.date), StripText(s.body));
  }

  lemma {:induction false} StripAfterMiddle(pre: seq<string>, middle: seq<string>, post: seq<string>)
    requires RStripText(middle) != []
    ensures RStripText(pre + (middle + post)) ==
            pre + (if RStripText(post) == [] then RStripText(middle) else middle + RStripText(post))
  {
    RStripTextConcat(pre, middle + post);
    RStripTextConcat(middle, post);
  }

  lemma {:induction false} UnreleasedNotBlank(unreleased: seq<string>, landed: seq<string>)
    ensures RStripText(UnreleasedLines(unreleased) + landed) != []
  {
    UnreleasedIsHeading();
    assert (UnreleasedLines(unreleased) + landed)[0] == UNRELEASED;
    SolidLineSurvives(UnreleasedLines(unreleased) + landed, UNRELEASED);
  }

  /** Everything before the Unreleased block stays, everything after it stays up to white space
      at the very end. */
  lemma {:induction false} OutsidePreserved(lines: seq<string>, unreleased: seq<string>, sections: seq<Reviewed>)
    requires Backfilled(lines, unreleased, sections).Some?
    ensures var u := IndexOf(lines, UNRELEASED).value;
            var next := NextHeading(lines, u + 1);
            var after := Backfilled(lines, unreleased, sections).value;
            var middle := UnreleasedLines(unreleased) + Landed(sections);
            after == lines[..u] + (if RStripText(lines[next..]) == [] then RStripText(middle)
                                   else middle + RStripText(lines[next..]))
  {
    var u := IndexOf(lines, UNRELEASED).value;
    var next := NextHeading(lines, u + 1);
    var middle := UnreleasedLines(unreleased) + Landed(sections);
    var pre, post := lines[..u], lines[next..];
    assert pre + UnreleasedLines(unreleased) + Landed(sections) + post == pre + (middle + post);
    UnreleasedNotBlank(unreleased, Landed(sections));
    StripAfterMiddle(pre, middle, post);
  }

  // ------------------------------------------------------------ reading the sections back

  lemma {:induction false} SearchSkips(lines: seq<string>, tag: string)
    requires forall line :: line in lines ==> HeaderTag(line) != Some(tag)
    ensures ReadFrom(Searching, lines, tag) == Searching
  {
    if lines != [] {
      var front := lines[..|lines| - 1];
      assert forall line :: line in front ==> line in lines;
      SearchSkips(front, tag);
      assert lines[|lines| - 1] in lines;
    }
  }

  lemma {:induction false} ReadingCollects(body: seq<string>, lines: seq<string>, tag: string)
    requires NoHeadings(lines)
    ensures ReadFrom(Reading(body), lines, tag) == Reading(body + lines)
  {
    if lines == [] {
      assert body + lines == body;
    } else {
      var front := lines[..|lines| - 1];
      assert forall line :: line in front ==> line in lines;
      ReadingCollects(body, front, tag);
      assert lines[|lines| - 1] in lines;
      assert body + lines == body + front + [lines[|lines| - 1]];
    }
  }

  lemma ReadOne(r: Reader, line: string, tag: string)
    ensures ReadFrom(r, [line], tag) == ReadLine(r, line, tag)
  {
    assert [line][..0] == [];
  }

  lemma ReadCons(r: Reader, line: string, rest: seq<string>, tag: string)
    ensures ReadFrom(r, [line] + rest, tag) == ReadFrom(ReadLine(r, line, tag), rest, tag)
  {
    ReadOne(r, line, tag);
    ReadConcat(r, [line], rest, tag);
  }

  /** Reading past a body stops at the next heading, if there is one. */
  lemma ReadingStops(lines: seq<string>, rest: seq<string>, tag: string)
    requires NoHeadings(lines) && (rest != [] ==> IsHeading(rest[0]))
    ensures BodyOf(ReadFrom(Reading([]), lines + rest, tag)) == lines
  {
    ReadConcat(Reading([]), lines, rest, tag);
    ReadingCollects([], lines, tag);
    assert [] + lines == lines;
    if rest != [] {
      assert rest == [rest[0]] + rest[1..];
      ReadCons(Reading(lines), rest[0], rest[1..], tag);
      FinishedStays(Finished(lines), rest[1..], tag);
    }
  }

  /** A section that starts with its header and is followed by a heading or the end. */
  lemma SectionFound(before: seq<string>, s: Reviewed, rest: seq<string>)
    requires forall line :: line in before ==> HeaderTag(line) != Some(s.tag)
    requires IsV02Tag(s.tag) && IsDate(s.date) && NoHeadings(StripText(s.body))
    requires rest != [] ==> IsHeading(rest[0])
    ensures Section(before + (SectionLines(s) + [""]) + rest, s.tag) == StripText(s.body)
  {
    var header, body := Header(s.tag, s.date), StripText(s.body);
    var below := if body == [] then [""] else [""] + body + [""];
    SectionShape(s);
    V02TagHasNoBracket(s.tag);
    HeaderRoundTrip(s.tag, s.date);
    assert before + (SectionLines(s) + [""]) + rest == before + ([header] + (below + rest));
    SearchSkips(before, s.tag);
    ReadConcat(Searching, before, [header] + (below + rest), s.tag);
    ReadCons(Searching, header, below + rest, s.tag);
    assert NoHeadings(below) by {
      assert forall line :: line in below ==> line == "" || line in body;
    }
    ReadingStops(below, rest, s.tag);
    StripOfPadded(s.body);
  }

  lemma LandedStartsWithHeading(sections: seq<Reviewed>)
    requires sections != [] && Reviewable(sections)
    ensures Landed(sections) != [] && IsHeading(Landed(sections)[0])
  {
    assert sections[0] in sections;
    SectionShape(sections[0]);
    V02TagHasNoBracket(sections[0].tag);
    HeaderRoundTrip(sections[0].tag, sections[0].date);
    assert Landed(sections)[0] == (SectionLines(sections[0]) + [""])[0];
  }

  lemma SectionHoldsNoOtherHeader(s: Reviewed, tag: string)
    requires IsV02Tag(s.tag) && IsDate(s.date) && NoHeadings(StripText(s.body)) && s.tag != tag
    ensures forall line :: line in SectionLines(s) + [""] ==> HeaderTag(line) != Some(tag)
  {
    SectionShape(s);
    V02TagHasNoBracket(s.tag);
    HeaderRoundTrip(s.tag, s.date);
    var body := StripText(s.body);
    assert forall line :: line in SectionLines(s) + [""] ==> line == Header(s.tag, s.date) || line == "" || line in body;
  }

  lemma ReviewableTail(sections: seq<Reviewed>)
    requires Reviewable(sections) && sections != []
    ensures Reviewable(sections[1..])
    ensures sections[0] in sections
  {
    assert forall s :: s in sections[1..] ==> s in sections;
  }

  lemma {:induction false} FirstSectionFound(before: seq<string>, sections: seq<Reviewed>, rest: seq<string>)
    requires Reviewable(sections) && sections != []
    requires forall line :: line in before ==> HeaderTag(line) != Some(sections[0].tag)
    requires rest != [] ==> IsHeading(rest[0])
    ensures Section(before + Landed(sections) + rest, sections[0].tag) == StripText(sections[0].body)
  {
    var first, others := sections[0], sections[1..];
    var tail := Landed(others) + rest;
    ReviewableTail(sections);
    if others != [] {
      LandedStartsWithHeading(others);
    }
    assert before + Landed(sections) + rest == before + (SectionLines(first) + [""]) + tail;
    SectionFound(before, first, tail);
  }

  lemma {:induction false} LandedAfter(before: seq<string>, sections: seq<Reviewed>, rest: seq<string>)
    requires sections != []
    ensures before + Landed(sections) + rest ==
            before + (SectionLines(sections[0]) + [""]) + Landed(sections[1..]) + rest
  {
  }

  /** Among landed sections each is found under its tag. */
  lemma {:induction false} LandedSectionFound(before: seq<string>, sections: seq<Reviewed>, rest: seq<string>, k: nat)
    requires Reviewable(sections) && k < |sections|
    requires forall line :: line in before ==> HeaderTag(line) != Some(sections[k].tag)
    requires rest != [] ==> IsHeading(rest[0])
    ensures Section(before + Landed(sections) + rest, sections[k].tag) == StripText(sections[k].body)
    decreases k
  {
    ReviewableTail(sections);
    if k == 0 {
      FirstSectionFound(before, sections, rest);
    } else {
      var lines, others := SectionLines(sections[0]) + [""], sections[1..];
      SectionHoldsNoOtherHeader(sections[0], sections[k].tag);
      assert forall line :: line in before + lines ==> line in before || line in lines;
      LandedSectionFound(before + lines, others, rest, k - 1);
      LandedAfter(before, sections, rest);
    }
  }

  // ------------------------------------------------------------ white space at the end

  lemma {:induction false} BlankLineAddsNothing(front: seq<string>, last: string, tag: string)
    requires RStrip(last) == ""
    ensures Section(front + [last], tag) == Section(front, tag)
  {
    RStripKeepsStart(last, HEADING);
    ReadSnoc(Searching, front, last, tag);
    var r := ReadFrom(Searching, front, tag);
    if r.Reading? {
      RStripTextSnoc(r.body, last);
    }
  }

  lemma {:induction false} StripIgnoresLastSpace(body: seq<string>, last: string)
    ensures StripText(body + [last]) == StripText(body + [RStrip(last)])
  {
    RStripIdempotent(last);
    RStripTextSnoc(body, last);
    RStripTextSnoc(body, RStrip(last));
  }

  lemma {:induction false} ReadSnoc(r: Reader, front: seq<string>, last: string, tag: string)
    ensures ReadFrom(r, front + [last], tag) == ReadLine(ReadFrom(r, front, tag), last, tag)
  {
    assert (front + [last])[..|front|] == front;
  }

  lemma {:induction false} LastLineStripped(front: seq<string>, last: string, tag: string)
    ensures Section(front + [last], tag) == Section(front + [RStrip(last)], tag)
  {
    RStripKeepsStart(last, HEADING);
    ReadSnoc(Searching, front, last, tag);
    ReadSnoc(Searching, front, RStrip(last), tag);
    var r := ReadFrom(Searching, front, tag);
    if r.Reading? {
      StripIgnoresLastSpace(r.body, last);
    }
  }

  /** No section depends on white space at the end of the changelog. */
  lemma {:induction false} SectionIgnoresTrailingSpace(lines: seq<string>, tag: string)
    ensures Section(RStripText(lines), tag) == Section(lines, tag)
  {
    if lines != [] {
      var front, last := lines[..|lines| - 1], lines[|lines| - 1];
      assert lines == front + [last];
      if RStrip(last) == "" {
        SectionIgnoresTrailingSpace(front, tag);
        BlankLineAddsNothing(front, last, tag);
      } else {
        LastLineStripped(front, last, tag);
      }
    }
  }

  // ------------------------------------------------------------ the laws of the backfill

  /** Some line is the header of `tag`. */
  predicate HoldsHeader(lines: seq<string>, tag: string) {
    exists line :: line in lines && HeaderTag(line) == Some(tag)
  }

  lemma UnreleasedHoldsNoHeader(unreleased: seq<string>, tag: string)
    requires !HoldsHeader(unreleased, tag)
    ensures forall line :: line in UnreleasedLines(unreleased) ==> HeaderTag(line) != Some(tag)
  {
    UnreleasedIsHeading();
    assert forall line :: line in UnreleasedLines(unreleased) ==> line == UNRELEASED || line == "" || line in unreleased;
  }

  lemma {:induction false} FoundAfterStrip(before: seq<string>, sections: seq<Reviewed>, rest: seq<string>, k: nat)
    requires Reviewable(sections) && k < |sections|
    requires forall line :: line in before ==> HeaderTag(line) != Some(sections[k].tag)
    requires rest != [] ==> IsHeading(rest[0])
    ensures Section(RStripText(before + Landed(sections) + rest), sections[k].tag) == StripText(sections[k].body)
  {
    LandedSectionFound(before, sections, rest, k);
    SectionIgnoresTrailingSpace(before + Landed(sections) + rest, sections[k].tag);
  }

  lemma ReviewedTag(sections: seq<Reviewed>, k: nat)
    requires Reviewable(sections) && k < |sections|
    ensures IsV02Tag(sections[k].tag)
  {
    assert sections[k] in sections;
  }

  lemma NoHeaderBefore(lines: seq<string>, u: nat, unreleased: seq<string>, tag: string)
    requires u <= |lines| && !HasV02Header(lines) && IsV02Tag(tag) && !HoldsHeader(unreleased, tag)
    ensures forall line :: line in lines[..u] + UnreleasedLines(unreleased) ==> HeaderTag(line) != Some(tag)
  {
    UnreleasedHoldsNoHeader(unreleased, tag);
    forall line | line in lines[..u] + UnreleasedLines(unreleased) ensures HeaderTag(line) != Some(tag) {
      assert line in lines || line in UnreleasedLines(unreleased);
    }
  }

  /** Applying the backfill and extracting a section gives back the reviewed body, for every
      landed tag that has no header in the Unreleased body. */
  lemma {:induction false} BackfillRoundTrip(lines: seq<string>, unreleased: seq<string>, sections: seq<Reviewed>, k: nat)
    requires Reviewable(sections) && k < |sections| && !HoldsHeader(unreleased, sections[k].tag)
    requires Backfilled(lines, unreleased, sections).Some?
    ensures Section(Backfilled(lines, unreleased, sections).value, sections[k].tag) == StripText(sections[k].body)
  {
    var u := IndexOf(lines, UNRELEASED).value;
    var rest := lines[NextHeading(lines, u + 1)..];
    ReviewedTag(sections, k);
    NoHeaderBefore(lines, u, unreleased, sections[k].tag);
    FoundAfterStrip(lines[..u] + UnreleasedLines(unreleased), sections, rest, k);
  }

  lemma FirstHeaderLanded(sections: seq<Reviewed>)
    requires sections != [] && Reviewable(sections)
    ensures Header(sections[0].tag, sections[0].date) in Landed(sections)
  {
    ReviewableTail(sections);
    SectionShape(sections[0]);
    assert Landed(sections)[0] == (SectionLines(sections[0]) + [""])[0];
  }

  /** A changelog that received a backfill refuses every further one. */
  lemma {:induction false} SecondBackfillRefused(lines: seq<string>, unreleased: seq<string>, sections: seq<Reviewed>,
                              unreleased': seq<string>, sections': seq<Reviewed>)
    requires sections != [] && Reviewable(sections) && Backfilled(lines, unreleased, sections).Some?
    ensures Backfilled(Backfilled(lines, unreleased, sections).value, unreleased', sections').None?
  {
    var u := IndexOf(lines, UNRELEASED).value;
    var rest := lines[NextHeading(lines, u + 1)..];
    ReviewableTail(sections);
    FirstHeaderLanded(sections);
    LandedHeaderSurvives(sections[0], lines[..u] + UnreleasedLines(unreleased), Landed(sections), rest);
  }

  lemma {:induction false} LandedHeaderSurvives(s: Reviewed, before: seq<string>, landed: seq<string>, rest: seq<string>)
    requires IsV02Tag(s.tag) && IsDate(s.date) && Header(s.tag, s.date) in landed
    ensures HasV02Header(RStripText(before + landed + rest))
  {
    var header := Header(s.tag, s.date);
    V02TagHasNoBracket(s.tag);
    HeaderRoundTrip(s.tag, s.date);
    assert header in before + landed + rest;
    SolidLineSurvives(before + landed + rest, header);
    assert IsV02Header(header);
  }

  lemma OldLinesHoldNoHeader(lines: seq<string>, u: nat, tag: string)
    requires u <= |lines| && !HasV02Header(lines) && IsV02Tag(tag)
    ensures forall line :: line in lines[..u] + [UNRELEASED, ""] ==> HeaderTag(line) != Some(tag)
  {
    UnreleasedIsHeading();
    forall line | line in lines[..u] + [UNRELEASED, ""] ensures HeaderTag(line) != Some(tag) {
      assert line in lines || line == UNRELEASED || line == "";
    }
  }

  lemma {:induction false} SearchFinds(lines: seq<string>, tag: string)
    requires HoldsHeader(lines, tag)
    ensures !ReadFrom(Searching, lines, tag).Searching?
  {
    var front, last := lines[..|lines| - 1], lines[|lines| - 1];
    assert lines == front + [last];
    if HeaderTag(last) != Some(tag) {
      var line :| line in lines && HeaderTag(line) == Some(tag);
      assert line in front;
      SearchFinds(front, tag);
    }
  }

  /** Lines without the header, placed in front, do not change the section. */
  lemma {:induction false} FrontSkipped(before: seq<string>, lines: seq<string>, tag: string)
    requires forall line :: line in before ==> HeaderTag(line) != Some(tag)
    ensures ReadFrom(Searching, before + lines, tag) == ReadFrom(Searching, lines, tag)
  {
    SearchSkips(before, tag);
    ReadConcat(Searching, before, lines, tag);
  }

  /** A section once found is not changed by anything that starts with a heading. */
  lemma {:induction false} HeadingCloses(lines: seq<string>, tail: seq<string>, tag: string)
    requires HoldsHeader(lines, tag) && tail != [] && IsHeading(tail[0])
    ensures Section(lines + tail, tag) == Section(lines, tag)
  {
    var r := ReadFrom(Searching, lines, tag);
    SearchFinds(lines, tag);
    ReadConcat(Searching, lines, tail, tag);
    assert tail == [tail[0]] + tail[1..];
    ReadCons(r, tail[0], tail[1..], tag);
    FinishedStays(Finished(r.body), tail[1..], tag);
  }

  lemma {:induction false} ShadowedSection(before: seq<string>, unreleased: seq<string>, tail: seq<string>, tag: string)
    requires forall line :: line in before ==> HeaderTag(line) != Some(tag)
    requires HoldsHeader(unreleased, tag) && tail != [] && IsHeading(tail[0])
    ensures Section(before + unreleased + [""] + tail, tag) == Section(unreleased, tag)
  {
    var whole := before + unreleased + [""];
    var line :| line in unreleased && HeaderTag(line) == Some(tag);
    assert line in whole;
    HeadingCloses(whole, tail, tag);
    BlankLineAddsNothing(before + unreleased, "", tag);
    FrontSkipped(before, unreleased, tag);
  }

  lemma Regroup(pre: seq<string>, unreleased: seq<string>, landed: seq<string>, rest: seq<string>)
    requires unreleased != []
    ensures pre + UnreleasedLines(unreleased) + landed + rest ==
            pre + [UNRELEASED, ""] + unreleased + [""] + (landed + rest)
  {
  }

  /** The condition on the Unreleased body is needed: a header of the tag in it shadows the
      landed section, and what is extracted is what the Unreleased body holds under it. */
  lemma UnreleasedHeaderShadows(lines: seq<string>, unreleased: seq<string>, sections: seq<Reviewed>, k: nat)
    requires Reviewable(sections) && k < |sections| && HoldsHeader(unreleased, sections[k].tag)
    requires Backfilled(lines, unreleased, sections).Some?
    ensures Section(Backfilled(lines, unreleased, sections).value, sections[k].tag) == Section(unreleased, sections[k].tag)
  {
    var tag := sections[k].tag;
    var u := IndexOf(lines, UNRELEASED).value;
    var rest := lines[NextHeading(lines, u + 1)..];
    var before, tail := lines[..u] + [UNRELEASED, ""], Landed(sections) + rest;
    assert sections[k] in sections;
    LandedStartsWithHeading(sections);
    OldLinesHoldNoHeader(lines, u, tag);
    ShadowedSection(before, unreleased, tail, tag);
    Regroup(lines[..u], unreleased, Landed(sections), rest);
    SectionIgnoresTrailingSpace(before + unreleased + [""] + tail, tag);
  }

  /** The round trip of a tag holds exactly when the Unreleased body has no header of that tag,
      or holds the very same body under it. */
  lemma RoundTripExactly(lines: seq<string>, unreleased: seq<string>, sections: seq<Reviewed>, k: nat)
    requires Reviewable(sections) && k < |sections| && Backfilled(lines, unreleased, sections).Some?
    ensures Section(Backfilled(lines, unreleased, sections).value, sections[k].tag) == StripText(sections[k].body) <==>
              (HoldsHeader(unreleased, sections[k].tag) ==>
                 Section(unreleased, sections[k].tag) == StripText(sections[k].body))
  {
    if HoldsHeader(unreleased, sections[k].tag) {
      UnreleasedHeaderShadows(lines, unreleased, sections, k);
    } else {
      BackfillRoundTrip(lines, unreleased, sections, k);
    }
  }

  // ------------------------------------------------------------ a changelog that loses a section

  const SAMPLE := Reviewed("v0.2.0", "2024-01-01", ["- fixed"])

  lemma SampleReviewable()
    ensures Reviewable([SAMPLE]) && StripText(SAMPLE.body) == ["- fixed"]
  {
    var body := SAMPLE.body;
    assert "v0.2.0"[..5] == "v0.2." && "v0.2.0"[5..] == "0" && IsDigit("0"[0]);
    assert !IsSpace("- fixed"[0]) && !IsSpace("- fixed"[6]);
    assert RStrip("- fixed") == "- fixed" && LStrip("- fixed") == "- fixed";
    assert RStripText(body) == [] + ["- fixed"];
    assert LStripText(body) == ["- fixed"] + [];
    assert !IsHeading("- fixed") by { assert "- fixed"[0] != HEADING[0]; }
  }

  const OLD_TEXT := "- planned"

  lemma OldTextIsPlain()
    ensures !IsHeading(OLD_TEXT) && StripText([OLD_TEXT]) == [OLD_TEXT] && OLD_TEXT != "- fixed"
  {
    var body := [OLD_TEXT];
    assert |OLD_TEXT| == 9 && |"- fixed"| == 7;
    assert !IsSpace(OLD_TEXT[0]) && !IsSpace(OLD_TEXT[8]);
    assert RStrip(OLD_TEXT) == OLD_TEXT && LStrip(OLD_TEXT) == OLD_TEXT;
    assert RStripText(body) == [] + [OLD_TEXT];
    assert LStripText(body) == [OLD_TEXT] + [];
    assert OLD_TEXT[0] != HEADING[0];
  }

  lemma OldSection(header: string, tag: string)
    requires HeaderTag(header) == Some(tag)
    ensures Section([header] + [OLD_TEXT], tag) == [OLD_TEXT]
  {
    OldTextIsPlain();
    ReadCons(Searching, header, [OLD_TEXT], tag);
    ReadOne(Reading([]), OLD_TEXT, tag);
    assert [] + [OLD_TEXT] == [OLD_TEXT];
  }

  /** An Unreleased body that already has text under the release's header: what is extracted after
      the backfill is that text and not the reviewed body. */
  lemma ShadowedRoundTripFails()
    ensures var unreleased := [Header(SAMPLE.tag, SAMPLE.date)] + [OLD_TEXT];
            var after := Backfilled([UNRELEASED], unreleased, [SAMPLE]);
            && after.Some?
            && Section(after.value, SAMPLE.tag) == [OLD_TEXT]
            && Section(after.value, SAMPLE.tag) != StripText(SAMPLE.body)
  {
    var header := Header(SAMPLE.tag, SAMPLE.date);
    var unreleased := [header] + [OLD_TEXT];
    SampleReviewable();
    OldTextIsPlain();
    UnreleasedIsHeading();
    assert IndexOf([UNRELEASED], UNRELEASED) == Some(0);
    assert SAMPLE in [SAMPLE];
    V02TagHasNoBracket(SAMPLE.tag);
    HeaderRoundTrip(SAMPLE.tag, SAMPLE.date);
    assert header in unreleased;
    UnreleasedHeaderShadows([UNRELEASED], unreleased, [SAMPLE], 0);
    OldSection(header, SAMPLE.tag);
  }
}
