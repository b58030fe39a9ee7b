// The changelog text itself: what a release header looks like, what stripping leaves, and every
// line of a changelog after a backfill.
module ChangelogContent {
  import opened Common
  import opened Markers
  import opened Changelog
  import opened Backfill

  // ------------------------------------------------------------ stripping

  /** Stripping on the right takes off white space and nothing else. */
  lemma {:induction false} RStripExactly(s: string)
    ensures |RStrip(s)| <= |s| && s == RStrip(s) + s[|RStrip(s)|..] && AllSpace(s[|RStrip(s)|..])
    ensures RStrip(s) != "" ==> !IsSpace(RStrip(s)[|RStrip(s)| - 1])
  {
    if s != "" && IsSpace(s[|s| - 1]) {
      var front := s[..|s| - 1];
      RStripExactly(front);
      assert s[|RStrip(s)|..] == front[|RStrip(s)|..] + [s[|s| - 1]];
    }
  }

  /** So does stripping on the left. */
  lemma {:induction false} LStripExactly(s: string)
    ensures |LStrip(s)| <= |s| && s == s[..|s| - |LStrip(s)|] + LStrip(s) && AllSpace(s[..|s| - |LStrip(s)|])
    ensures LStrip(s) != "" ==> !IsSpace(LStrip(s)[0])
  {
    if s != "" && IsSpace(s[0]) {
      LStripExactly(s[1..]);
      var n := |s| - |LStrip(s)|;
      assert s[..n] == [s[0]] + s[1..][..n - 1];
    }
  }

  lemma StripsToNothing(s: string)
    ensures RStrip(s) == "" <==> AllSpace(s)
    ensures LStrip(s) == "" <==> AllSpace(s)
  {
    RStripExactly(s);
    LStripExactly(s);
    assert LStrip(s) != "" ==> s[|s| - |LStrip(s)|] == LStrip(s)[0];
  }

  predicate BlankLines(lines: seq<string>) {
    forall line :: line in lines ==> AllSpace(line)
  }

  lemma BlankLineMore(front: seq<string>, last: string, m: nat)
    requires m <= |front| && BlankLines(front[m..]) && AllSpace(last)
    ensures BlankLines((front + [last])[m..])
    ensures m > 0 ==> (front + [last])[..m - 1] == front[..m - 1] && (front + [last])[m - 1] == front[m - 1]
  {
    var tail := (front + [last])[m..];
    forall line | line in tail ensures AllSpace(line) {
      var i :| 0 <= i < |tail| && tail[i] == line;
      assert line == last || line == front[m..][i];
    }
  }

  /** Right-stripped text: blank lines at the end go, and white space at the end of the last line
      that stays. */
  lemma {:induction false} RStripTextExactly(lines: seq<string>) returns (n: nat)
    ensures n <= |lines| && BlankLines(lines[n..])
    ensures RStripText(lines) == if n == 0 then [] else lines[..n - 1] + [RStrip(lines[n - 1])]
    ensures n > 0 ==> !AllSpace(lines[n - 1])
  {
    n := |lines|;
    if lines != [] {
      var front, last := lines[..n - 1], lines[n - 1];
      StripsToNothing(last);
      if RStrip(last) == "" {
        var m := RStripTextExactly(front);
        BlankLineMore(front, last, m);
        assert lines == front + [last];
        n := m;
      }
    }
  }

  lemma {:induction false} LStripTextExactly(lines: seq<string>) returns (n: nat)
    ensures n <= |lines| && BlankLines(lines[..n])
    ensures LStripText(lines) == if n == |lines| then [] else [LStrip(lines[n])] + lines[n + 1..]
    ensures n < |lines| ==> !AllSpace(lines[n])
  {
    n := 0;
    if lines != [] {
      StripsToNothing(lines[0]);
      if LStrip(lines[0]) == "" {
        var m := LStripTextExactly(lines[1..]);
        assert lines[..m + 1] == [lines[0]] + lines[1..][..m];
        assert m < |lines[1..]| ==> lines[1..][m + 1..] == lines[m + 2..];
        n := m + 1;
      }
    }
  }

  // ------------------------------------------------------------ headers

  /** Four digits, two and two, with hyphens between. */
  predicate SpellsDate(date: string) {
    && |date| == 10 && date[4] == '-' && date[7] == '-'
    && forall c :: c in date[..4] + date[5..7] + date[8..] ==> '0' <= c <= '9'
  }

  lemma DateExactly(date: string)
    ensures IsDate(date) <==> SpellsDate(date)
  {
    if |date| == 10 {
      var digits := date[..4] + date[5..7] + date[8..];
      if IsDate(date) {
        forall c | c in digits ensures '0' <= c <= '9' {
          var i :| 0 <= i < |digits| && digits[i] == c;
          assert c == date[if i < 4 then i else if i < 6 then i + 1 else i + 2];
        }
      }
      if SpellsDate(date) {
        forall i | 0 <= i < 10 && i != 4 && i != 7 ensures IsDigit(date[i]) {
          var j := if i < 4 then i else if i < 7 then i - 1 else i - 2;
          assert date[i] == digits[j] && digits[j] in digits;
        }
      }
    }
  }

  /** `## [TAG] — YYYY-MM-DD`, with nothing but white space after it. */
  predicate SpellsHeader(line: string, tag: string, date: string, blank: string) {
    ']' !in tag && SpellsDate(date) && AllSpace(blank) && line == "## [" + tag + "] \U{2014} " + date + blank
  }

  /** A line is the header of a tag exactly when it spells one. */
  lemma HeaderExactly(line: string, tag: string)
    ensures HeaderTag(line) == Some(tag) <==> exists date, blank :: SpellsHeader(line, tag, date, blank)
  {
    if HeaderTag(line) == Some(tag) {
      var date, blank := HeaderParts(line, tag);
    }
    if date, blank :| SpellsHeader(line, tag, date, blank) {
      DateExactly(date);
      HeaderSpelled(tag, date, blank);
    }
  }

  lemma {:induction false} NoBracketBefore(s: string)
    ensures ']' !in UpToBracket(s)
  {
    if s != "" && s[0] != ']' {
      NoBracketBefore(s[1..]);
    }
  }

  lemma HeaderParts(line: string, tag: string) returns (date: string, blank: string)
    requires HeaderTag(line) == Some(tag)
    ensures SpellsHeader(line, tag, date, blank)
  {
    var rest := line[4..];
    var n := |tag + DATE_MARK|;
    var tail := rest[n..];
    NoBracketBefore(rest);
    RStripExactly(tail);
    date, blank := RStrip(tail), tail[|RStrip(tail)|..];
    DateExactly(date);
    assert line == "## [" + rest;
    assert rest == (tag + DATE_MARK) + tail by { assert rest[..n] == tag + DATE_MARK; }
    Reassociate(tag, date, blank);
  }

  lemma Reassociate(tag: string, date: string, blank: string)
    ensures "## [" + ((tag + DATE_MARK) + (date + blank)) == "## [" + tag + "] \U{2014} " + date + blank
  {
  }

  lemma {:induction false} RStripOff(s: string, blank: string)
    requires s != "" && !IsSpace(s[|s| - 1]) && AllSpace(blank)
    ensures RStrip(s + blank) == s
  {
    if blank == "" {
      assert s + blank == s;
    } else {
      var front := blank[..|blank| - 1];
      assert (s + blank)[..|s + blank| - 1] == s + front;
      RStripOff(s, front);
    }
  }

  lemma HeaderSpelled(tag: string, date: string, blank: string)
    requires ']' !in tag && IsDate(date) && AllSpace(blank)
    ensures HeaderTag("## [" + tag + "] \U{2014} " + date + blank) == Some(tag)
  {
    var line := "## [" + tag + "] \U{2014} " + date + blank;
    var rest := line[4..];
    var tail := DATE_MARK + date + blank;
    assert line[..4] == HEADING;
    assert rest == tag + tail;
    UpToBracketOf(tag, tail);
    assert rest[..|tag + DATE_MARK|] == tag + DATE_MARK;
    assert rest[|tag + DATE_MARK|..] == date + blank;
    assert IsDigit(date[9]);
    RStripOff(date, blank);
  }

  // ------------------------------------------------------------ the backfilled changelog

  /** One reviewed section as it is to appear. */
  function SectionText(s: Reviewed): seq<string> {
    ["## [" + s.tag + "] \U{2014} " + s.date, ""] + (if StripText(s.body) == [] then [] else StripText(s.body) + [""])
  }

  /** The sections one after the other, in the order given. */
  function SectionsText(sections: seq<Reviewed>): seq<string> {
    if sections == [] then [] else SectionText(sections[0]) + SectionsText(sections[1..])
  }

  function UnreleasedText(body: seq<string>): seq<string> {
    if body == [] then ["## [Unreleased]", ""] else ["## [Unreleased]", ""] + body + [""]
  }

  lemma SectionSpelled(s: Reviewed)
    requires IsV02Tag(s.tag) && IsDate(s.date)
    ensures SectionLines(s) + [""] == SectionText(s)
  {
    SectionShape(s);
    assert Header(s.tag, s.date) == "## [" + s.tag + "] \U{2014} " + s.date;
  }

  lemma {:induction false} LandedSpelled(sections: seq<Reviewed>)
    requires forall s :: s in sections ==> IsV02Tag(s.tag) && IsDate(s.date)
    ensures Landed(sections) == SectionsText(sections)
  {
    if sections != [] {
      assert sections[0] in sections;
      SectionSpelled(sections[0]);
      assert forall s :: s in sections[1..] ==> s in sections;
      LandedSpelled(sections[1..]);
    }
  }

  /** The backfill is refused exactly when there is no Unreleased heading, or when some line already
      is the header of a v0.2 release. */
  lemma RefusedExactly(lines: seq<string>, unreleased: seq<string>, sections: seq<Reviewed>)
    ensures Backfilled(lines, unreleased, sections).None? <==>
            || "## [Unreleased]" !in lines
            || exists line, tag :: line in lines && HeaderTag(line) == Some(tag) && IsV02Tag(tag)
  {
    if line :| line in lines && IsV02Header(line) {
      assert HeaderTag(line) == Some(HeaderTag(line).value) && IsV02Tag(HeaderTag(line).value);
    }
  }

  /** Every line of the changelog after a backfill: what was before the first Unreleased heading, the
      new Unreleased block, the reviewed sections in order, and everything from the next heading on,
      with the white space at the very end taken off. */
  lemma BackfilledSpelled(lines: seq<string>, unreleased: seq<string>, sections: seq<Reviewed>, u: nat, next: nat)
    requires forall s :: s in sections ==> IsV02Tag(s.tag) && IsDate(s.date)
    requires Backfilled(lines, unreleased, sections).Some?
    requires u < |lines| && lines[u] == "## [Unreleased]" && "## [Unreleased]" !in lines[..u]
    requires u < next <= |lines| && (next < |lines| ==> StartsWith(lines[next], "## ["))
    requires forall k :: u < k < next ==> !StartsWith(lines[k], "## [")
    ensures Backfilled(lines, unreleased, sections).value ==
            RStripText(lines[..u] + UnreleasedText(unreleased) + SectionsText(sections) + lines[next..])
  {
    LandedSpelled(sections);
    assert IndexOf(lines, UNRELEASED) == Some(u) by { IndexIs(lines, UNRELEASED, u); }
    NextIs(lines, u + 1, next);
    assert UnreleasedLines(unreleased) == UnreleasedText(unreleased);
  }

  lemma IndexIs(lines: seq<string>, line: string, u: nat)
    requires u < |lines| && lines[u] == line && line !in lines[..u]
    ensures IndexOf(lines, line) == Some(u)
  {
    var i := IndexOf(lines, line);
    assert line in lines;
    forall k | 0 <= k < u ensures lines[k] != line {
      assert lines[..u][k] == lines[k];
    }
    forall k | 0 <= k < i.value ensures lines[k] != line {
      assert lines[..i.value][k] == lines[k];
    }
  }

  lemma NextIs(lines: seq<string>, from: nat, next: nat)
    requires from <= next <= |lines| && (next < |lines| ==> IsHeading(lines[next]))
    requires forall k :: from <= k < next ==> !IsHeading(lines[k])
    ensures NextHeading(lines, from) == next
  {
  }
}
