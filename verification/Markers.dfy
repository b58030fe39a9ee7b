// Marker comments in the docs. A marker is a line that, stripped, is an HTML comment
// whose words spell the marker.
module Markers {
  import opened Common

  predicate AllSpace(s: string) {
    forall c :: c in s ==> IsSpace(c)
  }

  function LStrip(s: string): (r: string)
    ensures r == "" || !IsSpace(r[0])
  {
    if s == "" then "" else if IsSpace(s[0]) then LStrip(s[1..]) else s
  }

  function RStrip(s: string): (r: string)
    ensures r == "" || !IsSpace(r[|r| - 1])
    ensures |r| <= |s| && r == s[..|r|]
  {
    if s == "" then "" else if IsSpace(s[|s| - 1]) then RStrip(s[..|s| - 1]) else s
  }

  function Strip(s: string): string {
    RStrip(LStrip(s))
  }

  predicate IsBlank(s: string) {
    !NonBlank(s)
  }

  /** The words of `s`, separated by white space; `word` is the word being read. */
  function Words(s: string, word: string := ""): seq<string>
    decreases |s|
  {
    if s == "" then (if word == "" then [] else [word])
    else if IsSpace(s[0]) then (if word == "" then [] else [word]) + Words(s[1..], "")
    else Words(s[1..], word + [s[0]])
  }

  /** The words of the comment that a line consists of. */
  function CommentWords(line: string): Option<seq<string>> {
    var s := Strip(line);
    if |s| >= 7 && s[..4] == "<!--" && s[|s| - 3..] == "-->" then Some(Words(s[4..|s| - 3])) else None
  }

  datatype FreshnessMark = NoMark | StartMark | EndMark

  function FreshnessOf(line: string): FreshnessMark {
    var words := CommentWords(line);
    if words == Some(["m80:freshness-status", "start"]) then StartMark
    else if words == Some(["m80:freshness-status", "end"]) then EndMark
    else NoMark
  }

  datatype SnippetMark = NoSnippet | SnippetStart(name: string) | SnippetEnd(name: string)

  predicate IsSnippetName(s: string) {
    s != "" && forall i :: 0 <= i < |s| ==> 'a' <= s[i] <= 'z' || '0' <= s[i] <= '9' || s[i] == '-'
  }

  function SnippetOf(line: string): SnippetMark {
    var words := CommentWords(line);
    if words.None? || |words.value| != 3 then NoSnippet
    else
      var w := words.value;
      if w[0] != "m80:quickstart-snippet" || !IsSnippetName(w[1]) then NoSnippet
      else if w[2] == "start" then SnippetStart(w[1])
      else if w[2] == "end" then SnippetEnd(w[1])
      else NoSnippet
  }

  /** No line is both a freshness marker and a snippet marker. */
  lemma MarkersDisjoint(line: string)
    ensures FreshnessOf(line) == NoMark || SnippetOf(line) == NoSnippet
  {
    assert |["m80:freshness-status", "start"]| == 2 && |["m80:freshness-status", "end"]| == 2;
  }
}
