// How markers are spelled: the exact texts of the lines that count as freshness and snippet markers.
module MarkerSpelling {
  import opened Common
  import opened Markers

  /** A word: not empty, without white space. */
  predicate IsWord(s: string) {
    s != "" && forall c :: c in s ==> !IsSpace(c)
  }

  predicate EndsWord(t: string) {
    t == "" || IsSpace(t[0])
  }

  lemma {:induction false} SkipSpaces(a: string, t: string)
    requires AllSpace(a)
    ensures Words(a + t) == Words(t)
  {
    if a == "" {
      assert a + t == t;
    } else {
      assert a[0] in a && (a + t)[0] == a[0] && (a + t)[1..] == a[1..] + t;
      assert forall c :: c in a[1..] ==> c in a;
      SkipSpaces(a[1..], t);
    }
  }

  lemma {:induction false} ReadWord(w: string, t: string, word: string)
    requires forall c :: c in w ==> !IsSpace(c)
    ensures Words(w + t, word) == Words(t, word + w)
    decreases |w|
  {
    if w == "" {
      assert w + t == t && word + w == word;
    } else {
      assert w[0] in w && (w + t)[0] == w[0] && (w + t)[1..] == w[1..] + t;
      assert forall c :: c in w[1..] ==> c in w;
      ReadWord(w[1..], t, word + [w[0]]);
      assert word + [w[0]] + w[1..] == word + w;
    }
  }

  /** A word and what follows it. */
  lemma {:induction false} WordThen(w: string, t: string)
    requires IsWord(w) && EndsWord(t)
    ensures Words(w + t) == [w] + Words(t)
  {
    ReadWord(w, t, "");
    assert "" + w == w;
    if t == "" {
      assert Words(t) == [] && Words(t, w) == [w];
    }
  }

  lemma {:induction false} TakeWord(s: string) returns (w: string, t: string)
    ensures s == w + t && EndsWord(t) && (forall c :: c in w ==> !IsSpace(c)) && (s != "" && !IsSpace(s[0]) ==> w != "")
  {
    if s == "" || IsSpace(s[0]) {
      w, t := "", s;
    } else {
      var w', t' := TakeWord(s[1..]);
      w, t := [s[0]] + w', t';
      assert s == [s[0]] + s[1..];
    }
  }

  /** Text with words starts with white space and its first word. */
  lemma {:induction false} FirstWord(s: string) returns (a: string, w: string, t: string)
    requires Words(s) != []
    ensures s == a + w + t && AllSpace(a) && IsWord(w) && EndsWord(t) && Words(s) == [w] + Words(t)
  {
    if IsSpace(s[0]) {
      var a', w', t' := FirstWord(s[1..]);
      a, w, t := [s[0]] + a', w', t';
      assert s == [s[0]] + s[1..];
    } else {
      a := "";
      w, t := TakeWord(s);
      WordThen(w, t);
    }
  }

  lemma {:induction false} NoWords(s: string)
    ensures Words(s) == [] <==> AllSpace(s)
  {
    if s != "" {
      if IsSpace(s[0]) {
        NoWords(s[1..]);
        assert s == [s[0]] + s[1..];
        assert forall c :: c in s <==> c == s[0] || c in s[1..];
      } else {
        var w, t := TakeWord(s);
        WordThen(w, t);
        assert s[0] in s;
      }
    }
  }

  /** `s` is two words with white space around them. */
  ghost predicate SpellsTwo(s: string, v: string, w: string) {
    exists a, b, c :: AllSpace(a) && AllSpace(b) && b != "" && AllSpace(c) && s == a + (v + (b + (w + c)))
  }

  lemma StartsBlank(b: string, t: string)
    requires AllSpace(b) && b != ""
    ensures EndsWord(b + t)
  {
    assert b[0] in b && (b + t)[0] == b[0];
  }

  lemma BlankEnds(c: string)
    requires AllSpace(c)
    ensures EndsWord(c)
  {
    assert c != "" ==> c[0] in c;
  }

  lemma FirstWordIs(s: string, v: string, rest: seq<string>) returns (a: string, t: string)
    requires Words(s) == [v] + rest
    ensures s == a + (v + t) && AllSpace(a) && EndsWord(t) && Words(t) == rest
  {
    var w: string;
    a, w, t := FirstWord(s);
    assert ([w] + Words(t))[0] == w && ([v] + rest)[0] == v;
    assert ([w] + Words(t))[1..] == Words(t) && ([v] + rest)[1..] == rest;
  }

  /** A word that follows a word is set off by white space. */
  lemma Spaced(b: string, w: string, c: string)
    requires AllSpace(b) && IsWord(w) && EndsWord(b + (w + c))
    ensures b != ""
  {
    assert w[0] in w && (w + c)[0] == w[0];
    assert "" + (w + c) == w + c;
  }

  lemma TwoWordsSpelled(s: string, v: string, w: string)
    requires IsWord(v) && IsWord(w) && Words(s) == [v, w]
    ensures SpellsTwo(s, v, w)
  {
    assert [v, w] == [v] + [w] && [w] == [w] + [];
    var a, t := FirstWordIs(s, v, [w]);
    var b, c := FirstWordIs(t, w, []);
    NoWords(c);
    Spaced(b, w, c);
  }

  lemma SpelledTwoWords(s: string, v: string, w: string)
    requires IsWord(v) && IsWord(w) && SpellsTwo(s, v, w)
    ensures Words(s) == [v, w]
  {
    var a, b, c :| AllSpace(a) && AllSpace(b) && b != "" && AllSpace(c) && s == a + (v + (b + (w + c)));
    SkipSpaces(a, v + (b + (w + c)));
    StartsBlank(b, w + c);
    WordThen(v, b + (w + c));
    SkipSpaces(b, w + c);
    BlankEnds(c);
    WordThen(w, c);
    NoWords(c);
    assert [v] + ([w] + []) == [v, w];
  }

  lemma TwoWords(s: string, v: string, w: string)
    requires IsWord(v) && IsWord(w)
    ensures Words(s) == [v, w] <==> SpellsTwo(s, v, w)
  {
    if Words(s) == [v, w] {
      TwoWordsSpelled(s, v, w);
    }
    if SpellsTwo(s, v, w) {
      SpelledTwoWords(s, v, w);
    }
  }

  /** The line is an HTML comment, with white space around it, whose text is `inner`. */
  predicate IsComment(line: string, inner: string) {
    Strip(line) == "<!--" + inner + "-->"
  }

  lemma CommentExactly(line: string, words: seq<string>)
    ensures CommentWords(line) == Some(words) <==> exists inner :: IsComment(line, inner) && Words(inner) == words
  {
    var s := Strip(line);
    if CommentWords(line) == Some(words) {
      var inner := s[4..|s| - 3];
      assert s == s[..4] + inner + s[|s| - 3..];
      assert IsComment(line, inner);
    }
    if inner :| IsComment(line, inner) && Words(inner) == words {
      assert s[..4] == "<!--" && s[|s| - 3..] == "-->" && s[4..|s| - 3] == inner;
    }
  }

  lemma MarkerWords()
    ensures IsWord("m80:freshness-status") && IsWord("m80:quickstart-snippet") && IsWord("start") && IsWord("end")
    ensures "start" != "end"
  {
    assert |"start"| == 5 && |"end"| == 3;
  }

  /** The freshness markers are exactly the comments that spell the marker's name and `start`, or
      the name and `end`. */
  lemma FreshnessExactly(line: string)
    ensures FreshnessOf(line) == StartMark <==>
              exists inner :: IsComment(line, inner) && SpellsTwo(inner, "m80:freshness-status", "start")
    ensures FreshnessOf(line) == EndMark <==>
              exists inner :: IsComment(line, inner) && SpellsTwo(inner, "m80:freshness-status", "end")
  {
    MarkerWords();
    CommentExactly(line, ["m80:freshness-status", "start"]);
    CommentExactly(line, ["m80:freshness-status", "end"]);
    assert ["m80:freshness-status", "start"][1] != ["m80:freshness-status", "end"][1];
    forall inner
      ensures Words(inner) == ["m80:freshness-status", "start"] <==> SpellsTwo(inner, "m80:freshness-status", "start")
      ensures Words(inner) == ["m80:freshness-status", "end"] <==> SpellsTwo(inner, "m80:freshness-status", "end")
    {
      TwoWords(inner, "m80:freshness-status", "start");
      TwoWords(inner, "m80:freshness-status", "end");
    }
  }

  /** `s` is three words with white space around them. */
  ghost predicate SpellsThree(s: string, u: string, v: string, w: string) {
    exists a, rest :: AllSpace(a) && s == a + (u + rest) && EndsWord(rest) && SpellsTwo(rest, v, w)
  }

  lemma ThreeWords(s: string, u: string, v: string, w: string)
    requires IsWord(u) && IsWord(v) && IsWord(w)
    ensures Words(s) == [u, v, w] <==> SpellsThree(s, u, v, w)
  {
    if Words(s) == [u, v, w] {
      assert [u, v, w] == [u] + [v, w];
      var a, rest := FirstWordIs(s, u, [v, w]);
      TwoWords(rest, v, w);
    }
    if SpellsThree(s, u, v, w) {
      var a, rest :| AllSpace(a) && s == a + (u + rest) && EndsWord(rest) && SpellsTwo(rest, v, w);
      SkipSpaces(a, u + rest);
      WordThen(u, rest);
      TwoWords(rest, v, w);
      assert [u] + [v, w] == [u, v, w];
    }
  }

  lemma NameIsWord(name: string)
    requires IsSnippetName(name)
    ensures IsWord(name)
  {
  }

  lemma SnippetWords(line: string, name: string, kind: string)
    requires IsSnippetName(name) && (kind == "start" || kind == "end")
    ensures CommentWords(line) == Some(["m80:quickstart-snippet", name, kind]) <==>
              exists inner :: IsComment(line, inner) && SpellsThree(inner, "m80:quickstart-snippet", name, kind)
  {
    MarkerWords();
    NameIsWord(name);
    CommentExactly(line, ["m80:quickstart-snippet", name, kind]);
    forall inner
      ensures Words(inner) == ["m80:quickstart-snippet", name, kind] <==>
              SpellsThree(inner, "m80:quickstart-snippet", name, kind)
    {
      ThreeWords(inner, "m80:quickstart-snippet", name, kind);
    }
  }

  lemma SnippetOfWords(line: string, name: string)
    ensures SnippetOf(line) == SnippetStart(name) <==>
              IsSnippetName(name) && CommentWords(line) == Some(["m80:quickstart-snippet", name, "start"])
    ensures SnippetOf(line) == SnippetEnd(name) <==>
              IsSnippetName(name) && CommentWords(line) == Some(["m80:quickstart-snippet", name, "end"])
  {
    MarkerWords();
    var words := CommentWords(line);
    if words.Some? && |words.value| == 3 {
      assert words.value == [words.value[0], words.value[1], words.value[2]];
    }
  }

  /** The snippet markers are exactly the comments that spell the marker's name, a snippet name, and
      `start` or `end`. */
  lemma SnippetExactly(line: string, name: string)
    ensures SnippetOf(line) == SnippetStart(name) <==>
              IsSnippetName(name) && exists inner :: IsComment(line, inner) && SpellsThree(inner, "m80:quickstart-snippet", name, "start")
    ensures SnippetOf(line) == SnippetEnd(name) <==>
              IsSnippetName(name) && exists inner :: IsComment(line, inner) && SpellsThree(inner, "m80:quickstart-snippet", name, "end")
  {
    SnippetOfWords(line, name);
    if IsSnippetName(name) {
      SnippetWords(line, name, "start");
      SnippetWords(line, name, "end");
    }
  }
}
