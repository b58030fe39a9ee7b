// Replacing the text between the freshness markers of a document.
module StatusMarker {
  import opened Common
  import opened Markers

  /** The document's only markers are a start at `i` and an end at `j` after it. */
  predicate IsBlock(lines: seq<string>, i: int, j: int) {
    && 0 <= i < j < |lines|
    && FreshnessOf(lines[i]) == StartMark
    && FreshnessOf(lines[j]) == EndMark
    && forall k :: 0 <= k < |lines| && k != i && k != j ==> FreshnessOf(lines[k]) == NoMark
  }

  lemma BlockUnique(lines: seq<string>, i: int, j: int, i': int, j': int)
    requires IsBlock(lines, i, j) && IsBlock(lines, i', j')
    ensures i == i' && j == j'
  {
  }

  function Between(lines: seq<string>, i: int, j: int, replacement: seq<string>): seq<string>
    requires 0 <= i < j < |lines|
  {
    lines[..i + 1] + replacement + lines[j..]
  }

  /** What the renderer is for: keep everything up to and including the start marker, and from
      the end marker on, and put the replacement between; refuse any other arrangement. */
  ghost function Replaced(lines: seq<string>, replacement: seq<string>): Option<seq<string>> {
    if exists i, j :: IsBlock(lines, i, j) then
      var i, j :| IsBlock(lines, i, j);
      Some(Between(lines, i, j, replacement))
    else None
  }

  lemma ReplacedAt(lines: seq<string>, i: int, j: int, replacement: seq<string>)
    requires IsBlock(lines, i, j)
    ensures Replaced(lines, replacement) == Some(Between(lines, i, j, replacement))
  {
    var i', j' :| IsBlock(lines, i', j') && Replaced(lines, replacement) == Some(Between(lines, i', j', replacement));
    BlockUnique(lines, i, j, i', j');
  }

  predicate Unmarked(lines: seq<string>) {
    forall k :: 0 <= k < |lines| ==> FreshnessOf(lines[k]) == NoMark
  }

  /** Where the pass stands after the lines `done`: before the block, inside it, or past it. */
  ghost predicate Passed(done: seq<string>, replacement: seq<string>, output: seq<string>,
                         inMarker: bool, seenBlocks: int, i: int, j: int)
  {
    if seenBlocks == 0 then !inMarker && Unmarked(done) && output == done
    else if inMarker then
      && seenBlocks == 1
      && 0 <= i < |done| && FreshnessOf(done[i]) == StartMark
      && (forall k :: 0 <= k < |done| && k != i ==> FreshnessOf(done[k]) == NoMark)
      && output == done[..i + 1] + replacement
    else seenBlocks == 1 && IsBlock(done, i, j) && output == Between(done, i, j, replacement)
  }

  lemma PassPlainLine(done: seq<string>, line: string, replacement: seq<string>, output: seq<string>,
                      inMarker: bool, seenBlocks: int, i: int, j: int)
    requires Passed(done, replacement, output, inMarker, seenBlocks, i, j) && FreshnessOf(line) == NoMark
    ensures Passed(done + [line], replacement, if inMarker then output else output + [line], inMarker, seenBlocks, i, j)
  {
    var next := done + [line];
    if seenBlocks != 0 {
      assert next[..i + 1] == done[..i + 1];
      if !inMarker {
        assert next[j..] == done[j..] + [line];
      }
    }
  }

  lemma PassStart(done: seq<string>, line: string, n: int, replacement: seq<string>, output: seq<string>, i: int, j: int)
    requires n == |done| && Passed(done, replacement, output, false, 0, i, j) && FreshnessOf(line) == StartMark
    ensures Passed(done + [line], replacement, output + [line] + replacement, true, 1, n, j)
  {
    assert (done + [line])[..|done| + 1] == done + [line];
  }

  lemma PassEnd(done: seq<string>, line: string, n: int, replacement: seq<string>, output: seq<string>, i: int, j: int)
    requires n == |done| && Passed(done, replacement, output, true, 1, i, j) && FreshnessOf(line) == EndMark
    ensures Passed(done + [line], replacement, output + [line], false, 1, i, n)
  {
    var next := done + [line];
    assert next[..i + 1] == done[..i + 1];
    assert next[|done|..] == [line];
  }

  /** A start after the first, or an end outside a block, leaves no way to replace anything. */
  lemma ExtraMarkerRefused(lines: seq<string>, n: int, replacement: seq<string>, output: seq<string>,
                           inMarker: bool, seenBlocks: int, i: int, j: int)
    requires 0 <= n < |lines| && Passed(lines[..n], replacement, output, inMarker, seenBlocks, i, j)
    requires (FreshnessOf(lines[n]) == StartMark && seenBlocks == 1) || (FreshnessOf(lines[n]) == EndMark && !inMarker)
    ensures Replaced(lines, replacement).None?
  {
    assert seenBlocks == 1 ==> lines[..n][i] == lines[i];
    assert seenBlocks == 1 && !inMarker ==> lines[..n][j] == lines[j];
    assert seenBlocks == 0 ==> forall k :: 0 <= k < n ==> FreshnessOf(lines[..n][k]) == NoMark;
    assert forall a, b :: !IsBlock(lines, a, b);
  }

  lemma PassDecides(lines: seq<string>, replacement: seq<string>, output: seq<string>,
                    inMarker: bool, seenBlocks: int, i: int, j: int)
    requires Passed(lines, replacement, output, inMarker, seenBlocks, i, j)
    ensures Replaced(lines, replacement) == if inMarker || seenBlocks == 0 then None else Some(output)
  {
    if !inMarker && seenBlocks == 1 {
      ReplacedAt(lines, i, j, replacement);
    } else {
      assert forall a, b :: IsBlock(lines, a, b) ==> FreshnessOf(lines[a]) == StartMark && FreshnessOf(lines[b]) == EndMark;
    }
  }

  /** `replace_status_marker`: one pass with a flag and a block count. */
  method ReplaceStatusMarker(lines: seq<string>, replacement: seq<string>) returns (result: Option<seq<string>>)
    ensures result == Replaced(lines, replacement)
  {
    var output: seq<string> := [];
    var inMarker := false;
    var seenBlocks := 0;
    ghost var i, j, done := 0, 0, [];
    for n := 0 to |lines|
      invariant done == lines[..n] && Passed(done, replacement, output, inMarker, seenBlocks, i, j)
    {
      var line := lines[n];
      assert done + [line] == lines[..n + 1];
      match FreshnessOf(line) {
        case NoMark =>
          PassPlainLine(done, line, replacement, output, inMarker, seenBlocks, i, j);
          if !inMarker {
            output := output + [line];
          }
        case StartMark =>
          if seenBlocks == 1 {
            ExtraMarkerRefused(lines, n, replacement, output, inMarker, seenBlocks, i, j);
            return None;
          }
          PassStart(done, line, n, replacement, output, i, j);
          inMarker, seenBlocks, i := true, 1, n;
          output := output + [line];
          output := output + replacement;
        case EndMark =>
          if !inMarker {
            ExtraMarkerRefused(lines, n, replacement, output, inMarker, seenBlocks, i, j);
            return None;
          }
          PassEnd(done, line, n, replacement, output, i, j);
          inMarker, j := false, n;
          output := output + [line];
      }
      assert Passed(done + [line], replacement, output, inMarker, seenBlocks, i, j);
      done := done + [line];
    }
    assert done == lines;
    PassDecides(lines, replacement, output, inMarker, seenBlocks, i, j);
    if inMarker {
      return None;
    }
    if seenBlocks == 0 {
      return None;
    }
    result := Some(output);
  }

  // ------------------------------------------------------------ laws

  /** After a replacement without markers the block sits where it was. */
  lemma BlockAfter(lines: seq<string>, i: int, j: int, replacement: seq<string>)
    requires IsBlock(lines, i, j) && Unmarked(replacement)
    ensures IsBlock(Between(lines, i, j, replacement), i, i + 1 + |replacement|)
  {
    var after := Between(lines, i, j, replacement);
    var j' := i + 1 + |replacement|;
    forall k | 0 <= k < |after| && k != i && k != j' ensures FreshnessOf(after[k]) == NoMark {
      if k <= i {
        assert after[k] == lines[k];
      } else if k < j' {
        assert after[k] == replacement[k - i - 1];
      } else {
        assert after[k] == lines[j + (k - j')];
      }
    }
    assert after[i] == lines[i] && after[j'] == lines[j];
  }

  /** A marker inside the replacement leaves a document without a proper block. */
  lemma MarkedReplacementSpoils(lines: seq<string>, i: int, j: int, replacement: seq<string>, k: int)
    requires IsBlock(lines, i, j)
    requires 0 <= k < |replacement| && FreshnessOf(replacement[k]) != NoMark
    ensures forall a, b :: !IsBlock(Between(lines, i, j, replacement), a, b)
  {
    var after := Between(lines, i, j, replacement);
    assert after[i] == lines[i];
    assert after[i + 1 + k] == replacement[k];
    assert after[i + 1 + |replacement|] == lines[j];
  }

  lemma BetweenTwice(lines: seq<string>, i: int, j: int, first: seq<string>, second: seq<string>)
    requires 0 <= i < j < |lines|
    ensures Between(Between(lines, i, j, first), i, i + 1 + |first|, second) == Between(lines, i, j, second)
  {
    var once, j' := Between(lines, i, j, first), i + 1 + |first|;
    assert once[..i + 1] == lines[..i + 1];
    assert once[j'..] == lines[j..];
  }

  lemma UnmarkedOverwritten(lines: seq<string>, i: int, j: int, first: seq<string>, second: seq<string>)
    requires IsBlock(lines, i, j) && Unmarked(first)
    ensures Replaced(Between(lines, i, j, first), second) == Replaced(lines, second)
  {
    var once, j' := Between(lines, i, j, first), i + 1 + |first|;
    BlockAfter(lines, i, j, first);
    ReplacedAt(once, i, j', second);
    ReplacedAt(lines, i, j, second);
    BetweenTwice(lines, i, j, first, second);
  }

  /** Replacing again is possible exactly when the first replacement brought no marker in; then
      the last write wins. */
  lemma LastWriteWins(lines: seq<string>, first: seq<string>, second: seq<string>)
    requires Replaced(lines, first).Some?
    ensures var again := Replaced(Replaced(lines, first).value, second);
            && (again.Some? <==> Unmarked(first))
            && (again.Some? ==> again == Replaced(lines, second))
  {
    var i, j :| IsBlock(lines, i, j);
    ReplacedAt(lines, i, j, first);
    if Unmarked(first) {
      UnmarkedOverwritten(lines, i, j, first, second);
    } else {
      var k :| 0 <= k < |first| && FreshnessOf(first[k]) != NoMark;
      MarkedReplacementSpoils(lines, i, j, first, k);
    }
  }

  /** Rendering is idempotent for replacements without markers. */
  lemma RenderingIdempotent(lines: seq<string>, replacement: seq<string>)
    requires Replaced(lines, replacement).Some? && Unmarked(replacement)
    ensures Replaced(Replaced(lines, replacement).value, replacement) == Replaced(lines, replacement)
  {
    LastWriteWins(lines, replacement, replacement);
  }
}
