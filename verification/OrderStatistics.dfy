// Ranks in a list that need not be sorted: how many values lie below one, and which value has a
// given rank.
module OrderStatistics {
  import opened Common
  import opened Ordering

  function CountLess(xs: seq<int>, v: int): nat {
    if xs == [] then 0 else (if xs[0] < v then 1 else 0) + CountLess(xs[1..], v)
  }

  /** Counting from 0, `v` has rank `k` among `xs`: it is one of them, at most `k` are smaller, and
      more than `k` are not larger. */
  predicate HasRank(xs: seq<int>, k: int, v: int) {
    v in xs && CountLess(xs, v) <= k < CountLess(xs, v + 1)
  }

  lemma {:induction false} CountLessMonotone(xs: seq<int>, v: int, w: int)
    requires v <= w
    ensures CountLess(xs, v) <= CountLess(xs, w)
  {
    if xs != [] {
      CountLessMonotone(xs[1..], v, w);
    }
  }

  /** Only one value has a given rank. */
  lemma RankUnique(xs: seq<int>, k: int, v: int, w: int)
    requires HasRank(xs, k, v) && HasRank(xs, k, w)
    ensures v == w
  {
    if v < w {
      CountLessMonotone(xs, v + 1, w);
    } else if w < v {
      CountLessMonotone(xs, w + 1, v);
    }
  }

  lemma {:induction false} CountLessConcat(a: seq<int>, b: seq<int>, v: int)
    ensures CountLess(a + b, v) == CountLess(a, v) + CountLess(b, v)
  {
    if a == [] {
      assert a + b == b;
    } else {
      assert (a + b)[1..] == a[1..] + b;
      CountLessConcat(a[1..], b, v);
    }
  }

  /** The count does not depend on the order of the list. */
  lemma {:induction false} CountLessPermuted(a: seq<int>, b: seq<int>, v: int)
    requires multiset(a) == multiset(b)
    ensures CountLess(a, v) == CountLess(b, v)
    decreases |a|
  {
    PermutationFacts(a, b);
    if a != [] {
      assert a[0] in b;
      var i :| 0 <= i < |b| && b[i] == a[0];
      var front, back := b[..i], b[i + 1..];
      assert b == front + ([b[i]] + back);
      assert a == [a[0]] + a[1..];
      assert multiset(front + back) == multiset(b) - multiset{b[i]};
      assert multiset(a[1..]) == multiset(a) - multiset{a[0]};
      CountLessPermuted(a[1..], front + back, v);
      CountLessConcat(front, [b[i]] + back, v);
      CountLessConcat(front, back, v);
    }
  }

  lemma {:induction false} NoneLess(xs: seq<int>, v: int)
    requires forall x :: x in xs ==> v <= x
    ensures CountLess(xs, v) == 0
  {
    if xs != [] {
      assert xs[0] in xs;
      assert forall x :: x in xs[1..] ==> x in xs;
      NoneLess(xs[1..], v);
    }
  }

  lemma {:induction false} AllLess(xs: seq<int>, v: int)
    requires forall x :: x in xs ==> x < v
    ensures CountLess(xs, v) == |xs|
  {
    if xs != [] {
      assert xs[0] in xs;
      assert forall x :: x in xs[1..] ==> x in xs;
      AllLess(xs[1..], v);
    }
  }

  lemma {:induction false} CountAtMostLength(xs: seq<int>, v: int)
    ensures CountLess(xs, v) <= |xs|
  {
    if xs != [] {
      CountAtMostLength(xs[1..], v);
    }
  }

  /** The element at position `k` of a sorted list has rank `k`. */
  lemma SortedRank(s: seq<int>, k: nat)
    requires k < |s| && forall i, j :: 0 <= i < j < |s| ==> s[i] <= s[j]
    ensures HasRank(s, k, s[k])
  {
    var front, rest := s[..k], s[k..];
    assert s == front + rest;
    CountLessConcat(front, rest, s[k]);
    NoneLess(rest, s[k]);
    CountAtMostLength(front, s[k]);
    var upTo, after := s[..k + 1], s[k + 1..];
    assert s == upTo + after;
    CountLessConcat(upTo, after, s[k] + 1);
    AllLess(upTo, s[k] + 1);
  }

  /** Sorting a list and reading position `k` gives its value of rank `k`. */
  lemma RankAfterSort(xs: seq<int>, s: seq<int>, k: nat)
    requires multiset(s) == multiset(xs) && k < |s| && forall i, j :: 0 <= i < j < |s| ==> s[i] <= s[j]
    ensures HasRank(xs, k, s[k])
  {
    SortedRank(s, k);
    PermutationFacts(s, xs);
    CountLessPermuted(s, xs, s[k]);
    CountLessPermuted(s, xs, s[k] + 1);
  }
}
