// Python's `sorted`: a stable insertion sort over any total preorder, the
// lexicographic order of strings and tuples, and what sorting preserves.
module Ordering {
  import opened Common

  ghost predicate TotalPreorder<T(!new)>(le: (T, T) -> bool) {
    && (forall x, y :: le(x, y) || le(y, x))
    && (forall x, y, z :: le(x, y) && le(y, z) ==> le(x, z))
  }

  ghost predicate TotalOrder<T(!new)>(le: (T, T) -> bool) {
    TotalPreorder(le) && forall x, y :: le(x, y) && le(y, x) ==> x == y
  }

  predicate SortedBy<T>(xs: seq<T>, le: (T, T) -> bool) {
    forall i, j :: 0 <= i < j < |xs| ==> le(xs[i], xs[j])
  }

  function Insert<T>(x: T, xs: seq<T>, le: (T, T) -> bool): seq<T> {
    if xs == [] || le(x, xs[0]) then [x] + xs
    else [xs[0]] + Insert(x, xs[1..], le)
  }

  function Sort<T>(xs: seq<T>, le: (T, T) -> bool): seq<T> {
    if xs == [] then [] else Insert(xs[0], Sort(xs[1..], le), le)
  }

  lemma {:induction false} InsertKeepsAll<T>(x: T, xs: seq<T>, le: (T, T) -> bool)
    ensures multiset(Insert(x, xs, le)) == multiset{x} + multiset(xs)
  {
    if xs != [] && !le(x, xs[0]) {
      InsertKeepsAll(x, xs[1..], le);
      assert xs == [xs[0]] + xs[1..];
    }
  }

  lemma InsertMembers<T>(x: T, xs: seq<T>, le: (T, T) -> bool, y: T)
    requires y in Insert(x, xs, le)
    ensures y == x || y in xs
  {
    InsertKeepsAll(x, xs, le);
    assert y in multiset(Insert(x, xs, le));
  }

  lemma SortedCons<T>(head: T, tail: seq<T>, le: (T, T) -> bool)
    requires SortedBy(tail, le) && forall y :: y in tail ==> le(head, y)
    ensures SortedBy([head] + tail, le)
  {
  }

  lemma SortedTail<T>(xs: seq<T>, le: (T, T) -> bool)
    requires xs != [] && SortedBy(xs, le)
    ensures SortedBy(xs[1..], le) && forall y :: y in xs[1..] ==> le(xs[0], y)
  {
  }

  lemma {:induction false} InsertSorts<T(!new)>(x: T, xs: seq<T>, le: (T, T) -> bool)
    requires TotalPreorder(le) && SortedBy(xs, le)
    ensures SortedBy(Insert(x, xs, le), le)
  {
    if xs == [] {
      SortedCons(x, xs, le);
    } else {
      SortedTail(xs, le);
      if le(x, xs[0]) {
        forall y | y in xs ensures le(x, y) {
          assert y == xs[0] || y in xs[1..];
        }
        SortedCons(x, xs, le);
      } else {
        InsertSorts(x, xs[1..], le);
        forall y | y in Insert(x, xs[1..], le) ensures le(xs[0], y) {
          InsertMembers(x, xs[1..], le, y);
        }
        SortedCons(xs[0], Insert(x, xs[1..], le), le);
      }
    }
  }

  lemma PermutationFacts<T>(xs: seq<T>, ys: seq<T>)
    requires multiset(xs) == multiset(ys)
    ensures |xs| == |ys|
    ensures forall x :: x in xs <==> x in ys
  {
    assert |multiset(xs)| == |xs| && |multiset(ys)| == |ys|;
    assert forall x :: x in xs <==> x in multiset(xs);
    assert forall x :: x in ys <==> x in multiset(ys);
  }

  /** Sorting orders the elements and keeps each exactly as often as it occurred. */
  lemma {:induction false} SortCorrect<T(!new)>(xs: seq<T>, le: (T, T) -> bool)
    requires TotalPreorder(le)
    ensures SortedBy(Sort(xs, le), le)
    ensures multiset(Sort(xs, le)) == multiset(xs)
    ensures |Sort(xs, le)| == |xs|
    ensures forall x :: x in Sort(xs, le) <==> x in xs
  {
    if xs != [] {
      SortCorrect(xs[1..], le);
      InsertSorts(xs[0], Sort(xs[1..], le), le);
      InsertKeepsAll(xs[0], Sort(xs[1..], le), le);
      assert xs == [xs[0]] + xs[1..];
    }
    PermutationFacts(Sort(xs, le), xs);
  }

  /** A list that is already in order is left alone, ties included. */
  lemma {:induction false} SortOfSorted<T>(xs: seq<T>, le: (T, T) -> bool)
    requires SortedBy(xs, le)
    ensures Sort(xs, le) == xs
  {
    if xs != [] {
      SortOfSorted(xs[1..], le);
      assert xs == [xs[0]] + xs[1..];
      if |xs| > 1 {
        assert le(xs[0], xs[1]);
      }
    }
  }

  lemma SortedExactly<T(!new)>(xs: seq<T>, le: (T, T) -> bool)
    requires TotalPreorder(le)
    ensures xs == Sort(xs, le) <==> SortedBy(xs, le)
  {
    SortCorrect(xs, le);
    if SortedBy(xs, le) {
      SortOfSorted(xs, le);
    }
  }

  lemma {:induction false} CountOfDistinct<T>(xs: seq<T>, x: T)
    requires Distinct(xs)
    ensures multiset(xs)[x] == if x in xs then 1 else 0
  {
    if xs != [] {
      CountOfDistinct(xs[1..], x);
      assert xs == [xs[0]] + xs[1..];
      assert xs[0] !in xs[1..];
    }
  }

  lemma DuplicateCounts<T>(xs: seq<T>, i: int, j: int)
    requires 0 <= i < j < |xs| && xs[i] == xs[j]
    ensures multiset(xs)[xs[i]] >= 2
  {
    assert xs == xs[..j] + xs[j..];
    assert xs[i] in xs[..j] && xs[j] in xs[j..];
  }

  /** Sorting keeps a list free of duplicates. */
  lemma SortKeepsDistinct<T(!new)>(xs: seq<T>, le: (T, T) -> bool)
    requires TotalPreorder(le) && Distinct(xs)
    ensures Distinct(Sort(xs, le))
  {
    SortCorrect(xs, le);
    var ys := Sort(xs, le);
    forall i, j | 0 <= i < j < |ys| ensures ys[i] != ys[j] {
      CountOfDistinct(xs, ys[i]);
      if ys[i] == ys[j] {
        DuplicateCounts(ys, i, j);
      }
    }
  }

  // ------------------------------------------------------------ lexicographic order

  predicate Lex<T(==)>(a: seq<T>, b: seq<T>, le: (T, T) -> bool) {
    if a == [] then true
    else if b == [] then false
    else if a[0] == b[0] then Lex(a[1..], b[1..], le)
    else le(a[0], b[0])
  }

  lemma {:induction false} LexTotal<T(!new)>(a: seq<T>, b: seq<T>, le: (T, T) -> bool)
    requires TotalOrder(le)
    ensures Lex(a, b, le) || Lex(b, a, le)
    ensures Lex(a, b, le) && Lex(b, a, le) ==> a == b
  {
    if a != [] && b != [] && a[0] == b[0] {
      LexTotal(a[1..], b[1..], le);
      assert a == [a[0]] + a[1..] && b == [b[0]] + b[1..];
    }
  }

  lemma {:induction false} LexTransitive<T(!new)>(a: seq<T>, b: seq<T>, c: seq<T>, le: (T, T) -> bool)
    requires TotalOrder(le) && Lex(a, b, le) && Lex(b, c, le)
    ensures Lex(a, c, le)
  {
    if a != [] && b != [] && c != [] && a[0] == b[0] && b[0] == c[0] {
      LexTransitive(a[1..], b[1..], c[1..], le);
    }
  }

  /** Code-point order of Python strings */
  predicate StringLe(a: string, b: string) {
    Lex(a, b, (x: char, y: char) => x <= y)
  }

  /** Up to place `k` the two agree, and there `a` ends or has the smaller character. */
  predicate DecidedAt(a: string, b: string, k: nat) {
    && k <= |a| && k <= |b| && (forall i :: 0 <= i < k ==> a[i] == b[i])
    && (k == |a| || (k < |b| && a[k] < b[k]))
  }

  /** One text comes before another exactly when it is a prefix of it or has the smaller character
      where they first differ. */
  lemma {:induction false} StringLeExactly(a: string, b: string)
    ensures StringLe(a, b) <==> exists k: nat :: DecidedAt(a, b, k)
  {
    if a == "" || b == "" || a[0] != b[0] {
      assert StringLe(a, b) ==> DecidedAt(a, b, 0);
    } else {
      StringLeExactly(a[1..], b[1..]);
      forall k: nat | DecidedAt(a[1..], b[1..], k) ensures DecidedAt(a, b, k + 1) {
        assert forall i :: 0 < i < k + 1 ==> a[i] == a[1..][i - 1] && b[i] == b[1..][i - 1];
      }
      forall k: nat | DecidedAt(a, b, k) ensures DecidedAt(a[1..], b[1..], k - 1) {
      }
    }
  }

  lemma StringLeTotalOrder()
    ensures TotalOrder(StringLe)
  {
    var le := (x: char, y: char) => x <= y;
    forall a: string, b: string
      ensures StringLe(a, b) || StringLe(b, a)
      ensures StringLe(a, b) && StringLe(b, a) ==> a == b
    {
      LexTotal(a, b, le);
    }
    forall a: string, b: string, c: string | StringLe(a, b) && StringLe(b, c) ensures StringLe(a, c) {
      LexTransitive(a, b, c, le);
    }
  }

  /** Order of Python tuples of strings */
  predicate TupleLe(a: seq<string>, b: seq<string>) {
    Lex(a, b, StringLe)
  }

  lemma TupleLeTotalOrder()
    ensures TotalOrder(TupleLe)
  {
    StringLeTotalOrder();
    forall a: seq<string>, b: seq<string>
      ensures TupleLe(a, b) || TupleLe(b, a)
      ensures TupleLe(a, b) && TupleLe(b, a) ==> a == b
    {
      LexTotal(a, b, StringLe);
    }
    forall a: seq<string>, b: seq<string>, c: seq<string> | TupleLe(a, b) && TupleLe(b, c) ensures TupleLe(a, c) {
      LexTransitive(a, b, c, StringLe);
    }
  }
}
