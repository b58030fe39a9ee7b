// Benchmark statistics: percentiles of a sorted sample, logarithmic histograms and the
// bootstrap interval of the median. Exact rationals stand for the floats of the script.
module BenchSummary {
  import opened Common
  import opened Ordering
  import opened OrderStatistics

  predicate IntLe(a: int, b: int) {
    a <= b
  }

  predicate Sorted(s: seq<int>) {
    SortedBy(s, IntLe)
  }

  // ------------------------------------------------------------ percentiles

  function Max(a: int, b: int): int {
    if a >= b then a else b
  }

  function Min(a: int, b: int): int {
    if a <= b then a else b
  }

  /** the index `_percentile` reads */
  function PercentileIndex(n: nat, pct: real): (i: nat)
    requires n > 0
    ensures i < n
  {
    var rank := (n as real * pct / 100.0).Floor;
    Max(0, Min(Max(0, rank - 1), n - 1))
  }

  /** `_percentile` */
  function Percentile(s: seq<int>, pct: real): int
    requires s != []
  {
    s[PercentileIndex(|s|, pct)]
  }

  lemma RankMonotone(n: nat, p: real, q: real)
    requires p <= q
    ensures (n as real * p / 100.0).Floor <= (n as real * q / 100.0).Floor
  {
    assert n as real * p <= n as real * q;
    var a, b := n as real * p / 100.0, n as real * q / 100.0;
    assert a <= b;
  }

  /** Percentiles are sample members between the minimum and the maximum, and grow with the
      percentage. */
  lemma PercentileMonotone(s: seq<int>, p: real, q: real)
    requires s != [] && Sorted(s) && p <= q
    ensures Percentile(s, p) in s
    ensures Percentile(s, p) <= Percentile(s, q)
    ensures s[0] <= Percentile(s, p) <= s[|s| - 1]
  {
    RankMonotone(|s|, p, q);
    var i, j := PercentileIndex(|s|, p), PercentileIndex(|s|, q);
    assert i <= j;
    SortedAt(s, i, j);
    SortedAt(s, 0, i);
    SortedAt(s, i, |s| - 1);
  }

  lemma SortedAt(s: seq<int>, i: nat, j: nat)
    requires Sorted(s) && i <= j < |s|
    ensures s[i] <= s[j]
  {
    if i < j {
      assert IntLe(s[i], s[j]);
    }
  }

  /** How many samples lie in `[lo, hi)`. */
  function CountIn(s: seq<int>, lo: int, hi: int): nat {
    if s == [] then 0
    else (if lo <= s[|s| - 1] < hi then 1 else 0) + CountIn(s[..|s| - 1], lo, hi)
  }

  lemma {:induction false} CountPrefix(s: seq<int>, n: nat, v: int)
    requires n <= |s| && forall k :: 0 <= k < n ==> s[k] <= v
    requires forall k :: 0 <= k < |s| ==> s[0] <= s[k]
    ensures s != [] ==> CountIn(s, s[0], v + 1) >= n
    decreases |s|
  {
    if s != [] {
      var front := s[..|s| - 1];
      if n < |s| {
        CountPrefix(front, n, v);
      } else if front != [] {
        CountPrefix(front, n - 1, v);
      }
    }
  }

  lemma RankAtMostSize(n: nat, pct: real)
    requires pct <= 100.0
    ensures (n as real * pct / 100.0).Floor <= n
  {
    RankMonotone(n, pct, 100.0);
    assert n as real * 100.0 / 100.0 == n as real;
  }

  lemma IndexCoversRank(n: nat, pct: real)
    requires n > 0 && pct <= 100.0
    ensures PercentileIndex(n, pct) + 1 >= (n as real * pct / 100.0).Floor
  {
    RankAtMostSize(n, pct);
  }

  lemma SortedBounds(s: seq<int>, i: nat)
    requires Sorted(s) && i < |s|
    ensures forall k :: 0 <= k < i + 1 ==> s[k] <= s[i]
    ensures forall k :: 0 <= k < |s| ==> s[0] <= s[k]
  {
    forall k | 0 <= k < i + 1 ensures s[k] <= s[i] {
      SortedAt(s, k, i);
    }
    forall k | 0 <= k < |s| ensures s[0] <= s[k] {
      SortedAt(s, 0, k);
    }
  }

  lemma {:induction false} CountUpTo(s: seq<int>, i: nat)
    requires Sorted(s) && i < |s|
    ensures CountIn(s, s[0], s[i] + 1) >= i + 1
  {
    SortedBounds(s, i);
    CountPrefix(s, i + 1, s[i]);
  }

  /** At least the rounded-down share of the samples is at or below the percentile. */
  lemma {:induction false} PercentileRank(s: seq<int>, pct: real)
    requires s != [] && Sorted(s) && pct <= 100.0
    ensures CountIn(s, s[0], Percentile(s, pct) + 1) >= (|s| as real * pct / 100.0).Floor
  {
    var i := PercentileIndex(|s|, pct);
    IndexCoversRank(|s|, pct);
    CountUpTo(s, i);
  }

  lemma {:induction false} CountBelow(s: seq<int>, j: nat, lo: int, v: int)
    requires j <= |s| && forall k :: j <= k < |s| ==> s[k] > v
    ensures CountIn(s, lo, v + 1) <= j
    decreases |s|
  {
    if s != [] {
      var front := s[..|s| - 1];
      if j < |s| {
        CountBelow(front, j, lo, v);
      } else {
        CountBelow(front, j - 1, lo, v);
      }
    }
  }

  /** More than `j` samples are at or below `v` exactly when sample `j` is. */
  lemma {:induction false} CountReaches(s: seq<int>, j: nat, v: int)
    requires Sorted(s) && j < |s|
    ensures CountIn(s, s[0], v + 1) >= j + 1 <==> s[j] <= v
  {
    SortedBounds(s, j);
    if s[j] <= v {
      CountPrefix(s, j + 1, v);
    } else {
      forall k | j <= k < |s| ensures s[k] > v {
        SortedAt(s, j, k);
      }
      CountBelow(s, j, s[0], v);
    }
  }

  /** The share of the samples that `pct` percent asks for. */
  function Share(n: nat, pct: real): real {
    n as real * pct / 100.0
  }

  lemma ShareBounds(n: nat, pct: real)
    requires 0.0 <= pct <= 100.0
    ensures 0.0 <= Share(n, pct) <= n as real
  {
    ProductNotNegative(n as real, pct);
    ProductNotNegative(n as real, 100.0 - pct);
    Distributes(n as real, 100.0, pct);
  }

  /** The percentage asks for no part of a sample beyond the ones below it, or the sample after the
      one read is equal to it. */
  predicate ShareIsMet(s: seq<int>, x: real)
    requires 0.0 <= x <= |s| as real
  {
    || x <= 1.0
    || x == x.Floor as real
    || s[x.Floor] == s[x.Floor - 1]
  }

  lemma IndexIsRank(n: nat, pct: real)
    requires n > 0 && 0.0 <= pct <= 100.0
    ensures Share(n, pct).Floor <= n
    ensures PercentileIndex(n, pct) == if Share(n, pct).Floor <= 1 then 0 else Share(n, pct).Floor - 1
  {
    ShareBounds(n, pct);
  }

  /** The percentile has the stated share of the samples at or below it exactly when the share is at
      most one sample or a whole number of them, or the next sample is as large. */
  lemma {:induction false} ShareMetExactly(s: seq<int>, pct: real)
    requires s != [] && Sorted(s) && 0.0 <= pct <= 100.0
    ensures 0.0 <= Share(|s|, pct) <= |s| as real
    ensures CountIn(s, s[0], Percentile(s, pct) + 1) as real >= Share(|s|, pct) <==> ShareIsMet(s, Share(|s|, pct))
  {
    var x, i, v := Share(|s|, pct), PercentileIndex(|s|, pct), Percentile(s, pct);
    ShareBounds(|s|, pct);
    IndexIsRank(|s|, pct);
    CountReaches(s, i, v);
    if x > 1.0 && x != x.Floor as real {
      CountReaches(s, x.Floor, v);
      SortedAt(s, x.Floor - 1, x.Floor);
    }
  }

  /** It need not: the median of three samples has one of them at or below it. */
  lemma ShareMissed()
    ensures Percentile([1, 2, 3], 50.0) == 1
    ensures CountIn([1, 2, 3], 1, 2) == 1 && Share(3, 50.0) == 1.5
  {
    assert Share(3, 50.0).Floor == 1;
    var none: seq<int> := [];
    assert [1][..0] == none && [1, 2][..1] == [1] && [1, 2, 3][..2] == [1, 2];
    assert CountIn(none, 1, 2) == 0;
    assert CountIn([1], 1, 2) == 1;
    assert CountIn([1, 2], 1, 2) == 1;
  }

  // ------------------------------------------------------------ histograms

  datatype Bucket = Bucket(low: int, high: int, count: nat)

  function Total(buckets: seq<Bucket>): nat {
    if buckets == [] then 0 else buckets[|buckets| - 1].count + Total(buckets[..|buckets| - 1])
  }

  lemma {:induction false} CountSplit(s: seq<int>, a: int, b: int, c: int)
    requires a <= b <= c
    ensures CountIn(s, a, b) + CountIn(s, b, c) == CountIn(s, a, c)
  {
    if s != [] {
      CountSplit(s[..|s| - 1], a, b, c);
    }
  }

  lemma {:induction false} CountAll(s: seq<int>, lo: int, lo': int, hi: int, hi': int)
    requires forall v :: v in s ==> v < hi && v < hi' && (lo <= v <==> lo' <= v)
    ensures CountIn(s, lo, hi) == CountIn(s, lo', hi')
  {
    if s != [] {
      var front := s[..|s| - 1];
      assert s[|s| - 1] in s;
      forall v | v in front ensures v < hi && v < hi' && (lo <= v <==> lo' <= v) {
        assert v in s;
      }
      CountAll(front, lo, lo', hi, hi');
    }
  }

  lemma {:induction false} CountNone(s: seq<int>, lo: int)
    ensures CountIn(s, lo, lo) == 0
  {
    if s != [] {
      CountNone(s[..|s| - 1], lo);
    }
  }

  /** Each bucket spans one factor, is not empty, counts exactly its samples, and starts no
      lower than the one before it ends. */
  predicate BucketsOk(s: seq<int>, buckets: seq<Bucket>, factor: int) {
    && (forall b :: b in buckets ==>
          1 <= b.low && b.high == b.low * factor && b.count == CountIn(s, b.low, b.high) && b.count > 0)
    && forall i, j :: 0 <= i < j < |buckets| ==> buckets[i].high <= buckets[j].low
  }

  lemma BucketAdded(s: seq<int>, buckets: seq<Bucket>, factor: int, b: Bucket)
    requires BucketsOk(s, buckets, factor) && forall x :: x in buckets ==> x.high <= b.low
    requires 1 <= b.low && b.high == b.low * factor && b.count == CountIn(s, b.low, b.high) && b.count > 0
    ensures BucketsOk(s, buckets + [b], factor)
    ensures Total(buckets + [b]) == Total(buckets) + b.count
  {
    var more := buckets + [b];
    assert more[..|buckets|] == buckets;
    assert forall x :: x in more ==> x in buckets || x == b;
    forall i, j | 0 <= i < j < |more| ensures more[i].high <= more[j].low {
      if j == |buckets| {
        assert more[i] in buckets;
      }
    }
  }

  lemma Grows(cur: int, factor: int)
    requires cur >= 1 && factor >= 2
    ensures cur * factor > cur
  {
    assert cur * factor >= cur * 2;
  }

  lemma {:induction false} LastIsLargest(s: seq<int>)
    requires s != [] && Sorted(s)
    ensures forall v :: v in s ==> s[0] <= v <= s[|s| - 1]
  {
    forall v | v in s ensures s[0] <= v <= s[|s| - 1] {
      var k :| 0 <= k < |s| && s[k] == v;
      SortedAt(s, 0, k);
      SortedAt(s, k, |s| - 1);
    }
  }

  /** The bounds start at `start`, and each is the factor times the one before it. */
  predicate IsScale(bounds: seq<int>, start: int, factor: int) {
    && bounds != [] && bounds[0] == start
    && forall k :: 0 < k < |bounds| ==> bounds[k] == bounds[k - 1] * factor
  }

  lemma ScaleSnoc(bounds: seq<int>, start: int, factor: int, next: int)
    requires IsScale(bounds, start, factor) && next == bounds[|bounds| - 1] * factor
    ensures IsScale(bounds + [next], start, factor)
  {
    var more := bounds + [next];
    assert forall k :: 0 <= k < |bounds| ==> more[k] == bounds[k];
  }

  /** `_log_histogram`: the loop multiplies the lower bound until it passes the largest sample.
      The buckets are disjoint and ascending and hold every sample that is at least one; the
      catch after the loop is never reached. */
  method LogHistogram(s: seq<int>, factor: int) returns (buckets: seq<Bucket>, ghost bounds: seq<int>)
    requires Sorted(s) && factor >= 2
    ensures BucketsOk(s, buckets, factor)
    ensures s != [] ==> Total(buckets) == CountIn(s, 1, Max(1, s[|s| - 1] + 1))
    ensures s == [] ==> buckets == []
    ensures s != [] ==> IsScale(bounds, Max(1, s[0]), factor) && forall b :: b in buckets ==> b.low in bounds
  {
    buckets, bounds := [], [];
    if s == [] {
      return;
    }
    LastIsLargest(s);
    var lo, hi := Max(1, s[0]), s[|s| - 1];
    var cur := lo;
    bounds := [lo];
    CountNone(s, lo);
    while cur <= hi
      invariant 1 <= lo <= cur
      invariant BucketsOk(s, buckets, factor)
      invariant forall b :: b in buckets ==> b.high <= cur
      invariant Total(buckets) == CountIn(s, lo, cur)
      invariant IsScale(bounds, lo, factor) && bounds[|bounds| - 1] == cur
      invariant forall b :: b in buckets ==> b.low in bounds
      decreases hi - cur
    {
      var next := cur * factor;
      Grows(cur, factor);
      CountSplit(s, lo, cur, next);
      var count := CountIn(s, cur, next);
      if count > 0 {
        BucketAdded(s, buckets, factor, Bucket(cur, next, count));
        buckets := buckets + [Bucket(cur, next, count)];
      }
      ScaleSnoc(bounds, lo, factor, next);
      bounds := bounds + [next];
      cur := next;
    }
    if s[|s| - 1] >= cur {
      assert false;
    }
    CountAll(s, lo, 1, cur, Max(1, hi + 1));
  }

  lemma BucketAt(buckets: seq<Bucket>, b: Bucket) returns (i: nat)
    requires b in buckets
    ensures i < |buckets| && buckets[i] == b
  {
    i :| 0 <= i < |buckets| && buckets[i] == b;
  }

  /** No sample is counted by two buckets. */
  lemma BucketsDisjoint(s: seq<int>, buckets: seq<Bucket>, factor: int, a: Bucket, b: Bucket, v: int)
    requires BucketsOk(s, buckets, factor) && a in buckets && b in buckets
    requires a.low <= v < a.high && b.low <= v < b.high
    ensures a == b
  {
    var i := BucketAt(buckets, a);
    var j := BucketAt(buckets, b);
  }

  // ------------------------------------------------------------ bootstrap

  /** A resample draws as many values as the sample has, from the sample. */
  predicate IsResample(vals: seq<int>, r: seq<int>) {
    |r| == |vals| && forall v :: v in r ==> v in vals
  }

  /** Python's `xs[i]` for an index that may be negative. */
  function At(xs: seq<int>, i: int): int
    requires -|xs| <= i < |xs|
  {
    if i < 0 then xs[|xs| + i] else xs[i]
  }

  lemma IntLeTotal()
    ensures TotalPreorder(IntLe)
  {
  }

  /** A percentile is the sample's value of that rank, sorted or not. */
  lemma {:induction false} PercentileHasRank(xs: seq<int>, pct: real)
    requires xs != []
    ensures Sort(xs, IntLe) != []
    ensures HasRank(xs, PercentileIndex(|xs|, pct), Percentile(Sort(xs, IntLe), pct))
  {
    IntLeTotal();
    SortCorrect(xs, IntLe);
    RankInSorted(xs, Sort(xs, IntLe), PercentileIndex(|xs|, pct));
  }

  lemma {:induction false} RankInSorted(xs: seq<int>, s: seq<int>, k: nat)
    requires Sorted(s) && multiset(s) == multiset(xs) && k < |s|
    ensures HasRank(xs, k, s[k])
  {
    assert forall i, j :: 0 <= i < j < |s| ==> IntLe(s[i], s[j]);
    RankAfterSort(xs, s, k);
  }

  lemma MedianIndex(n: nat)
    requires n > 0
    ensures PercentileIndex(n, 50.0) == MedianRank(n)
  {
    var h := n / 2;
    assert n == 2 * h || n == 2 * h + 1;
    assert n as real * 50.0 / 100.0 == n as real / 2.0;
    assert (n as real / 2.0).Floor == h;
  }

  /** The rank that stands for the median of `n` values. */
  function MedianRank(n: nat): int {
    Max(0, n / 2 - 1)
  }

  lemma {:induction false} MedianHasRank(r: seq<int>)
    requires r != []
    ensures Sort(r, IntLe) != [] && HasRank(r, MedianRank(|r|), Percentile(Sort(r, IntLe), 50.0))
  {
    PercentileHasRank(r, 50.0);
    MedianIndex(|r|);
  }

  /** The ranks of the bounds among `n` medians, when `alpha` is left off at each end. A negative
      rank reads the last median. */
  function LowerRank(n: nat, alpha: real): int {
    Max(0, (n as real * alpha).Floor - 1)
  }

  function UpperRank(n: nat, alpha: real): int {
    var rank := Min(n - 1, (n as real * (1.0 - alpha)).Floor - 1);
    if rank < 0 then n - 1 else rank
  }

  lemma BoundsInOrder(n: nat, alpha: real)
    requires n >= 1 && 0.0 <= alpha <= 0.5
    ensures 0 <= LowerRank(n, alpha) <= UpperRank(n, alpha) < n
    ensures -1 <= Min(n - 1, (n as real * (1.0 - alpha)).Floor - 1) < n
  {
    RanksOrdered(n, alpha);
  }

  /** The medians of the resamples, one after the other. */
  method ResampledMedians(vals: seq<int>, resamples: seq<seq<int>>) returns (medians: seq<int>)
    requires vals != [] && forall r :: r in resamples ==> IsResample(vals, r)
    ensures |medians| == |resamples| && forall m :: m in medians ==> m in vals
    ensures forall k :: 0 <= k < |resamples| ==> HasRank(resamples[k], MedianRank(|vals|), medians[k])
  {
    medians := [];
    for k := 0 to |resamples|
      invariant |medians| == k
      invariant forall m :: m in medians ==> m in vals
      invariant forall i :: 0 <= i < k ==> HasRank(resamples[i], MedianRank(|vals|), medians[i])
    {
      assert resamples[k] in resamples;
      MedianHasRank(resamples[k]);
      var median := Percentile(Sort(resamples[k], IntLe), 50.0);
      assert median in resamples[k];
      medians := medians + [median];
    }
  }

  /** Read the two bounds off the sorted medians. */
  method ReadInterval(ordered: seq<int>, alpha: real) returns (lower: int, upper: int)
    requires ordered != [] && 0.0 <= alpha <= 0.5
    ensures 0 <= LowerRank(|ordered|, alpha) <= UpperRank(|ordered|, alpha) < |ordered|
    ensures lower == ordered[LowerRank(|ordered|, alpha)] && upper == ordered[UpperRank(|ordered|, alpha)]
  {
    var samples := |ordered|;
    var lowIndex := Max(0, (samples as real * alpha).Floor - 1);
    var highIndex := Min(samples - 1, (samples as real * (1.0 - alpha)).Floor - 1);
    ReadBounds(ordered, alpha, lowIndex, highIndex);
    lower, upper := At(ordered, lowIndex), At(ordered, highIndex);
  }

  lemma ReadBounds(ordered: seq<int>, alpha: real, low: int, high: int)
    requires ordered != [] && 0.0 <= alpha <= 0.5
    requires low == Max(0, (|ordered| as real * alpha).Floor - 1)
    requires high == Min(|ordered| - 1, (|ordered| as real * (1.0 - alpha)).Floor - 1)
    ensures 0 <= LowerRank(|ordered|, alpha) <= UpperRank(|ordered|, alpha) < |ordered|
    ensures low < |ordered| && At(ordered, low) == ordered[LowerRank(|ordered|, alpha)]
    ensures -1 <= high < |ordered| && At(ordered, high) == ordered[UpperRank(|ordered|, alpha)]
  {
    BoundsInOrder(|ordered|, alpha);
  }

  /** Sort the medians and read the two bounds. */
  method IntervalOf(medians: seq<int>, alpha: real) returns (lower: int, upper: int)
    requires medians != [] && 0.0 <= alpha <= 0.5
    ensures HasRank(medians, LowerRank(|medians|, alpha), lower)
    ensures HasRank(medians, UpperRank(|medians|, alpha), upper)
    ensures lower in medians && upper in medians && lower <= upper
  {
    IntLeTotal();
    SortCorrect(medians, IntLe);
    var ordered := Sort(medians, IntLe);
    lower, upper := ReadInterval(ordered, alpha);
    BoundsHaveRanks(medians, ordered, LowerRank(|medians|, alpha), UpperRank(|medians|, alpha));
  }

  /** `bootstrap_ci_median` on the resamples its generator drew. The bounds are the medians of the two
      ranks, among the medians of the resamples; both are observed values in order. */
  method BootstrapMedian(vals: seq<int>, resamples: seq<seq<int>>, confidence: real)
    returns (bounds: Option<(int, int)>, ghost medians: seq<int>)
    requires |resamples| >= 1 && 0.0 <= confidence <= 1.0
    requires forall r :: r in resamples ==> IsResample(vals, r)
    ensures bounds.None? <==> vals == []
    ensures bounds.Some? ==> bounds.value.0 in vals && bounds.value.1 in vals && bounds.value.0 <= bounds.value.1
    ensures bounds.Some? ==> |medians| == |resamples|
    ensures bounds.Some? ==> forall k :: 0 <= k < |resamples| ==> HasRank(resamples[k], MedianRank(|vals|), medians[k])
    ensures bounds.Some? ==>
              && HasRank(medians, LowerRank(|resamples|, (1.0 - confidence) / 2.0), bounds.value.0)
              && HasRank(medians, UpperRank(|resamples|, (1.0 - confidence) / 2.0), bounds.value.1)
  {
    medians := [];
    if vals == [] {
      return None, [];
    }
    var found := ResampledMedians(vals, resamples);
    medians := found;
    var lower, upper := IntervalOf(found, (1.0 - confidence) / 2.0);
    bounds := Some((lower, upper));
  }

  lemma {:induction false} BoundsHaveRanks(medians: seq<int>, ordered: seq<int>, low: nat, high: nat)
    requires Sorted(ordered) && multiset(ordered) == multiset(medians) && low <= high < |ordered|
    ensures HasRank(medians, low, ordered[low]) && HasRank(medians, high, ordered[high]) && ordered[low] <= ordered[high]
    ensures ordered[low] in medians && ordered[high] in medians
  {
    RankInSorted(medians, ordered, low);
    RankInSorted(medians, ordered, high);
    SortedAt(ordered, low, high);
  }

  lemma ProductNotNegative(x: real, y: real)
    requires x >= 0.0 && y >= 0.0
    ensures x * y >= 0.0
  {
  }

  lemma Distributes(n: real, x: real, y: real)
    ensures n * (x - y) == n * x - n * y
  {
  }

  /** A share of at most one half and what remains, in order. */
  lemma SharesOrdered(n: real, alpha: real, low: real, high: real)
    requires n >= 0.0 && 0.0 <= alpha <= 0.5 && low == n * alpha && high == n * (1.0 - alpha)
    ensures 0.0 <= low <= high <= n
  {
    ProductNotNegative(n, alpha);
    ProductNotNegative(n, 0.5 - alpha);
    Distributes(n, 0.5, alpha);
    Distributes(n, 1.0, alpha);
  }

  lemma FloorMonotone(x: real, y: real)
    requires x <= y
    ensures x.Floor <= y.Floor
  {
  }

  lemma RanksOrdered(samples: nat, alpha: real)
    requires samples >= 1 && 0.0 <= alpha <= 0.5
    ensures 0 <= (samples as real * alpha).Floor <= (samples as real * (1.0 - alpha)).Floor <= samples
  {
    var n := samples as real;
    var low, high := n * alpha, n * (1.0 - alpha);
    SharesOrdered(n, alpha, low, high);
    FloorMonotone(0.0, low);
    FloorMonotone(low, high);
    FloorMonotone(high, n);
  }
}
