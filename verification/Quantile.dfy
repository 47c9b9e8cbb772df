/**
 Two independent histogram quantiles over cumulative bucket counts. A histogram is its finite upper
 bounds in ascending order and the cumulative counts, one more than the bounds: the last is +Inf's.
 */
module Quantile {
  import opened Options

  datatype Histogram = Histogram(bounds: seq<real>, counts: seq<real>) {
    /** Ascending bounds, cumulative counts, something observed. */
    ghost predicate Valid() {
      && |counts| == |bounds| + 1
      && (forall i, j | 0 <= i < j < |bounds| :: bounds[i] < bounds[j])
      && 0.0 <= counts[0] && (forall i, j | 0 <= i < j < |counts| :: counts[i] <= counts[j])
      && counts[|counts| - 1] > 0.0
    }

    /** The first bucket, if it holds anything, lies above 0, where the walk starts. */
    predicate Anchored()
      requires |counts| == |bounds| + 1
    {
      bounds == [] || 0.0 <= bounds[0] || counts[0] <= 0.0
    }

    function Total(): real
      requires counts != []
    {
      counts[|counts| - 1]
    }

    /** The lower bound of bucket `i`, and the count below it. */
    function Below(i: nat): real
      requires i <= |bounds|
    {
      if i == 0 then 0.0 else bounds[i - 1]
    }

    function CountBelow(i: nat): real
      requires i <= |counts|
    {
      if i == 0 then 0.0 else counts[i - 1]
    }
  }

  /** The first bucket from `i` on whose cumulative count reaches the rank; +Inf's if none does. */
  function Bucket(h: Histogram, rank: real, i: nat): (k: nat)
    requires |h.counts| == |h.bounds| + 1 && i <= |h.bounds|
    ensures i <= k <= |h.bounds|
    decreases |h.bounds| - i
  {
    if i == |h.bounds| || h.counts[i] >= rank then i else Bucket(h, rank, i + 1)
  }

  /** A point `x` of the way through a span of `s`, between `lo` and `hi`. */
  function Interpolate(lo: real, hi: real, x: real, s: real): real
    requires s > 0.0
  {
    lo + (hi - lo) * x / s
  }

  /** The value inside bucket `k` for `rank`: linear between its bounds, the top finite bound for +Inf. */
  function Value(h: Histogram, rank: real, k: nat): real
    requires |h.counts| == |h.bounds| + 1 && k <= |h.bounds|
  {
    if k == |h.bounds| then h.Below(k)
    else if h.counts[k] <= h.CountBelow(k) then h.bounds[k]
    else Interpolate(h.Below(k), h.bounds[k], rank - h.CountBelow(k), h.counts[k] - h.CountBelow(k))
  }

  function Rank(h: Histogram, q: real): real
    requires h.counts != []
  {
    q * h.Total()
  }

  /** The quantile both scripts are after: the top finite bound when no count reaches the rank. */
  function QuantileOf(h: Histogram, q: real): real
    requires |h.counts| == |h.bounds| + 1
  {
    Value(h, Rank(h, q), Bucket(h, Rank(h, q), 0))
  }

  // ------------------------------------------------------------------ the two loops

  /** An upper bound of a bucket, or a quantile. */
  datatype Bound = Finite(value: real) | Infinity

  /** The report's quantile: what the other script computes if some count reaches the rank, else infinity. */
  function ReportOf(h: Histogram, q: real): Bound
    requires |h.counts| == |h.bounds| + 1
  {
    if h.counts[Bucket(h, Rank(h, q), 0)] >= Rank(h, q) then Finite(QuantileOf(h, q)) else Infinity
  }

  /** The upper bound of pair `i`, +Inf's last, and the bound before it, 0 at first. */
  function Le(h: Histogram, i: nat): Bound
    requires i <= |h.bounds|
  {
    if i < |h.bounds| then Finite(h.bounds[i]) else Infinity
  }

  function LeBefore(h: Histogram, i: nat): Bound
    requires i <= |h.bounds| + 1
  {
    if i == 0 then Finite(0.0) else Le(h, i - 1)
  }

  /** The report's quantile; `None` when nothing was observed. */
  method HistQuantile(h: Histogram, q: real) returns (r: Option<Bound>)
    requires |h.counts| == |h.bounds| + 1
    ensures r == if h.Total() <= 0.0 then None else Some(ReportOf(h, q))
  {
    if h.Total() <= 0.0 { return None; }
    var target := Rank(h, q);
    var prevLe, prevC := Finite(0.0), 0.0;
    for i := 0 to |h.counts|
      invariant prevLe == LeBefore(h, i) && prevC == h.CountBelow(i)
      invariant i <= |h.bounds| ==> Bucket(h, target, 0) == Bucket(h, target, i)
      invariant i > |h.bounds| ==> Bucket(h, target, 0) == |h.bounds| && h.counts[|h.bounds|] < target
    {
      var le, c := Le(h, i), h.counts[i];
      if c >= target {
        if le.Infinity? { return Some(prevLe); }
        if c <= prevC { return Some(le); }
        assert QuantileOf(h, q) == Interpolate(prevLe.value, le.value, target - prevC, c - prevC);
        var v := prevLe.value + (le.value - prevLe.value) * (target - prevC) / (c - prevC);
        assert v == Interpolate(prevLe.value, le.value, target - prevC, c - prevC);
        return Some(Finite(v));
      }
      prevLe, prevC := le, c;
    }
    return Some(prevLe);
  }

  /** The A/B script's quantile, over the finite bounds only; 0 when nothing was observed. */
  method BucketQuantile(h: Histogram, q: real) returns (r: real)
    requires |h.counts| == |h.bounds| + 1
    ensures r == if h.Total() <= 0.0 then 0.0 else QuantileOf(h, q)
  {
    if h.Total() <= 0.0 { return 0.0; }
    var rank := Rank(h, q);
    var prevLe, prevCum := 0.0, 0.0;
    for i := 0 to |h.bounds|
      invariant prevLe == h.Below(i) && prevCum == h.CountBelow(i)
      invariant Bucket(h, rank, 0) == Bucket(h, rank, i)
    {
      var le, cum := h.bounds[i], h.counts[i];
      if cum >= rank {
        var width, span := le - prevLe, cum - prevCum;
        var frac := if span > 0.0 then (rank - prevCum) / span else 1.0;
        if span > 0.0 { FractionOfProduct(width, rank - prevCum, span); }
        return prevLe + frac * width;
      }
      prevLe, prevCum := le, cum;
    }
    return prevLe;
  }

  lemma FractionOfProduct(w: real, x: real, s: real)
    requires s > 0.0
    ensures w * x / s == x / s * w
  {
    var f := x / s;
    assert f * s == x;
    assert w * x == (f * w) * s;
  }

  // ------------------------------------------------------------------ what the value means

  lemma InterpolateWithin(lo: real, hi: real, x: real, s: real)
    requires lo <= hi && 0.0 <= x <= s && s > 0.0
    ensures lo <= Interpolate(lo, hi, x, s) <= hi
  {
    var w, f := hi - lo, x / s;
    FractionOfProduct(w, x, s);
    assert 0.0 <= f <= 1.0 by { assert f * s == x; }
    assert 0.0 <= f * w <= w;
  }

  lemma InterpolateMonotone(lo: real, hi: real, x: real, y: real, s: real)
    requires lo <= hi && x <= y && s > 0.0
    ensures Interpolate(lo, hi, x, s) <= Interpolate(lo, hi, y, s)
  {
    var w := hi - lo;
    FractionOfProduct(w, x, s);
    FractionOfProduct(w, y, s);
    var f, g := x / s, y / s;
    assert f <= g;
    assert f * w <= g * w;
  }

  /** The chosen bucket holds the rank: it reaches it, and the count below does not. */
  lemma {:induction false} BucketHolds(h: Histogram, rank: real, i: nat)
    requires h.Valid() && 0.0 <= rank <= h.Total() && i <= |h.bounds| && h.CountBelow(i) <= rank
    ensures var k := Bucket(h, rank, i); h.CountBelow(k) <= rank <= h.counts[k] && (k > i ==> h.counts[k - 1] < rank)
    decreases |h.bounds| - i
  {
    if i < |h.bounds| && h.counts[i] < rank { BucketHolds(h, rank, i + 1); }
  }

  // ------------------------------------------------------------------ when the two agree

  lemma RankAboveTotal(h: Histogram, q: real)
    requires h.counts != [] && h.Total() > 0.0
    ensures Rank(h, q) <= h.Total() <==> q <= 1.0
  {
    assert (q - 1.0) * h.Total() == Rank(h, q) - h.Total();
    Sign(q - 1.0, h.Total());
  }

  lemma Sign(x: real, t: real)
    requires t > 0.0
    ensures x * t <= 0.0 <==> x <= 0.0
  {
  }

  lemma {:induction false} BucketReaches(h: Histogram, rank: real, i: nat)
    requires h.Valid() && i <= |h.bounds|
    ensures h.counts[Bucket(h, rank, i)] >= rank <==> rank <= h.Total()
    decreases |h.bounds| - i
  {
    if i < |h.bounds| && h.counts[i] < rank { BucketReaches(h, rank, i + 1); }
  }

  /** With anything observed, the two scripts agree exactly up to q = 1; above it the report says infinity. */
  lemma QuantilesAgreeIff(h: Histogram, q: real)
    requires h.Valid()
    ensures ReportOf(h, q) == Finite(QuantileOf(h, q)) <==> q <= 1.0
    ensures q > 1.0 ==> ReportOf(h, q).Infinity? && QuantileOf(h, q) == h.Below(|h.bounds|)
  {
    hide Bucket, Value;
    RankAboveTotal(h, q);
    BucketReaches(h, Rank(h, q), 0);
    if q > 1.0 { LastBucket(h, Rank(h, q), 0); }
  }

  lemma {:induction false} LastBucket(h: Histogram, rank: real, i: nat)
    requires h.Valid() && i <= |h.bounds| && rank > h.Total()
    ensures Bucket(h, rank, i) == |h.bounds| && Value(h, rank, |h.bounds|) == h.Below(|h.bounds|)
    decreases |h.bounds| - i
  {
    if i < |h.bounds| { LastBucket(h, rank, i + 1); }
  }

  /** One observation below 1, asked for twice the total: infinity against the top finite bound 1. */
  lemma ReportGoesToInfinity()
    ensures var h := Histogram([1.0], [1.0, 1.0]); ReportOf(h, 2.0).Infinity? && QuantileOf(h, 2.0) == 1.0
  {
    var h := Histogram([1.0], [1.0, 1.0]);
    assert h.Valid() && h.Below(1) == 1.0;
    QuantilesAgreeIff(h, 2.0);
  }

  // ------------------------------------------------------------------ where the value lies

  /** The quantile lies in the bucket that holds its rank, so never above the top finite bound. */
  lemma InBucket(h: Histogram, rank: real)
    requires h.Valid() && h.Anchored() && 0.0 <= rank <= h.Total()
    ensures var k := Bucket(h, rank, 0);
      && h.CountBelow(k) <= rank <= h.counts[k]
      && (k > 0 || h.counts[0] > 0.0 ==> h.Below(k) <= Value(h, rank, k))
      && (k < |h.bounds| ==> Value(h, rank, k) <= h.bounds[k])
      && (h.bounds != [] ==> Value(h, rank, k) <= h.bounds[|h.bounds| - 1])
  {
    hide Interpolate;
    BucketHolds(h, rank, 0);
    var k := Bucket(h, rank, 0);
    if k < |h.bounds| && h.counts[k] > h.CountBelow(k) {
      InterpolateWithin(h.Below(k), h.bounds[k], rank - h.CountBelow(k), h.counts[k] - h.CountBelow(k));
    }
  }

  /** For every rank the value is at most the bound of the finite bucket that holds it. */
  ghost predicate NeverAboveBucket(h: Histogram)
    requires |h.counts| == |h.bounds| + 1
  {
    forall rank | 0.0 <= rank <= h.Total() ::
      Bucket(h, rank, 0) < |h.bounds| ==> Value(h, rank, Bucket(h, rank, 0)) <= h.bounds[Bucket(h, rank, 0)]
  }

  /** ... and at least the bound below. */
  ghost predicate AlwaysInBucket(h: Histogram)
    requires |h.counts| == |h.bounds| + 1
  {
    NeverAboveBucket(h) && forall rank | 0.0 <= rank <= h.Total() ::
      h.Below(Bucket(h, rank, 0)) <= Value(h, rank, Bucket(h, rank, 0))
  }

  /** For every rank the value is at most the top finite bound. */
  ghost predicate NeverAboveTop(h: Histogram)
    requires |h.counts| == |h.bounds| + 1 && h.bounds != []
  {
    forall rank | 0.0 <= rank <= h.Total() :: Value(h, rank, Bucket(h, rank, 0)) <= h.bounds[|h.bounds| - 1]
  }

  /** At rank 0 an unanchored histogram answers 0, above its first bucket; an empty first bucket answers its bound. */
  lemma ValueAtZero(h: Histogram)
    requires h.Valid() && h.bounds != []
    ensures Bucket(h, 0.0, 0) == 0
    ensures Value(h, 0.0, 0) == if h.counts[0] > 0.0 then 0.0 else h.bounds[0]
  {
    hide Interpolate;
    if h.counts[0] > 0.0 { InterpolateEnds(h.bounds[0], h.counts[0]); }
  }

  /** In an unanchored histogram the first bucket's values lie between its negative bound and 0. */
  lemma UnanchoredAtMost(h: Histogram, rank: real)
    requires h.Valid() && !h.Anchored() && 0.0 <= rank <= h.Total() && 0.0 <= h.bounds[|h.bounds| - 1]
    ensures Value(h, rank, Bucket(h, rank, 0)) <= h.bounds[|h.bounds| - 1]
  {
    hide Interpolate;
    BucketHolds(h, rank, 0);
    var k := Bucket(h, rank, 0);
    if k < |h.bounds| && h.counts[k] > h.CountBelow(k) {
      if k == 0 {
        InterpolateDown(h.bounds[0], rank, h.counts[0]);
      } else {
        InterpolateWithin(h.Below(k), h.bounds[k], rank - h.CountBelow(k), h.counts[k] - h.CountBelow(k));
      }
    }
  }

  lemma InterpolateDown(hi: real, x: real, s: real)
    requires hi <= 0.0 && 0.0 <= x <= s && s > 0.0
    ensures Interpolate(0.0, hi, x, s) <= 0.0
  {
    FractionOfProduct(hi, x, s);
    var f := x / s;
    assert f * s == x;
    assert f >= 0.0;
    assert f * hi <= 0.0;
  }

  /**
   Where the quantile lies, exactly: at or below its bucket's bound for every rank if and only if
   anchored; inside its bucket if and only if the first bound is not negative; and at or below the
   top finite bound if and only if anchored or that bound is not negative.
   */
  lemma InBucketIff(h: Histogram)
    requires h.Valid()
    ensures NeverAboveBucket(h) <==> h.Anchored()
    ensures AlwaysInBucket(h) <==> h.bounds == [] || 0.0 <= h.bounds[0]
    ensures h.bounds != [] ==> (NeverAboveTop(h) <==> h.Anchored() || 0.0 <= h.bounds[|h.bounds| - 1])
  {
    hide Value, Bucket;
    assert 0.0 <= 0.0 <= h.Total();
    if h.bounds != [] { ValueAtZero(h); }
    forall rank | 0.0 <= rank <= h.Total()
      ensures h.Anchored() ==> InBucketAt(h, rank)
      ensures h.bounds != [] && !h.Anchored() && 0.0 <= h.bounds[|h.bounds| - 1] ==>
        Value(h, rank, Bucket(h, rank, 0)) <= h.bounds[|h.bounds| - 1]
    {
      if h.Anchored() {
        InBucket(h, rank);
        if h.bounds == [] { EmptyBounds(h, rank); }
      } else if 0.0 <= h.bounds[|h.bounds| - 1] {
        UnanchoredAtMost(h, rank);
      }
    }
  }

  ghost predicate InBucketAt(h: Histogram, rank: real)
    requires |h.counts| == |h.bounds| + 1
  {
    var k := Bucket(h, rank, 0);
    && (k < |h.bounds| ==> Value(h, rank, k) <= h.bounds[k])
    && (h.bounds == [] || 0.0 <= h.bounds[0] ==> h.Below(k) <= Value(h, rank, k))
    && (h.bounds != [] ==> Value(h, rank, k) <= h.bounds[|h.bounds| - 1])
  }

  lemma EmptyBounds(h: Histogram, rank: real)
    requires |h.counts| == 1 && h.bounds == []
    ensures Value(h, rank, Bucket(h, rank, 0)) == h.Below(0)
  {
  }

  lemma {:induction false} BucketMonotone(h: Histogram, r1: real, r2: real, i: nat)
    requires |h.counts| == |h.bounds| + 1 && i <= |h.bounds| && r1 <= r2
    ensures Bucket(h, r1, i) <= Bucket(h, r2, i)
    decreases |h.bounds| - i
  {
    if i < |h.bounds| && h.counts[i] < r1 { BucketMonotone(h, r1, r2, i + 1); }
  }

  /** The quantile is monotone in the rank, across buckets too. */
  lemma MonotoneInRank(h: Histogram, r1: real, r2: real)
    requires h.Valid() && h.Anchored() && 0.0 <= r1 <= r2 <= h.Total()
    ensures Value(h, r1, Bucket(h, r1, 0)) <= Value(h, r2, Bucket(h, r2, 0))
  {
    hide Interpolate, Bucket;
    InBucket(h, r1);
    InBucket(h, r2);
    BucketMonotone(h, r1, r2, 0);
    var k := Bucket(h, r1, 0);
    if k == Bucket(h, r2, 0) && k < |h.bounds| && h.counts[k] > h.CountBelow(k) {
      InterpolateMonotone(h.Below(k), h.bounds[k], r1 - h.CountBelow(k), r2 - h.CountBelow(k),
          h.counts[k] - h.CountBelow(k));
    }
  }

  lemma Scaled(p: real, q: real, t: real)
    requires 0.0 <= p <= q <= 1.0 && t > 0.0
    ensures 0.0 <= p * t <= q * t <= t
  {
    assert (q - p) * t >= 0.0 && (1.0 - q) * t >= 0.0 && p * t >= 0.0;
  }

  lemma Quotient(c: real, t: real)
    requires 0.0 <= c <= t && t > 0.0
    ensures 0.0 <= c / t <= 1.0 && c / t * t == c
  {
    var q := c / t;
    assert q * t == c;
  }

  lemma RankMonotone(h: Histogram, p: real, q: real)
    requires h.counts != [] && h.Total() > 0.0 && 0.0 <= p <= q <= 1.0
    ensures 0.0 <= Rank(h, p) <= Rank(h, q) <= h.Total()
  {
    Scaled(p, q, h.Total());
  }

  lemma RankBack(h: Histogram)
    requires h.counts != [] && 0.0 <= h.counts[0] <= h.Total() && h.Total() > 0.0
    ensures 0.0 <= h.counts[0] / h.Total() <= 1.0
    ensures Rank(h, h.counts[0] / h.Total()) == h.counts[0] && Rank(h, 0.0) == 0.0
  {
    Quotient(h.counts[0], h.Total());
  }

  lemma MonotoneAt(h: Histogram, p: real, q: real)
    requires h.Valid() && h.Anchored() && 0.0 <= p <= q <= 1.0
    ensures QuantileOf(h, p) <= QuantileOf(h, q)
  {
    hide Value, Bucket, Rank;
    RankMonotone(h, p, q);
    MonotoneInRank(h, Rank(h, p), Rank(h, q));
  }

  ghost predicate MonotoneInQ(h: Histogram)
    requires |h.counts| == |h.bounds| + 1
  {
    forall p, q | 0.0 <= p <= q <= 1.0 :: QuantileOf(h, p) <= QuantileOf(h, q)
  }

  /** The quantile is monotone in q exactly when the first non-empty reading does not go below 0. */
  lemma MonotoneIffAnchored(h: Histogram)
    requires h.Valid()
    ensures MonotoneInQ(h) <==> h.Anchored()
  {
    hide QuantileOf;
    if h.Anchored() {
      forall p, q | 0.0 <= p <= q <= 1.0 ensures QuantileOf(h, p) <= QuantileOf(h, q) {
        MonotoneAt(h, p, q);
      }
    } else {
      FallsInFirstBucket(h);
      assert QuantileOf(h, 0.0) > QuantileOf(h, h.counts[0] / h.Total());
    }
  }

  /** Not anchored: the quantile starts at 0 and falls to the first, negative, bound. */
  lemma FallsInFirstBucket(h: Histogram)
    requires h.Valid() && !h.Anchored()
    ensures 0.0 <= h.counts[0] / h.Total() <= 1.0
    ensures QuantileOf(h, 0.0) == 0.0 && QuantileOf(h, h.counts[0] / h.Total()) == h.bounds[0]
  {
    hide Interpolate, Rank;
    var s := h.counts[0];
    RankBack(h);
    InterpolateEnds(h.bounds[0], s);
    assert Bucket(h, 0.0, 0) == 0 && Bucket(h, s, 0) == 0;
    assert Value(h, 0.0, 0) == Interpolate(0.0, h.bounds[0], 0.0, s);
    assert Value(h, s, 0) == Interpolate(0.0, h.bounds[0], s, s);
  }

  lemma InterpolateEnds(hi: real, s: real)
    requires s > 0.0
    ensures Interpolate(0.0, hi, 0.0, s) == 0.0 && Interpolate(0.0, hi, s, s) == hi
  {
    FractionOfProduct(hi, s, s);
  }
}
