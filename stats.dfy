/**
 * The statistics helpers both metrics calculators use: sum, mean, sample
 * variance, rank-interpolated percentile and the ascending sort the
 * calculators apply before taking percentiles. Reaction times are `real`s;
 * the square root that turns the variance into a standard deviation is not
 * part of this model.
 */
module Stats {

  /** Number of elements satisfying `p`; both metrics files count trials of a kind this way. */
  function Count<T>(ts: seq<T>, p: T -> bool): (n: nat)
    ensures n <= |ts|
  {
    if ts == [] then 0 else Count(ts[..|ts| - 1], p) + (if p(ts[|ts| - 1]) then 1 else 0)
  }

  function Sum(s: seq<real>): real {
    if s == [] then 0.0 else Sum(s[..|s| - 1]) + s[|s| - 1]
  }

  /** Arithmetic mean; 0 for an empty list. */
  function Mean(s: seq<real>): (r: real)
    ensures s == [] ==> r == 0.0
  {
    if s == [] then 0.0 else Sum(s) / (|s| as real)
  }

  /** The mean times the count is the sum. */
  lemma MeanTimesCount(s: seq<real>)
    requires s != []
    ensures Mean(s) * (|s| as real) == Sum(s)
  {
  }

  /** Sum of squared deviations from `m`. */
  function SquaredDeviations(s: seq<real>, m: real): (r: real)
    ensures r >= 0.0
  {
    if s == [] then 0.0
    else
      var d := s[|s| - 1] - m;
      SquaredDeviations(s[..|s| - 1], m) + d * d
  }

  /**
   * Sample variance around the given mean, divided by n - 1; 0 when there
   * are fewer than two values. The source reports its square root.
   */
  function Variance(s: seq<real>, m: real): (r: real)
    ensures |s| < 2 ==> r == 0.0
    ensures r >= 0.0
  {
    if |s| < 2 then 0.0
    else
      FractionBounds(0.0, 1.0);
      var d := (|s| - 1) as real;
      assert SquaredDeviations(s, m) / d >= 0.0 by {
        assert SquaredDeviations(s, m) >= 0.0 && d > 0.0;
      }
      SquaredDeviations(s, m) / d
  }

  lemma {:induction false} VarianceOfConstant(s: seq<real>, c: real)
    requires forall i :: 0 <= i < |s| ==> s[i] == c
    ensures Variance(s, c) == 0.0
  {
    SquaredDeviationsOfConstant(s, c);
  }

  lemma {:induction false} SquaredDeviationsOfConstant(s: seq<real>, c: real)
    requires forall i :: 0 <= i < |s| ==> s[i] == c
    ensures SquaredDeviations(s, c) == 0.0
  {
    if s != [] {
      SquaredDeviationsOfConstant(s[..|s| - 1], c);
    }
  }

  predicate Sorted(s: seq<real>) {
    forall i, j :: 0 <= i <= j < |s| ==> s[i] <= s[j]
  }

  function Clamp01(p: real): (r: real)
    ensures 0.0 <= r <= 1.0
    ensures 0.0 <= p <= 1.0 ==> r == p
  {
    if p < 0.0 then 0.0 else if p > 1.0 then 1.0 else p
  }

  function Ceil(x: real): int {
    -((-x).Floor)
  }

  /** The fractional rank `clamp(pct, 0, 1) * (n - 1)` the percentile interpolates at. */
  function Rank(n: nat, pct: real): (r: real)
    requires n >= 1
    ensures 0.0 <= r <= (n - 1) as real
  {
    var c := Clamp01(pct);
    assert c * ((n - 1) as real) <= 1.0 * ((n - 1) as real);
    c * ((n - 1) as real)
  }

  lemma RankBounds(n: nat, pct: real)
    requires n >= 1
    ensures 0 <= Rank(n, pct).Floor <= Ceil(Rank(n, pct)) <= n - 1
    ensures Ceil(Rank(n, pct)) <= Rank(n, pct).Floor + 1
  {
  }

  /**
   * Percentile of a sorted list by linear interpolation between the values
   * at the floor and the ceiling of the rank; 0 for an empty list and the
   * sole value for a list of one.
   */
  function Percentile(sorted: seq<real>, pct: real): (r: real)
    ensures sorted == [] ==> r == 0.0
    ensures |sorted| == 1 ==> r == sorted[0]
  {
    if sorted == [] then 0.0
    else if |sorted| == 1 then sorted[0]
    else
      var rank := Rank(|sorted|, pct);
      RankBounds(|sorted|, pct);
      var lower := rank.Floor;
      var upper := Ceil(rank);
      if lower == upper then sorted[lower]
      else sorted[lower] + (sorted[upper] - sorted[lower]) * (rank - lower as real)
  }

  /** For sorted input the percentile lies between the values at the floor and ceiling ranks. */
  lemma PercentileBetweenNeighbours(sorted: seq<real>, pct: real)
    requires Sorted(sorted) && |sorted| >= 2
    ensures var rank := Rank(|sorted|, pct);
      0 <= rank.Floor <= Ceil(rank) < |sorted|
      && sorted[rank.Floor] <= Percentile(sorted, pct) <= sorted[Ceil(rank)]
  {
    var rank := Rank(|sorted|, pct);
    RankBounds(|sorted|, pct);
    var lower, upper := rank.Floor, Ceil(rank);
    if lower != upper {
      var w := rank - lower as real;
      assert 0.0 <= w <= 1.0;
      assert sorted[lower] <= sorted[upper];
      assert Percentile(sorted, pct) == sorted[lower] + (sorted[upper] - sorted[lower]) * w;
      Interpolate(sorted[lower], sorted[upper], w);
    }
  }

  /** Linear interpolation with a weight in [0, 1] stays between its two ends. */
  lemma Interpolate(lo: real, hi: real, w: real)
    requires lo <= hi && 0.0 <= w <= 1.0
    ensures lo <= lo + (hi - lo) * w <= hi
  {
    MulMonotone(0.0, w, hi - lo);
    MulMonotone(w, 1.0, hi - lo);
  }

  /** A larger weight interpolates to a larger value. */
  lemma InterpolateMonotone(lo: real, hi: real, w1: real, w2: real)
    requires lo <= hi && w1 <= w2
    ensures lo + (hi - lo) * w1 <= lo + (hi - lo) * w2
  {
    MulMonotone(w1, w2, hi - lo);
  }

  /** A quotient of a non-negative numerator by a larger denominator lies in [0, 1]. */
  lemma FractionBounds(a: real, b: real)
    requires 0.0 <= a <= b && b > 0.0
    ensures 0.0 <= a / b <= 1.0
    ensures a < b ==> a / b < 1.0
    ensures a > 0.0 ==> a / b > 0.0
  {
    var r := a / b;
    assert r * b == a;
    if r > 1.0 {
      MulMonotone(1.0, r, b);
    }
    if a < b && r >= 1.0 {
      MulMonotone(1.0, r, b);
    }
    if r < 0.0 {
      MulMonotone(r, 0.0, b);
    }
    if a > 0.0 && r <= 0.0 {
      MulMonotone(r, 0.0, b);
    }
  }

  lemma MulMonotone(a: real, b: real, k: real)
    requires a <= b && k >= 0.0
    ensures a * k <= b * k
  {
    assert (b - a) * k >= 0.0;
  }

  lemma RankMonotone(n: nat, p: real, q: real)
    requires n >= 1 && p <= q
    ensures Rank(n, p) <= Rank(n, q)
  {
    MulMonotone(Clamp01(p), Clamp01(q), (n - 1) as real);
  }

  /** Two ranks strictly inside the same gap interpolate in order. */
  lemma SameGapMonotone(sorted: seq<real>, p: real, q: real)
    requires Sorted(sorted) && |sorted| >= 2
    requires Rank(|sorted|, p) <= Rank(|sorted|, q)
    requires Rank(|sorted|, p).Floor == Rank(|sorted|, q).Floor
    requires Ceil(Rank(|sorted|, p)) != Rank(|sorted|, p).Floor
    ensures Percentile(sorted, p) <= Percentile(sorted, q)
  {
    var n := |sorted|;
    var r1, r2 := Rank(n, p), Rank(n, q);
    RankBounds(n, p);
    RankBounds(n, q);
    var l := r1.Floor;
    assert Ceil(r1) == l + 1 && Ceil(r2) == l + 1;
    InterpolateMonotone(sorted[l], sorted[l + 1], r1 - l as real, r2 - l as real);
  }

  /** For sorted input the percentile is weakly increasing in `pct`. */
  lemma PercentileMonotone(sorted: seq<real>, p: real, q: real)
    requires Sorted(sorted)
    requires p <= q
    ensures Percentile(sorted, p) <= Percentile(sorted, q)
  {
    if |sorted| >= 2 {
      var n := |sorted|;
      var r1, r2 := Rank(n, p), Rank(n, q);
      RankMonotone(n, p, q);
      RankBounds(n, p);
      RankBounds(n, q);
      var l1, l2 := r1.Floor, r2.Floor;
      if l1 == l2 && Ceil(r1) != l1 {
        SameGapMonotone(sorted, p, q);
      } else {
        PercentileBetweenNeighbours(sorted, p);
        PercentileBetweenNeighbours(sorted, q);
        assert Ceil(r1) <= l2;
        assert sorted[Ceil(r1)] <= sorted[l2];
      }
    }
  }

  /** The quartile example: sorted [300, 400, 500, 600] gives p50 = 450, p10 = 330, p90 = 570. */
  lemma PercentileExample()
    ensures Percentile([300.0, 400.0, 500.0, 600.0], 0.5) == 450.0
    ensures Percentile([300.0, 400.0, 500.0, 600.0], 0.1) == 330.0
    ensures Percentile([300.0, 400.0, 500.0, 600.0], 0.9) == 570.0
  {
    assert (1.5).Floor == 1 && Ceil(1.5) == 2;
    assert (0.3).Floor == 0 && Ceil(0.3) == 1;
    assert (2.7).Floor == 2 && Ceil(2.7) == 3;
  }

  // ---- ascending sort (`sort_by(partial_cmp)`) ----

  function Insert(x: real, s: seq<real>): (r: seq<real>)
    ensures multiset(r) == multiset(s) + multiset{x}
    ensures |r| == |s| + 1
  {
    if s == [] || x <= s[0] then [x] + s
    else
      assert s == [s[0]] + s[1..];
      [s[0]] + Insert(x, s[1..])
  }

  lemma {:induction false} InsertSorted(x: real, s: seq<real>)
    requires Sorted(s)
    ensures Sorted(Insert(x, s))
  {
    if s != [] && x > s[0] {
      InsertSorted(x, s[1..]);
      var t := Insert(x, s[1..]);
      assert forall k :: 0 <= k < |t| ==> s[0] <= t[k] by {
        forall k | 0 <= k < |t| ensures s[0] <= t[k] {
          assert t[k] in multiset(t);
          assert t[k] in multiset(s[1..]) + multiset{x};
          if t[k] in multiset(s[1..]) {
            var m :| 0 <= m < |s[1..]| && s[1..][m] == t[k];
            assert s[m + 1] == t[k];
          }
        }
      }
    }
  }

  /** The ascending order of the values (insertion sort; the source uses the library sort). */
  function SortAscending(s: seq<real>): (r: seq<real>)
    ensures multiset(r) == multiset(s)
    ensures |r| == |s|
  {
    if s == [] then []
    else
      assert s == [s[0]] + s[1..];
      Insert(s[0], SortAscending(s[1..]))
  }

  lemma {:induction false} SortAscendingSorted(s: seq<real>)
    ensures Sorted(SortAscending(s))
  {
    if s != [] {
      SortAscendingSorted(s[1..]);
      InsertSorted(s[0], SortAscending(s[1..]));
    }
  }
}
