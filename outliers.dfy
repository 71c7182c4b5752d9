/**
 * `extract_outliers`: the interquartile-range outlier test.
 *
 * The quartiles are numpy's default ("linear") percentiles: sort the data into
 * `x`; for percentile `p` let `h = (n - 1) * p / 100`; the percentile is
 * `x[floor(h)] + (h - floor(h)) * (x[floor(h) + 1] - x[floor(h)])`.  Values are
 * integers and `h` is rational, so exact `real` arithmetic is used throughout.
 */
module Outliers {
  import opened Wrappers

  predicate Sorted(s: seq<int>) {
    forall i, j :: 0 <= i < j < |s| ==> s[i] <= s[j]
  }

  function Insert(x: int, s: seq<int>): (r: seq<int>)
    requires Sorted(s)
    ensures Sorted(r)
    ensures multiset(r) == multiset(s) + multiset{x}
    ensures |r| == |s| + 1 && r[0] == if s != [] && s[0] < x then s[0] else x
  {
    if s == [] || x <= s[0] then [x] + s
    else
      assert s == [s[0]] + s[1..];
      [s[0]] + Insert(x, s[1..])
  }

  /** The ascending order numpy works on; a permutation of the input. */
  function Sort(s: seq<int>): (r: seq<int>)
    ensures Sorted(r)
    ensures multiset(r) == multiset(s)
    ensures |r| == |s|
  {
    if s == [] then []
    else
      assert s == [s[0]] + s[1..];
      Insert(s[0], Sort(s[1..]))
  }

  /** The integer part of `h = (n - 1) * p / 100`. */
  function Rank(n: nat, p: nat): int {
    ((n - 1) * p) / 100
  }

  /** The fractional part of `h`, `h - floor(h)`. */
  function Fraction(n: nat, p: nat): real {
    (((n - 1) * p) % 100) as real / 100.0
  }

  /** `floor(h)` is a valid index, the fraction lies in `[0, 1)`, and at the last
      index the fraction is zero. */
  lemma RankBound(n: nat, p: nat)
    requires n > 0 && p <= 100
    ensures 0 <= Rank(n, p) < n
    ensures Rank(n, p) + 1 == n ==> Fraction(n, p) == 0.0
    ensures 0.0 <= Fraction(n, p) < 1.0
  {
    var m: nat := n - 1;
    var a := m * p;
    assert a >= 0 && a <= 100 * m by {
      assert 100 * m - a == m * (100 - p);
      MulNonNegative(m, 100 - p);
      MulNonNegative(m, p);
    }
    var q, r := a / 100, a % 100;
    assert a == 100 * q + r && 0 <= r < 100;
    assert 0 <= q <= m;
    if q == m {
      assert r == 0;
    }
  }

  lemma MulNonNegative(a: int, b: int)
    requires a >= 0 && b >= 0
    ensures a * b >= 0
  {
  }

  /** The percentile at `p` of the sorted data `x` by linear interpolation. */
  function Percentile(x: seq<int>, p: nat): real
    requires |x| > 0 && p <= 100
  {
    RankBound(|x|, p);
    var k := Rank(|x|, p);
    var f := Fraction(|x|, p);
    if k + 1 < |x| then x[k] as real + f * (x[k + 1] - x[k]) as real else x[k] as real
  }

  /** The interpolated value lies between its two neighbouring order statistics. */
  lemma PercentileBetween(x: seq<int>, p: nat)
    requires Sorted(x) && |x| > 0 && p <= 100
    ensures x[Rank(|x|, p)] as real <= Percentile(x, p)
    ensures Rank(|x|, p) + 1 < |x| ==> Percentile(x, p) <= x[Rank(|x|, p) + 1] as real
    ensures Rank(|x|, p) + 1 == |x| ==> Percentile(x, p) == x[Rank(|x|, p)] as real
  {
    RankBound(|x|, p);
    var k := Rank(|x|, p);
    if k + 1 < |x| {
      var f, d := Fraction(|x|, p), (x[k + 1] - x[k]) as real;
      assert 0.0 <= f * d;
      assert f * d <= d by {
        assert (1.0 - f) * d >= 0.0;
      }
    }
  }

  /** A larger percentile has a rank at least as large, and at an equal rank a
      fraction at least as large. */
  lemma RankMonotone(n: nat, p1: nat, p2: nat)
    requires n > 0 && p1 <= p2 <= 100
    ensures Rank(n, p1) <= Rank(n, p2)
    ensures Rank(n, p1) == Rank(n, p2) ==> Fraction(n, p1) <= Fraction(n, p2)
  {
    var a1, a2 := (n - 1) * p1, (n - 1) * p2;
    assert a1 <= a2 by {
      assert a2 - a1 == (n - 1) * (p2 - p1);
      MulNonNegative(n - 1, p2 - p1);
    }
    assert a1 == 100 * (a1 / 100) + a1 % 100 && a2 == 100 * (a2 / 100) + a2 % 100;
  }

  lemma ScaleMonotone(f1: real, f2: real, d: real)
    requires f1 <= f2 && d >= 0.0
    ensures f1 * d <= f2 * d
  {
    assert (f2 - f1) * d >= 0.0;
  }

  /** Under the linear method a larger percentile is never smaller. */
  lemma PercentileMonotone(x: seq<int>, p1: nat, p2: nat)
    requires Sorted(x) && |x| > 0 && p1 <= p2 <= 100
    ensures Percentile(x, p1) <= Percentile(x, p2)
  {
    var n := |x|;
    RankBound(n, p1);
    RankBound(n, p2);
    RankMonotone(n, p1, p2);
    PercentileBetween(x, p1);
    PercentileBetween(x, p2);
    var k1, k2 := Rank(n, p1), Rank(n, p2);
    if k1 < k2 {
      assert x[k1 + 1] <= x[k2];
    } else if k1 + 1 < n {
      ScaleMonotone(Fraction(n, p1), Fraction(n, p2), (x[k1 + 1] - x[k1]) as real);
    }
  }

  /** Every percentile lies between the smallest and the largest value. */
  lemma PercentileRange(x: seq<int>, p: nat)
    requires Sorted(x) && |x| > 0 && p <= 100
    ensures x[0] as real <= Percentile(x, p) <= x[|x| - 1] as real
  {
    PercentileBetween(x, p);
    RankBound(|x|, p);
  }

  /** `Q1, Q3 = np.percentile(data, [25, 75])`. */
  function Quartiles(data: seq<int>): (real, real)
    requires |data| > 0
  {
    var x := Sort(data);
    (Percentile(x, 25), Percentile(x, 75))
  }

  /** `Q1 - 1.5 * IQR` and `Q3 + 1.5 * IQR`. */
  function Fences(data: seq<int>): (real, real)
    requires |data| > 0
  {
    var (q1, q3) := Quartiles(data);
    var iqr := q3 - q1;
    (q1 - 1.5 * iqr, q3 + 1.5 * iqr)
  }

  predicate Outside(v: int, lower: real, upper: real) {
    (v as real) < lower || (v as real) > upper
  }

  predicate StrictlyIncreasing(s: seq<nat>) {
    forall a, b :: 0 <= a < b < |s| ==> s[a] < s[b]
  }

  /** `np.where((data < lower) | (data > upper))[0]` restricted to positions `from..`. */
  function OutsideIndices(data: seq<int>, lower: real, upper: real, from: nat): (r: seq<nat>)
    requires from <= |data|
    ensures StrictlyIncreasing(r)
    ensures forall k :: 0 <= k < |r| ==> from <= r[k] < |data|
    ensures forall i :: from <= i < |data| ==> (i in r <==> Outside(data[i], lower, upper))
    ensures (forall i :: from <= i < |data| ==> !Outside(data[i], lower, upper)) ==> r == []
    decreases |data| - from
  {
    if from == |data| then []
    else
      var rest := OutsideIndices(data, lower, upper, from + 1);
      if Outside(data[from], lower, upper) then [from] + rest else rest
  }

  /** The pair `(outlier_indices, outliers)`. */
  datatype Report = Report(indices: seq<nat>, values: seq<int>)

  /** `extract_outliers`.  numpy raises on an empty array, so the empty series has
      no report.  Otherwise the indices, in increasing order, are exactly the
      positions whose value lies strictly outside the fences, and the values are
      the data at those positions. */
  function ExtractOutliers(data: seq<int>): (r: Option<Report>)
    ensures r.None? <==> data == []
    ensures r.Some? ==> |r.value.indices| == |r.value.values|
    ensures r.Some? ==> StrictlyIncreasing(r.value.indices)
    ensures r.Some? ==> forall k :: 0 <= k < |r.value.indices| ==>
              r.value.indices[k] < |data| && r.value.values[k] == data[r.value.indices[k]]
    ensures r.Some? ==> forall i :: 0 <= i < |data| ==>
              (i in r.value.indices <==> Outside(data[i], Fences(data).0, Fences(data).1))
  {
    if data == [] then None
    else
      var (lower, upper) := Fences(data);
      var idx := OutsideIndices(data, lower, upper, 0);
      Some(Report(idx, seq(|idx|, k requires 0 <= k < |idx| => data[idx[k]])))
  }

  /** `Q1 <= Q3`, so the interquartile range is never negative, and both quartiles
      lie within the range of the data. */
  lemma QuartilesOrdered(data: seq<int>)
    requires |data| > 0
    ensures Quartiles(data).0 <= Quartiles(data).1
    ensures Fences(data).0 <= Quartiles(data).0 && Quartiles(data).1 <= Fences(data).1
  {
    PercentileMonotone(Sort(data), 25, 75);
  }

  /** No value between the two quartiles is ever reported. */
  lemma InterquartileNotFlagged(data: seq<int>, i: nat)
    requires i < |data|
    requires Quartiles(data).0 <= data[i] as real <= Quartiles(data).1
    ensures ExtractOutliers(data).Some?
    ensures i !in ExtractOutliers(data).value.indices
  {
    QuartilesOrdered(data);
  }

  /** A constant series has no outliers. */
  lemma ConstantSeriesNoOutliers(data: seq<int>, c: int)
    requires |data| > 0
    requires forall i :: 0 <= i < |data| ==> data[i] == c
    ensures ExtractOutliers(data) == Some(Report([], []))
  {
    var x := Sort(data);
    forall k | 0 <= k < |x| ensures x[k] == c {
      assert x[k] in multiset(x);
      assert x[k] in multiset(data);
    }
    PercentileRange(x, 25);
    PercentileRange(x, 75);
    assert Fences(data) == (c as real, c as real);
    var r := ExtractOutliers(data).value;
    assert forall i :: 0 <= i < |data| ==> !Outside(data[i], c as real, c as real);
    assert |r.values| == 0;
  }
}
