/**
 * The match analysis at the end of `main`: up to five windows of five seconds are
 * compared between the new recording and the stored reference, and the first
 * window with at least four common points is a match.  The random start index of
 * each trial is supplied by the caller.
 */
module Matcher {
  import Acquisition

  /** `window_size = int(5 * sampling_rate)`. */
  const WindowSize: nat := 5 * Acquisition.SamplingRate
  const Tolerance: int := 3
  /** The closed exclusion band `[279, 283]`. */
  const BandLow: int := 279
  const BandHigh: int := 283
  const Trials: nat := 5
  const MinCommon: nat := 4

  function Abs(x: int): nat {
    if x < 0 then -x else x
  }

  predicate InBand(v: int) {
    BandLow <= v <= BandHigh
  }

  /** One position of the `common_points` mask. */
  predicate IsCommon(c: int, r: int) {
    Abs(c - r) <= Tolerance && !InBand(c) && !InBand(r)
  }

  /** The boolean `common_points` array for two windows of equal length. */
  function CommonMask(cur: seq<int>, ref: seq<int>): (m: seq<bool>)
    requires |cur| == |ref|
    ensures |m| == |cur|
    ensures forall i :: 0 <= i < |m| ==> (m[i] <==> IsCommon(cur[i], ref[i]))
  {
    seq(|cur|, i requires 0 <= i < |cur| => IsCommon(cur[i], ref[i]))
  }

  /** `np.sum` over a boolean array. */
  function CountTrue(m: seq<bool>): nat {
    if m == [] then 0 else CountTrue(m[..|m| - 1]) + (if m[|m| - 1] then 1 else 0)
  }

  /** The count lies between none and all positions, reaching all exactly when every
      position is set and none exactly when no position is. */
  lemma {:induction false} CountTrueBounds(m: seq<bool>)
    ensures CountTrue(m) <= |m|
    ensures CountTrue(m) == |m| <==> forall i :: 0 <= i < |m| ==> m[i]
    ensures CountTrue(m) == 0 <==> forall i :: 0 <= i < |m| ==> !m[i]
  {
    if m != [] {
      var init := m[..|m| - 1];
      CountTrueBounds(init);
      assert forall i :: 0 <= i < |init| ==> init[i] == m[i];
    }
  }

  /** The sum of a boolean array is the number of positions at which it is set. */
  lemma {:induction false} CountTrueIsCardinality(m: seq<bool>)
    ensures CountTrue(m) == |set i | 0 <= i < |m| && m[i]|
  {
    if m != [] {
      var n := |m| - 1;
      var init := m[..n];
      CountTrueIsCardinality(init);
      var before := set i | 0 <= i < |init| && init[i];
      assert before == set i | 0 <= i < n && m[i];
      if m[n] {
        assert (set i | 0 <= i < |m| && m[i]) == before + {n};
        assert n !in before;
      } else {
        assert (set i | 0 <= i < |m| && m[i]) == before;
      }
    }
  }

  /** `np.sum(common_points)` for two aligned windows. */
  function CommonPoints(cur: seq<int>, ref: seq<int>): nat
    requires |cur| == |ref|
  {
    CountTrue(CommonMask(cur, ref))
  }

  /** The common count is the number of positions that are within tolerance and
      outside the exclusion band in both windows. */
  lemma CommonPointsCountsPositions(cur: seq<int>, ref: seq<int>)
    requires |cur| == |ref|
    ensures CommonPoints(cur, ref) == |set i | 0 <= i < |cur| && IsCommon(cur[i], ref[i])|
  {
    var m := CommonMask(cur, ref);
    CountTrueIsCardinality(m);
    assert (set i | 0 <= i < |m| && m[i]) == set i | 0 <= i < |cur| && IsCommon(cur[i], ref[i]);
  }

  /** The common count never exceeds the window length; it equals the length exactly
      when every position is common, and is zero exactly when none is. */
  lemma CommonPointsBounds(cur: seq<int>, ref: seq<int>)
    requires |cur| == |ref|
    ensures CommonPoints(cur, ref) <= |cur|
    ensures CommonPoints(cur, ref) == |cur| <==> forall i :: 0 <= i < |cur| ==> IsCommon(cur[i], ref[i])
    ensures CommonPoints(cur, ref) == 0 <==> forall i :: 0 <= i < |cur| ==> !IsCommon(cur[i], ref[i])
  {
    CountTrueBounds(CommonMask(cur, ref));
  }

  /** Identical windows with no value in the exclusion band are common at every position. */
  lemma IdenticalWindows(w: seq<int>)
    requires forall i :: 0 <= i < |w| ==> !InBand(w[i])
    ensures CommonPoints(w, w) == |w|
  {
    CommonPointsBounds(w, w);
  }

  /** The worked scenario: positions 0 and 1 are common, position 2 is masked by the
      band and position 3 differs by 4. */
  lemma ScenarioTwoCommon()
    ensures CommonPoints([100, 101, 280, 99], [102, 100, 281, 95]) == 2
  {
    var m := CommonMask([100, 101, 280, 99], [102, 100, 281, 95]);
    assert m == [true, true, false, false];
    assert m[..3] == [true, true, false] && m[..3][..2] == [true, true];
    assert m[..3][..2][..1] == [true] && m[..3][..2][..1][..0] == [];
    assert CountTrue([true]) == 1;
    assert CountTrue([true, true]) == 2;
    assert CountTrue([true, true, false]) == 2;
  }

  /** The window `s[start:start + window_size]`. */
  function Window(s: seq<int>, start: nat): seq<int>
    requires start + WindowSize <= |s|
  {
    s[start..start + WindowSize]
  }

  /** What `random.randint(0, len(current) - window_size)` can return, and the
      reference being long enough for the window at that start. */
  predicate ValidStart(start: int, current: seq<int>, reference: seq<int>) {
    0 <= start <= |current| - WindowSize && start + WindowSize <= |reference|
  }

  /** The common count of one trial. */
  function TrialCommon(current: seq<int>, reference: seq<int>, start: int): nat
    requires ValidStart(start, current, reference)
  {
    CommonPoints(Window(current, start), Window(reference, start))
  }

  /** How the analysis ends.  `SizeMismatch`: the recording is shorter than one
      window, so `randint` is given an empty range and raises before any trial. */
  datatype Verdict = SizeMismatch | NoMatch | Match(trial: nat)

  /** The number of windows inspected before the verdict. */
  function TrialsRun(v: Verdict): nat {
    match v
    case SizeMismatch => 0
    case NoMatch => Trials
    case Match(k) => k + 1
  }

  /** The trial loop.  It stops at the first trial whose window has at least
      `MinCommon` common points.  `inspected` counts the windows the loop compared:
      none when `randint` raises, all five on no match, and `i + 1` on a match at
      trial `i`. */
  method MatchAnalysis(current: seq<int>, reference: seq<int>, starts: seq<int>)
    returns (v: Verdict, inspected: nat)
    requires |starts| == Trials
    requires |current| >= WindowSize ==> forall k :: 0 <= k < |starts| ==> ValidStart(starts[k], current, reference)
    ensures v == SizeMismatch <==> |current| < WindowSize
    ensures v.Match? ==> v.trial < Trials && TrialCommon(current, reference, starts[v.trial]) >= MinCommon
    ensures v.Match? ==> forall k :: 0 <= k < v.trial ==> TrialCommon(current, reference, starts[k]) < MinCommon
    ensures v == NoMatch ==> forall k :: 0 <= k < Trials ==> TrialCommon(current, reference, starts[k]) < MinCommon
    ensures inspected == TrialsRun(v) <= Trials
  {
    inspected := 0;
    if |current| < WindowSize {
      return SizeMismatch, inspected;
    }
    v := NoMatch;
    for i := 0 to Trials
      invariant inspected == i
      invariant forall k :: 0 <= k < i ==> TrialCommon(current, reference, starts[k]) < MinCommon
    {
      inspected := inspected + 1;
      var start := starts[i];
      var curWindow := current[start..start + WindowSize];
      var refWindow := reference[start..start + WindowSize];
      var mask := CommonMask(curWindow, refWindow);
      if CountTrue(mask) >= MinCommon {
        v := Match(i);
        break;
      }
    }
  }

  /** A match happens exactly when some trial reaches `MinCommon`, and then at the
      first such trial. */
  lemma MatchIffSomeTrial(current: seq<int>, reference: seq<int>, starts: seq<int>, v: Verdict)
    requires |starts| == Trials && |current| >= WindowSize
    requires forall k :: 0 <= k < |starts| ==> ValidStart(starts[k], current, reference)
    requires v != SizeMismatch
    requires v.Match? ==> v.trial < Trials && TrialCommon(current, reference, starts[v.trial]) >= MinCommon
    requires v == NoMatch ==> forall k :: 0 <= k < Trials ==> TrialCommon(current, reference, starts[k]) < MinCommon
    ensures v.Match? <==> exists k :: 0 <= k < Trials && TrialCommon(current, reference, starts[k]) >= MinCommon
  {
  }

  /** A recording compared with itself, with no value in the exclusion band, matches
      on the first trial. */
  lemma SelfMatchFirstTrial(current: seq<int>, starts: seq<int>)
    requires |starts| == Trials && |current| >= WindowSize
    requires forall k :: 0 <= k < |starts| ==> ValidStart(starts[k], current, current)
    requires forall i :: 0 <= i < |current| ==> !InBand(current[i])
    ensures TrialCommon(current, current, starts[0]) == WindowSize >= MinCommon
  {
    var w := Window(current, starts[0]);
    IdenticalWindows(w);
  }
}
