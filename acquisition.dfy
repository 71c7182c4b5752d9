/**
 * The recording buffer and the acquisition loop (`read_data`).
 *
 * The source keeps two `collections.deque(maxlen=num_samples)` objects, one for the
 * sensor values and one for their elapsed times, and the acquisition loop appends to
 * both whenever a polled line is a string of digits once stripped.  Timestamps are
 * opaque `real` values supplied per tick in place of `time.time() - start_time`.
 */
module Acquisition {
  import opened Wrappers
  import opened Text

  const Duration: nat := 30
  const SamplingRate: nat := 10
  /** `num_samples`, the `maxlen` of both deques. */
  const NumSamples: nat := SamplingRate * Duration

  /** What a deque with `maxlen` `n` holds after the values `s` were appended to an
      empty one: the most recent `n` of them, oldest first. */
  function LastN<T>(s: seq<T>, n: nat): seq<T> {
    if |s| <= n then s else s[|s| - n..]
  }

  /** Never more than `n` entries; exactly `min(|s|, n)` of them, and they are the
      trailing part of `s` in the original order. */
  lemma LastNShape<T>(s: seq<T>, n: nat)
    ensures |LastN(s, n)| == if |s| <= n then |s| else n
    ensures forall i :: 0 <= i < |LastN(s, n)| ==> LastN(s, n)[i] == s[|s| - |LastN(s, n)| + i]
  {
  }

  /** Appending to a truncated history gives the same buffer as truncating the whole
      history: a bounded deque equals the last `n` values ever appended to it. */
  lemma LastNAppend<T>(s: seq<T>, t: seq<T>, n: nat)
    ensures LastN(LastN(s, n) + t, n) == LastN(s + t, n)
  {
    if |s| > n {
      var k := |s| - n;
      assert s + t == s[..k] + (s[k..] + t);
      assert (s + t)[k..] == s[k..] + t;
      if |s[k..] + t| > n {
        assert (s + t)[|s + t| - n..] == (s[k..] + t)[|s[k..] + t| - n..];
      }
    }
  }

  /** Once the deque is full, an append drops the oldest entry. */
  lemma LastNFull<T>(s: seq<T>, x: T, n: nat)
    requires |s| == n > 0
    ensures LastN(s + [x], n) == s[1..] + [x]
  {
    assert (s + [x])[1..] == s[1..] + [x];
  }

  /** What one tick of the loop accepts from a poll: a value when a line was waiting
      and it is a string of digits after stripping, nothing otherwise. */
  function ParseSample(line: string): Option<nat> {
    var t := Strip(line);
    if IsDigits(t) then Some(DigitsValue(t)) else None
  }

  /** A number written in decimal, with any whitespace around it, is read back as
      that number. */
  lemma ParseSampleDecimal(a: string, n: nat, b: string)
    requires AllSpace(a) && AllSpace(b)
    ensures ParseSample(a + Decimal(n) + b) == Some(n)
  {
    DecimalRoundTrip(n);
    StripPadded(a, Decimal(n), b);
  }

  /** A line that is empty, or holds any non-digit inside its whitespace padding,
      is discarded. */
  lemma ParseSampleRejects(line: string)
    ensures ParseSample(line).Some? <==> IsDigits(Strip(line))
    ensures AllSpace(line) ==> ParseSample(line) == None
  {
    if AllSpace(line) {
      AllSpaceTrimLeft(line);
    }
  }

  /** Whether one poll carries an acceptable sample. */
  predicate Accepts(poll: Option<string>) {
    poll.Some? && ParseSample(poll.value).Some?
  }

  /** What one poll contributes to the value deque. */
  function TickValue(poll: Option<string>): seq<int> {
    if Accepts(poll) then [ParseSample(poll.value).value as int] else []
  }

  /** What one poll, read at clock time `now`, contributes to the time deque. */
  function TickTime(poll: Option<string>, now: real): seq<real> {
    if Accepts(poll) then [now] else []
  }

  /** The values accepted, in order, from a sequence of polls (None: nothing waiting). */
  function AcceptedValues(polls: seq<Option<string>>): seq<int> {
    if polls == [] then []
    else AcceptedValues(polls[..|polls| - 1]) + TickValue(polls[|polls| - 1])
  }

  /** The elapsed times recorded with those values: the clock reading of each
      accepting tick. */
  function AcceptedTimes(polls: seq<Option<string>>, clock: seq<real>): seq<real>
    requires |clock| == |polls|
  {
    if polls == [] then []
    else AcceptedTimes(polls[..|polls| - 1], clock[..|clock| - 1]) + TickTime(polls[|polls| - 1], clock[|clock| - 1])
  }

  /** Extending a run of polls by one tick extends what it accepted by that tick's part. */
  lemma AcceptedSnoc(polls: seq<Option<string>>, clock: seq<real>, i: nat)
    requires |clock| == |polls| && i < |polls|
    ensures AcceptedValues(polls[..i + 1]) == AcceptedValues(polls[..i]) + TickValue(polls[i])
    ensures AcceptedTimes(polls[..i + 1], clock[..i + 1]) ==
            AcceptedTimes(polls[..i], clock[..i]) + TickTime(polls[i], clock[i])
  {
    assert polls[..i + 1][..i] == polls[..i];
    assert clock[..i + 1][..i] == clock[..i];
  }

  /** One more tick on a bounded deque: truncating after each tick is the same as
      truncating the whole run once. */
  lemma ReadStep(vs: seq<int>, ts: seq<real>, polls: seq<Option<string>>, clock: seq<real>, i: nat, n: nat)
    requires |clock| == |polls| && i < |polls|
    ensures LastN(LastN(vs + AcceptedValues(polls[..i]), n) + TickValue(polls[i]), n) ==
            LastN(vs + AcceptedValues(polls[..i + 1]), n)
    ensures LastN(LastN(ts + AcceptedTimes(polls[..i], clock[..i]), n) + TickTime(polls[i], clock[i]), n) ==
            LastN(ts + AcceptedTimes(polls[..i + 1], clock[..i + 1]), n)
  {
    AcceptedSnoc(polls, clock, i);
    var a, t := vs + AcceptedValues(polls[..i]), TickValue(polls[i]);
    assert a + t == vs + AcceptedValues(polls[..i + 1]);
    LastNAppend(a, t, n);
    var b, u := ts + AcceptedTimes(polls[..i], clock[..i]), TickTime(polls[i], clock[i]);
    assert b + u == ts + AcceptedTimes(polls[..i + 1], clock[..i + 1]);
    LastNAppend(b, u, n);
  }

  /** Values and times are accepted in lockstep, and every accepted value is a
      nonnegative integer. */
  lemma {:induction false} AcceptedLockstep(polls: seq<Option<string>>, clock: seq<real>)
    requires |clock| == |polls|
    ensures |AcceptedValues(polls)| == |AcceptedTimes(polls, clock)| <= |polls|
    ensures forall i :: 0 <= i < |AcceptedValues(polls)| ==> AcceptedValues(polls)[i] >= 0
  {
    if polls != [] {
      AcceptedLockstep(polls[..|polls| - 1], clock[..|clock| - 1]);
    }
  }

  /** The pair of bounded deques `data` and `time_vector`. */
  class SampleBuffer {
    const capacity: nat
    var data: seq<int>
    var timeVector: seq<real>

    ghost predicate Valid()
      reads this
    {
      |data| == |timeVector| <= capacity
    }

    constructor (capacity: nat)
      ensures Valid()
      ensures this.capacity == capacity && data == [] && timeVector == []
    {
      this.capacity := capacity;
      data := [];
      timeVector := [];
    }

    /** `data.append(value)` and `time_vector.append(elapsed)`: each deque evicts its
        oldest entry when it already holds `capacity` items. */
    method Append(value: int, elapsed: real)
      requires Valid()
      modifies this
      ensures Valid()
      ensures data == LastN(old(data) + [value], capacity)
      ensures timeVector == LastN(old(timeVector) + [elapsed], capacity)
    {
      if capacity == 0 {
        // a deque with maxlen 0 discards every append
      } else if |data| == capacity {
        LastNFull(data, value, capacity);
        LastNFull(timeVector, elapsed, capacity);
        data := data[1..] + [value];
        timeVector := timeVector[1..] + [elapsed];
      } else {
        data := data + [value];
        timeVector := timeVector + [elapsed];
      }
    }

    /** One tick of `read_data`: a waiting line is read, and appended with the tick's
        clock reading only if it is all digits after stripping.  Any other line, or
        no line, leaves both deques unchanged. */
    method Poll(poll: Option<string>, now: real)
      requires Valid()
      modifies this
      ensures Valid()
      ensures data == LastN(old(data) + TickValue(poll), capacity)
      ensures timeVector == LastN(old(timeVector) + TickTime(poll, now), capacity)
      ensures !Accepts(poll) ==> data == old(data) && timeVector == old(timeVector)
    {
      if Accepts(poll) {
        Append(ParseSample(poll.value).value, now);
      } else {
        assert data + TickValue(poll) == data && timeVector + TickTime(poll, now) == timeVector;
      }
    }

    /** The `read_data` loop over a finite run of ticks, one poll and one clock reading
        per tick, until the stop signal is observed.  Starting from the given state,
        the deques end up holding the last `capacity` accepted values and their times. */
    method ReadData(polls: seq<Option<string>>, clock: seq<real>)
      requires Valid()
      requires |clock| == |polls|
      modifies this
      ensures Valid()
      ensures data == LastN(old(data) + AcceptedValues(polls), capacity)
      ensures timeVector == LastN(old(timeVector) + AcceptedTimes(polls, clock), capacity)
    {
      var i := 0;
      while i < |polls|
        invariant 0 <= i <= |polls|
        invariant Valid()
        invariant data == LastN(old(data) + AcceptedValues(polls[..i]), capacity)
        invariant timeVector == LastN(old(timeVector) + AcceptedTimes(polls[..i], clock[..i]), capacity)
      {
        Poll(polls[i], clock[i]);
        ReadStep(old(data), old(timeVector), polls, clock, i, capacity);
        i := i + 1;
      }
      assert polls[..i] == polls && clock[..i] == clock;
    }
  }
}
