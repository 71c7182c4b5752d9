/**
 * The sequence `main` runs: wait for the card, record, report outliers, match the
 * recording against the stored reference, and pulse the LED on a match.
 *
 * The two threads of the recording phase are replaced by a finite run of
 * acquisition ticks (one sensor poll and one clock reading each); the reference
 * series that the source loads from disk is an input.
 */
module Session {
  import opened Wrappers
  import Acquisition
  import Outliers
  import Matcher
  import Credential

  /** The two places where the source raises after recording: numpy on an empty
      series, `random.randint` on a series shorter than one window. */
  datatype Abort = EmptyRecording | InsufficientData

  datatype Outcome =
    | Rejected(uid: string)
    | StillWaiting
    | Aborted(data: seq<int>, times: seq<real>, reason: Abort)
    | Completed(data: seq<int>, times: seq<real>, report: Outliers.Report, verdict: Matcher.Verdict)

  /** The value deque after recording from empty deques. */
  function Recorded(polls: seq<Option<string>>): seq<int> {
    Acquisition.LastN(Acquisition.AcceptedValues(polls), Acquisition.NumSamples)
  }

  /** The time deque after recording from empty deques. */
  function RecordedTimes(polls: seq<Option<string>>, clock: seq<real>): seq<real>
    requires |clock| == |polls|
  {
    Acquisition.LastN(Acquisition.AcceptedTimes(polls, clock), Acquisition.NumSamples)
  }

  /** Whether some trial's window reaches `MinCommon` common points. */
  predicate SomeTrialMatches(data: seq<int>, reference: seq<int>, starts: seq<int>)
    requires |starts| == Matcher.Trials
    requires forall k :: 0 <= k < |starts| ==> Matcher.ValidStart(starts[k], data, reference)
  {
    exists k :: 0 <= k < Matcher.Trials && Matcher.TrialCommon(data, reference, starts[k]) >= Matcher.MinCommon
  }

  /** The analysis phase on a finished recording: the outlier report, then the match
      decision; each of the two raising cases aborts the session. */
  method Analyze(data: seq<int>, times: seq<real>, reference: seq<int>, starts: seq<int>)
    returns (out: Outcome)
    requires |starts| == Matcher.Trials
    requires |data| >= Matcher.WindowSize ==>
               forall k :: 0 <= k < |starts| ==> Matcher.ValidStart(starts[k], data, reference)
    ensures out.Aborted? || out.Completed?
    ensures out.data == data && out.times == times
    ensures out.Aborted? <==> |data| < Matcher.WindowSize
    ensures out.Aborted? ==> (out.reason == EmptyRecording <==> data == [])
    ensures out.Completed? ==> Outliers.ExtractOutliers(data) == Some(out.report)
    ensures out.Completed? ==> out.verdict != Matcher.SizeMismatch
    ensures out.Completed? ==> (out.verdict.Match? <==> SomeTrialMatches(data, reference, starts))
  {
    var report := Outliers.ExtractOutliers(data);
    if report.None? {
      return Aborted(data, times, EmptyRecording);
    }
    var verdict, _ := Matcher.MatchAnalysis(data, reference, starts);
    if verdict == Matcher.SizeMismatch {
      return Aborted(data, times, InsufficientData);
    }
    Matcher.MatchIffSomeTrial(data, reference, starts, verdict);
    out := Completed(data, times, report.value, verdict);
  }

  /** One run of `main`.  `leds` counts LED pulses (`turn_on_led`): one when the
      known card is admitted and one more exactly on a `Match` verdict. */
  method RunSession(cardPolls: seq<Option<string>>, samplePolls: seq<Option<string>>, clock: seq<real>,
                    reference: seq<int>, starts: seq<int>)
    returns (out: Outcome, leds: nat)
    requires |clock| == |samplePolls|
    requires |starts| == Matcher.Trials
    requires |Recorded(samplePolls)| >= Matcher.WindowSize ==>
               forall k :: 0 <= k < |starts| ==> Matcher.ValidStart(starts[k], Recorded(samplePolls), reference)
    // a rejected or absent card: no recording and no LED
    ensures !Credential.CardAccepted(cardPolls, Credential.KnownUid) <==> out.Rejected? || out.StillWaiting?
    ensures out.Rejected? ==> out.uid != Credential.KnownUid
    ensures out.StillWaiting? <==> forall i :: 0 <= i < |cardPolls| ==> !Credential.Presented(cardPolls[i])
    // an accepted card: the recording is the last `num_samples` accepted samples
    ensures (out.Aborted? || out.Completed?) ==>
              out.data == Recorded(samplePolls) && out.times == RecordedTimes(samplePolls, clock) &&
              |out.data| == |out.times| <= Acquisition.NumSamples
    ensures out.Aborted? ==> (out.reason == EmptyRecording <==> out.data == [])
    ensures (out.Aborted? || out.Completed?) ==> (out.Aborted? <==> |out.data| < Matcher.WindowSize)
    ensures out.Completed? ==> Outliers.ExtractOutliers(out.data) == Some(out.report)
    ensures out.Completed? ==> out.verdict != Matcher.SizeMismatch
    ensures out.Completed? ==> (out.verdict.Match? <==> SomeTrialMatches(out.data, reference, starts))
    // one pulse on admission and one more on a match
    ensures leds == if out.Rejected? || out.StillWaiting? then 0
                    else if out.Completed? && out.verdict.Match? then 2 else 1
  {
    var decision, cardLed := Credential.AwaitCard(cardPolls, Credential.KnownUid);
    if decision.Rejected? {
      return Rejected(decision.uid), 0;
    } else if decision.Waiting? {
      return StillWaiting, 0;
    }

    var buffer := new Acquisition.SampleBuffer(Acquisition.NumSamples);
    buffer.ReadData(samplePolls, clock);
    var data, times := buffer.data, buffer.timeVector;
    assert data == Recorded(samplePolls) && times == RecordedTimes(samplePolls, clock);

    out := Analyze(data, times, reference, starts);
    leds := cardLed + if out.Completed? && out.verdict.Match? then 1 else 0;
  }
}
