# RFID-gated recording and signal matching, modelled in Dafny

The system waits for an RFID card on a serial link. When the known card is shown, it pulses an LED and records about 30 seconds of sensor readings into two bounded deques (values and elapsed times). It then reports the interquartile-range outliers of the recording. Finally it compares the recording with a stored reference series over up to five randomly placed five-second windows, counting "common points", and pulses the LED again on a match.

This project models the deterministic core of `FinalPart_RFID_MIC_LED.py` and proves properties of it:

- `text.dfy` (module `Text`): `str.strip`, `str.isdigit` and `int` on decimal digits, as applied to every serial line.
- `acquisition.dfy` (module `Acquisition`): the two `deque(maxlen=num_samples)` objects as the class `SampleBuffer`, whose methods update its two sequence fields. It also holds the loop of `read_data` (`ReadData`, one `Poll` per tick). The specification function `LastN` gives what a bounded deque holds.
- `outliers.dfy` (module `Outliers`): `extract_outliers`, with numpy's default linear percentile computed exactly in `real`, and the sort it relies on.
- `matcher.dfy` (module `Matcher`): the `common_points` mask, its sum, and the five-trial window loop with its `break`. The random start indices are an input.
- `credential.dfy` (module `Credential`): the `while True` card-wait loop, over a finite run of reader polls.
- `session.dfy` (module `Session`): the order in which `main` runs these pieces, and the LED pulses it issues.
- `wrappers.dfy` (module `Wrappers`): `Option`.

Inputs that replace the outside world:

- Each reader poll or sensor poll is an `Option<string>`. `None` means nothing was waiting (`in_waiting == 0`).
- `time.time() - start_time` is one `real` clock reading per acquisition tick.
- The recording phase, which runs until the stop event is set, becomes a finite run of ticks.
- `random.randint` becomes a sequence of five start indices, each in the range `randint` can return.
- The reference series, which the source loads from the file at `data1_path` (`Data_2.mat`), is a sequence argument.
- An LED pulse (`turn_on_led`) is counted in an out-parameter.

Modelling choices that follow the code:

- A card UID is the stripped serial line that `read_rfid` returns (:38-42), and an empty UID keeps the loop waiting (:108).
- Outlier indices are the strictly increasing sequence `np.where` returns (:85).
- An empty recording makes `np.percentile` raise (:82). The model returns `None` from `ExtractOutliers` and the session ends as `Aborted(EmptyRecording)`.
- A recording shorter than one window makes `random.randint(0, len - 50)` raise before any trial. This is the `SizeMismatch` verdict; the session ends as `Aborted(InsufficientData)`.
- The constants are the code's: `num_samples = 300`, `window_size = 50`, tolerance 3, exclusion band [279, 283], 5 trials, at least 4 common points, and `known_uid = "69 DC FC D5"`.

## Model

| member | source | states |
|---|---|---|
| `Text.TrimLeftShape` | FinalPart_RFID_MIC_LED.py:55 | `lstrip` removes only a leading run of whitespace, and the result does not start with whitespace |
| `Text.TrimRightShape` | FinalPart_RFID_MIC_LED.py:55 | `rstrip` removes only a trailing run of whitespace, and the result does not end with whitespace |
| `Text.StripShape` | FinalPart_RFID_MIC_LED.py:55 | `strip` returns a contiguous slice of the line that is bordered only by whitespace and neither starts nor ends with whitespace |
| `Text.Strip` | FinalPart_RFID_MIC_LED.py:55 | `str.strip()`; its properties are stated by `StripShape` and `StripPadded` |
| `Text.IsDigits` | FinalPart_RFID_MIC_LED.py:56 | `str.isdigit()` on ASCII; used by `ParseSampleRejects` and proved of every decimal spelling by `DecimalRoundTrip` |
| `Text.DigitsValue` | FinalPart_RFID_MIC_LED.py:57 | `int(line)` on a digit string; `DecimalRoundTrip` and `LeadingZero` state what it computes |
| `Text.StripPadded` | FinalPart_RFID_MIC_LED.py:40 | stripping `a + s + b`, where `a` and `b` are whitespace and `s` has non-space ends, gives back exactly `s` |
| `Text.DecimalRoundTrip` | FinalPart_RFID_MIC_LED.py:56-57 | the decimal spelling of any `n` passes `isdigit`, and `int` reads it back as `n` |
| `Text.LeadingZero` | FinalPart_RFID_MIC_LED.py:57 | a leading `0` does not change the value `int` reads from a digit string |
| `Acquisition.LastN` | FinalPart_RFID_MIC_LED.py:24-25 | the contents of a `deque(maxlen=n)` after a history of appends; stated by `LastNShape`, `LastNAppend` and `LastNFull` |
| `Acquisition.LastNShape` | FinalPart_RFID_MIC_LED.py:23-25 | element by element reading of `LastN`: `min(total, maxlen)` trailing entries in their original order; that a deque really equals this after any sequence of appends is `LastNAppend` together with `SampleBuffer.ReadData` |
| `Acquisition.LastNAppend` | FinalPart_RFID_MIC_LED.py:59-60 | appending to a truncated deque gives the same result as truncating the whole history, so the deque always equals the last `maxlen` values appended |
| `Acquisition.LastNFull` | FinalPart_RFID_MIC_LED.py:24-25 | on a full deque an append drops exactly the oldest entry |
| `Acquisition.ParseSample` | FinalPart_RFID_MIC_LED.py:55-57 | the filter and conversion of one line; stated by `ParseSampleDecimal` and `ParseSampleRejects` |
| `Acquisition.AcceptedValues` | FinalPart_RFID_MIC_LED.py:53-59 | the values appended over a run of ticks, in order; `AcceptedLockstep` and `SampleBuffer.ReadData` state its properties |
| `Acquisition.AcceptedTimes` | FinalPart_RFID_MIC_LED.py:53-60 | the times appended over a run of ticks; `AcceptedLockstep` proves it has the same length as `AcceptedValues` |
| `Acquisition.ParseSampleDecimal` | FinalPart_RFID_MIC_LED.py:55-57 | a number written in decimal with whitespace padding is accepted with that value |
| `Acquisition.ParseSampleRejects` | FinalPart_RFID_MIC_LED.py:55-56 | a line is accepted iff its stripped form is non-empty and all digits; a blank line is never accepted |
| `Acquisition.AcceptedLockstep` | FinalPart_RFID_MIC_LED.py:56-60 | over any run of polls, values and times are accepted in equal number (at most one per poll), and every accepted value is nonnegative |
| `Acquisition.SampleBuffer.constructor` | FinalPart_RFID_MIC_LED.py:23-25 | both deques start empty with capacity `num_samples` |
| `Acquisition.SampleBuffer.Append` | FinalPart_RFID_MIC_LED.py:59-60 | each deque becomes the last `capacity` entries of its old contents plus the new entry; the two stay equal in length and within capacity |
| `Acquisition.SampleBuffer.Poll` | FinalPart_RFID_MIC_LED.py:54-60 | one tick appends the parsed value and the tick's time iff a line was waiting and it is all digits once stripped; otherwise both deques are unchanged |
| `Acquisition.SampleBuffer.ReadData` | FinalPart_RFID_MIC_LED.py:51-62 | after a run of ticks, each deque is the last `capacity` entries of its old contents followed by everything accepted, in order |
| `Outliers.Insert` | FinalPart_RFID_MIC_LED.py:82 | inserting into a sorted sequence keeps it sorted and adds exactly one occurrence of the value |
| `Outliers.Sort` | FinalPart_RFID_MIC_LED.py:82 | the order statistics numpy uses are a sorted permutation of the data |
| `Outliers.RankBound` | FinalPart_RFID_MIC_LED.py:82 | `floor((n-1)p/100)` is a valid index and the fraction lies in [0, 1); at the last index the fraction is 0 |
| `Outliers.Percentile` | FinalPart_RFID_MIC_LED.py:82 | numpy's linear percentile of sorted data; stated by `PercentileBetween`, `PercentileMonotone` and `PercentileRange` |
| `Outliers.PercentileBetween` | FinalPart_RFID_MIC_LED.py:82 | the linear percentile lies between its two neighbouring order statistics |
| `Outliers.PercentileMonotone` | FinalPart_RFID_MIC_LED.py:82 | the linear percentile never decreases as `p` grows |
| `Outliers.PercentileRange` | FinalPart_RFID_MIC_LED.py:82 | every percentile lies between the minimum and the maximum of the data |
| `Outliers.Quartiles` | FinalPart_RFID_MIC_LED.py:82 | `np.percentile(data, [25, 75])`; `QuartilesOrdered` proves Q1 <= Q3 |
| `Outliers.Fences` | FinalPart_RFID_MIC_LED.py:83-84 | `Q1 - 1.5 IQR` and `Q3 + 1.5 IQR`; `QuartilesOrdered` proves they enclose both quartiles |
| `Outliers.OutsideIndices` | FinalPart_RFID_MIC_LED.py:85 | the returned positions are strictly increasing and in range, and a position is returned iff its value is strictly outside the fences |
| `Outliers.ExtractOutliers` | FinalPart_RFID_MIC_LED.py:80-87 | no result on empty data; otherwise index `i` is reported iff `data[i] < Q1 - 1.5 IQR` or `data[i] > Q3 + 1.5 IQR`, the indices increase strictly, and `outliers[k] == data[indices[k]]` with equal lengths |
| `Outliers.QuartilesOrdered` | FinalPart_RFID_MIC_LED.py:82-84 | `Q1 <= Q3`, so IQR is at least 0 and the fences enclose both quartiles |
| `Outliers.InterquartileNotFlagged` | FinalPart_RFID_MIC_LED.py:82-85 | no value between Q1 and Q3 is ever reported |
| `Outliers.ConstantSeriesNoOutliers` | FinalPart_RFID_MIC_LED.py:80-87 | a constant non-empty series has an empty report |
| `Matcher.IsCommon` | FinalPart_RFID_MIC_LED.py:166-168 | one cell of the three-way mask; its role in the count is stated by `CommonMask` and `CommonPointsCountsPositions` |
| `Matcher.CommonMask` | FinalPart_RFID_MIC_LED.py:166-168 | the boolean `common_points` array; what its sum means is stated by `CommonPointsCountsPositions` and `CommonPointsBounds` |
| `Matcher.CountTrueIsCardinality` | FinalPart_RFID_MIC_LED.py:170 | `np.sum` of a boolean array is the number of positions at which it is set |
| `Matcher.CommonPointsCountsPositions` | FinalPart_RFID_MIC_LED.py:166-170 | the common count equals the number of positions where `abs(cur[i] - ref[i]) <= 3` and neither value lies in [279, 283] |
| `Matcher.CommonPoints` | FinalPart_RFID_MIC_LED.py:166-170 | `np.sum(common_points)`; stated by `CommonPointsCountsPositions` and `CommonPointsBounds` |
| `Matcher.TrialCommon` | FinalPart_RFID_MIC_LED.py:160-170 | the common count of the two windows at one start index; used in the contract of `MatchAnalysis` |
| `Matcher.CountTrue` | FinalPart_RFID_MIC_LED.py:170 | `np.sum` over a boolean array; stated by `CountTrueIsCardinality` and `CountTrueBounds` |
| `Matcher.Window` | FinalPart_RFID_MIC_LED.py:161-162 | the slice `[start:start + window_size]`; used by `TrialCommon` in the contract of `MatchAnalysis` |
| `Matcher.ValidStart` | FinalPart_RFID_MIC_LED.py:160-162 | the inclusive range `0..len(current) - window_size` that `random.randint` returns, plus the reference being long enough for the window; it is the requires of `MatchAnalysis`, and the reference-length part is listed under "Left out" |
| `Matcher.CountTrueBounds` | FinalPart_RFID_MIC_LED.py:170 | the sum of a boolean array is at most its length, equals it iff all entries are set, and is 0 iff none is |
| `Matcher.CommonPointsBounds` | FinalPart_RFID_MIC_LED.py:166-170 | the common count of a window is between 0 and its length, equals the length iff every position is common, and is 0 iff none is |
| `Matcher.IdenticalWindows` | FinalPart_RFID_MIC_LED.py:166-168 | two identical windows with no value in the band are common at every position |
| `Matcher.ScenarioTwoCommon` | FinalPart_RFID_MIC_LED.py:166-170 | for windows `[100,101,280,99]` and `[102,100,281,95]` the common count is 2 |
| `Matcher.MatchAnalysis` | FinalPart_RFID_MIC_LED.py:154-174 | a recording shorter than a window gives `SizeMismatch` with no window compared; otherwise the verdict is `Match(i)` for the first trial `i` with at least 4 common points, or `NoMatch` when all 5 trials fall short; the count of windows the loop compared is 0, `i + 1` or 5 accordingly, never more than 5 |
| `Matcher.MatchIffSomeTrial` | FinalPart_RFID_MIC_LED.py:159-174 | a verdict meeting that contract is a match iff some trial reached 4 common points |
| `Matcher.SelfMatchFirstTrial` | FinalPart_RFID_MIC_LED.py:159-171 | a recording compared with itself, with no value in the band, has 50 common points in the first trial, enough to match |
| `Credential.Uid` | FinalPart_RFID_MIC_LED.py:38-42 | what `read_rfid` returns: the stripped line, or nothing when no line waits; `PaddedKnownCardAccepted` states it on a padded line |
| `Credential.Presented` | FinalPart_RFID_MIC_LED.py:108 | `if uid:`, a non-empty UID; its role in the wait loop is stated by `AwaitCard` |
| `Credential.AwaitCard` | FinalPart_RFID_MIC_LED.py:106-116 | empty or absent reads keep waiting; the first non-empty stripped UID decides: the known UID is `Accepted` with one LED pulse, any other is `Rejected` with none; the result is `Accepted` iff the known card is the first presented |
| `Credential.PaddedKnownCardAccepted` | FinalPart_RFID_MIC_LED.py:40 | the known UID with whitespace around it on the line is presented as exactly the known UID |
| `Session.Analyze` | FinalPart_RFID_MIC_LED.py:146-174 | an empty recording or one shorter than a window aborts; otherwise the result holds the outlier report of the recording and a verdict that is a match iff some trial matched |
| `Session.RunSession` | FinalPart_RFID_MIC_LED.py:103-174 | without an accepted card there is no recording and no LED pulse; otherwise the recording is the last 300 accepted samples with times of equal length, the analysis follows, and the LED pulses once on admission plus once on a match |

## Left out

- Serial port handling is hardware I/O: opening the port, `in_waiting`, `readline`, decoding, `write`, the LED's on/off timing, `sys.exit` on failure and the close in `finally`. Reads are input sequences, and an LED pulse is counted.
- `start_timer`, the tkinter window, the two threads, `threading.Event`, `mainloop` and `join` are GUI and concurrency code. The stop event is only ever set, never cleared. The recording phase becomes a finite run of ticks whose length the caller chooses. `start_timer` itself is not part of this model. Its loop runs while `elapsed_time <= duration`, so it would report the remaining times `duration` down to 0.
- `time.time` and `time.sleep` are clocks; elapsed times are inputs.
- `scipy.io.savemat` and `loadmat`, and `plot_outliers`, are file I/O and plotting. The source saves the recording (to `data2_path`, `Data_1.mat`) before the outlier report and the matching, so it is saved on every path after admission, including both `Aborted` outcomes; the saved values and times are the `data` and `times` fields of `Aborted` and `Completed`. The reference is an input.
- `random.randint` is randomness. Its distribution is not modelled; only its range is.
- Floating-point rounding inside `np.percentile` and in the 1.5 multiplier: the model uses exact reals.
- `print` output is not modelled.
- Matcher.MatchAnalysis: requires the reference to be long enough for every chosen window. With a shorter reference, numpy would truncate the slice and then raise or broadcast, and that behaviour is not modelled.
- Session.RunSession: has the same reference-length precondition, stated on the recorded series.
- Session.Analyze: has the same reference-length precondition as `Matcher.MatchAnalysis`, stated on the finished recording.
- Text.StripShape: whitespace and digits are ASCII only. Python's Unicode-wide `str.isspace` and `str.isdigit` also accept other characters (for example, non-ASCII digits).
- Credential.AwaitCard: when every poll in the finite run is empty, the result is `Waiting`. The source would keep polling forever.
