# lightmirror: motion detection, dashboard visibility and formatters in Dafny

lightmirror is a browser dashboard that stays black until a camera sees
someone. This project models its decision logic and proves properties of it:

- **Frame scorer** (`calculateMotion`, module `MotionScore`). It samples every
  4th RGBA pixel (a 16-byte stride) and sums the Euclidean RGB distances. It
  counts the pixels in which some channel moved by more than 40. It damps the
  average distance to a tenth when fewer than 10% of the samples changed, and
  otherwise weights it by `1 + 1.2 * ratio`. The loop is a method proved equal
  to a recursive specification `Score`. `Math.sqrt` is a parameter that is
  only assumed to be non-negative and to map 0 to 0.
- **Background model** (module `Background`).
  - `initializeBackground` averages 30 captured frames, channel by channel,
    into a new buffer and sets every alpha byte to 255.
  - If a later capture throws, it falls back to the first frame. If the first
    capture throws, there is no background at all.
  - The per-frame adaptation and the delayed reset change that buffer in place
    (`array<Byte>`).
  - Every store into the `Uint8ClampedArray` goes through ECMAScript's
    ToUint8Clamp (round half to even, then clamp).
  - A consequence of that store is proved (`AdaptedChannel`): with the 0.003
    learning rate, one adaptation step leaves a channel unchanged unless it
    differs from the current frame by at least 167 levels. When it does
    differ that much, it moves by exactly one level toward the frame.
- **Detector** (class `MotionDetection.MotionDetector`). It has the fields
  `frameCount`, `motionSampleCount`, `lastMotionTriggerTime` and the queue of
  scheduled 2 s resets.
  - `Step` is one `detectMotion` cycle. It runs the adaptation gate, scores the
    frame, updates the counter (with its cooldown and its trigger at 50) and
    returns the callback it picks from the view state read at the start of the
    cycle.
  - The counter rules are also a pure function `CounterStep`, and lemmas about
    whole runs of cycles are proved over it: the trigger fires on the 50th
    consecutive qualifying cycle, stays silent during the cooldown, and cannot
    come from isolated spikes.
- **Dashboard** (class `App.Dashboard`). It holds the flags `isLoading`,
  `isDashboardVisible` and `lastMotionTime`, and the no-motion timer handle.
  - Timers are explicit. The model keeps the set of live timers (id to
    deadline), the id the handle holds, and the next id `setTimeout` returns.
    Every callback the source schedules is a method that is called when its
    deadline has passed.
  - The invariant `Consistent` says that the dashboard is never loading and
    visible at once, and that exactly one timer is live while visible, due
    three minutes after the last motion. Each event handler keeps it when
    called in the state in which the source calls it. `LoadDataReturned`,
    `FinishLoading`, `FadeToBlack` and `NoMotionTimeoutFired` keep it from any
    consistent state. `TriggerDashboardLoad` keeps it from a hidden state and
    `OnMotionWhileVisible` from a visible one, which is where the detector's
    dispatch calls them (`Deliver`). A full detection cycle wired to the
    dashboard keeps it too (`DetectionCycle`). `triggerDashboardLoad` itself
    does not check visibility (`app.js:9-11`).
- **Formatters** (module `Formatters`): `formatDuration`, and `formatDistance`
  below 1000 m, as functions on `Option<int>`. `None` stands for the falsy
  inputs `null` and `undefined`. The inputs are safe integers (|n| < 2^53).
  For those, JavaScript's division and remainder are exact and its
  number-to-text conversion gives the plain decimal text. The model writes that
  text and proves that it reads back, so it is injective.

Three behaviours of the code that the model keeps as written:
- Adaptation is gated only on the dashboard not being visible
  (`script/motion-detection.js:158`). It can therefore happen while a load is
  in progress, although the comment at `script/motion-detection.js:154` says the
  background is updated only while the dashboard is hidden.
- A load whose `loadData()` returned null still ends with the dashboard
  visible and a timer armed (`app.js:26-44`).
- The fallback background is the first frame as captured, with its own alpha
  bytes (`script/motion-detection.js:114-115`).

Inputs the browser supplies are parameters:
- The clock: one `now` per event, in epoch milliseconds as `Date.now()`
  returns them. `lastMotionTriggerTime` starts at 0, so with a real clock the
  first cycles are neither in the cooldown nor held back by the 15 s
  adaptation delay. A model clock that starts near 0 would give both.
- The captured frames: `Option<seq<Byte>>`, where `None` means the capture threw.
- The view state.
- `Math.sqrt`.

## Model

| member | source | states |
|---|---|---|
| Frames.ToUint8Clamp | script/motion-detection.js:163-165 | a store into the byte buffer clamps to 0 and 255 and otherwise lands within 0.5 of the value, ties on an even byte |
| Frames.ClampStaysBetween | script/motion-detection.js:163-165 | a stored value between two bytes lies between them after the store |
| Frames.ClampOfByte | script/motion-detection.js:206 | storing a value that is already a byte keeps it |
| Frames.PixelLayout | script/motion-detection.js:95-105 | from a pixel's first byte come three colour bytes and an alpha byte, all inside the frame |
| Frames.JsRound | script/motion-detection.js:102-104 | `Math.round` gives the integer r with r - 0.5 <= x < r + 0.5 (halves round up) |
| MotionScore.Delta | script/motion-detection.js:257-259 | `Math.abs` of a channel difference is one of the two differences and is non-negative |
| MotionScore.SampleCount | script/motion-detection.js:248 | the number of samples is the least count whose 16-byte groups cover the buffer |
| MotionScore.SampleCountExact | script/motion-detection.js:248 | the loop visits sample k exactly when 16k is below the buffer length |
| MotionScore.SampleInFrame | script/motion-detection.js:249-254 | every sampled pixel's R, G and B bytes lie inside the frame |
| MotionScore.ColorDiff | script/motion-detection.js:257-260 | the colour distance is non-negative for a non-negative square root, and 0 for equal colour bytes |
| MotionScore.IsSignificant | script/motion-detection.js:266 | a pixel whose colour bytes did not change is never significant |
| MotionScore.TotalDiff | script/motion-detection.js:260-262 | the summed colour distance is never negative |
| MotionScore.SignificantChanges | script/motion-detection.js:263-268 | no more pixels are significant than are sampled |
| MotionScore.AvgDiff | script/motion-detection.js:271 | the average distance is never negative |
| MotionScore.ChangeRatio | script/motion-detection.js:272 | the change ratio lies in [0, 1] |
| MotionScore.SampleFrames | script/motion-detection.js:243-269 | the sampling loop ends with pixelCount the number of samples and totalDiff, significantChanges equal to the recursive sums over them |
| MotionScore.Score | script/motion-detection.js:271-284 | for a non-negative average difference the score lies between 0 and 2.2 times it |
| MotionScore.CalculateMotion | script/motion-detection.js:240-285 | the returned score equals the specification `Score` of the two frames |
| MotionScore.ScoreOfIdenticalFrames | script/motion-detection.js:240-277 | a frame scored against itself gives 0 |
| MotionScore.ScoreBounds | script/motion-detection.js:271-284 | the score is never negative; under 10% change it is exactly a tenth of the average distance; otherwise it lies between the average distance and 2.2 times it |
| MotionScore.ScoreCases | script/motion-detection.js:275-282 | the damped and the weighted formula obey those bounds for any non-negative average and fractional ratio |
| MotionScore.SampleReadsColour | script/motion-detection.js:249-266 | one sample's distance and significance depend only on its R, G, B bytes |
| MotionScore.TotalDiffReadsSamples | script/motion-detection.js:248-268 | the two sums depend only on the R, G, B bytes of sampled pixels |
| MotionScore.ScoreReadsOnlySampledColour | script/motion-detection.js:248-285 | frames that agree on bytes i, i+1, i+2 for every i divisible by 16 score the same: alpha bytes and unsampled pixels never matter |
| MotionScore.SignificantChangesCounts | script/motion-detection.js:265-268 | significantChanges is the number of sampled pixels in which some channel moved by more than 40 |
| Background.ChannelSum | script/motion-detection.js:96-101 | a channel sum over k frames lies in [0, 255*k] |
| Background.ChannelSumBetween | script/motion-detection.js:96-101 | a channel sum of k samples in [lo, hi] lies in [lo*k, hi*k] |
| Background.RoundedMean | script/motion-detection.js:102-104 | `Math.round(sum / n)` is the integer within 0.5 of the mean, halves rounded up |
| Background.RoundedMeanBetween | script/motion-detection.js:102-104 | the rounded mean of samples in [lo, hi] lies in [lo, hi] |
| Background.AveragedByte | script/motion-detection.js:95-105 | an averaged alpha byte is 255; an averaged colour byte lies within 0.5 of the mean of its samples |
| Background.Averaged | script/motion-detection.js:92-106 | the averaged background has the canvas size and every alpha byte is 255 |
| Background.AveragedBetween | script/motion-detection.js:95-104 | each averaged colour byte lies between the smallest and the largest of its samples |
| Background.AveragedAlpha | script/motion-detection.js:105 | each alpha byte of the averaged background is 255 |
| Background.AveragedIdentical | script/motion-detection.js:88-106 | averaging identical frames reproduces that frame's colour bytes |
| Background.FirstFailure | script/motion-detection.js:82-118 | the collection stops at the first capture that throws: all earlier ones succeeded |
| Background.Captured | script/motion-detection.js:85 | the frames collected from a run of successful captures, one per capture |
| Background.InitialBackground | script/motion-detection.js:88-118 | the settled background, when there is one, has the canvas size |
| Background.InitializeBackground | script/motion-detection.js:72-118 | the buffer built is the average of 30 frames, the first frame after a later failure, or nothing after a first failure |
| Background.AverageFrames | script/motion-detection.js:92-106 | the averaging loop fills a fresh buffer with the per-channel rounded means and alpha 255 |
| Background.PixelAverage | script/motion-detection.js:102-105 | the four bytes written for one pixel are the averaged background's bytes there |
| Background.ChannelAverage | script/motion-detection.js:102-104 | each rounded channel mean is a byte and is the averaged background's byte |
| Background.SumPixel | script/motion-detection.js:96-101 | the inner loop's three sums are the channel sums over all frames |
| Background.Blend | script/motion-detection.js:163-165 | the blend moves the background value by 0.3% of its distance to the frame |
| Background.AdaptedByte | script/motion-detection.js:162-166 | an adapted alpha byte is 255; an adapted colour byte lies within 0.5 of the real blend |
| Background.Adapted | script/motion-detection.js:159-167 | one adaptation step keeps the background's size |
| Background.AdaptedBetween | script/motion-detection.js:161-167 | each adapted colour byte lies between its old value and the frame's; alpha becomes 255 |
| Background.AdaptedChannel | script/motion-detection.js:163-165 | a stored blend equals the old byte unless the frame differs by 167 or more, and then is one level closer to it |
| Background.AdaptToNearbyFrameIsIdentity | script/motion-detection.js:159-167 | a frame within 166 levels of the background on every colour byte leaves those bytes as they were |
| Background.Adapt | script/motion-detection.js:159-167 | after the in-place loop the buffer is the adapted background of its old contents |
| Background.Reset | script/motion-detection.js:201-207 | after the in-place copy the buffer holds the new frame; each byte is stored unchanged, since it is already a byte |
| MotionDetection.InCooldown | script/motion-detection.js:180-182 | every instant from the trigger up to 8 s after it is in the cooldown; every instant from 8 s on is not |
| MotionDetection.ShouldAdapt | script/motion-detection.js:155-158 | adaptation happens only while the dashboard is hidden, on every 20th frame, and never within 15 s after the last trigger |
| MotionDetection.CounterStep | script/motion-detection.js:180-228 | the counter stays in 0..49; a cycle fires exactly when outside the cooldown with motion above 15 as the 50th count; a trigger clears the count and records its time |
| MotionDetection.Trace | script/motion-detection.js:132-237 | a run of cycles has one outcome per cycle |
| MotionDetection.CounterRules | script/motion-detection.js:184-193 | in the cooldown the counter is left alone; outside it, motion at or below 15 clears it and motion above 15 adds one |
| MotionDetection.QualifyingRun | script/motion-detection.js:184-193 | from a count of s, qualifying cycles count up without firing and the (50 - s)-th fires, at its own time |
| MotionDetection.CooldownRun | script/motion-detection.js:180-182 | no cycle inside the cooldown fires or changes the counter |
| MotionDetection.TraceAppend | script/motion-detection.js:132-237 | a run of cycles split in two is the first part followed by the second from the first part's final counter |
| MotionDetection.SustainedMotionFiresOnce | script/motion-detection.js:180-228 | sustained motion from a clear counter fires on the 50th cycle and not again within 8 s of it |
| MotionDetection.TriggerNeedsConsecutiveMotion | script/motion-detection.js:184-227 | a trigger outside the cooldown needs at least 50 - s cycles, and the last 50 of them all scored above 15 |
| MotionDetection.Dispatch | script/motion-detection.js:212-221 | a trigger calls onMotionWhileVisible(now) when visible, onMotionDetected when hidden and idle, and nothing while loading |
| MotionDetection.MotionDetector.constructor | script/motion-detection.js:15-18 | the detector starts with zero counts, lastMotionTriggerTime 0 and no reset scheduled |
| MotionDetection.MotionDetector.Step | script/motion-detection.js:141-228 | one cycle adapts the background exactly when the gate holds, scores against the adapted background, updates the counter, schedules a reset on a trigger and returns the dispatched callback; a capture that throws changes nothing |
| MotionDetection.MotionDetector.FireBackgroundReset | script/motion-detection.js:197-210 | the reset copies the new frame in only when the dashboard is visible, and the frame then scores 0 |
| App.RemainingLoadingTime | app.js:31-32 | the wait is non-negative and ends no earlier than 3000 ms after the load started, exactly then when it is positive |
| App.Dashboard.constructor | app.js:1-6 | the page starts hidden, not loading, with no timer, and the first timer id is 1 |
| App.Dashboard.TriggerDashboardLoad | app.js:9-17 | nothing happens while loading; otherwise loading is set before the data is awaited |
| App.Dashboard.LoadDataReturned | app.js:17-33 | with or without data, the reveal is scheduled no earlier than 3000 ms after the start |
| App.Dashboard.FinishLoading | app.js:33-44 | loading ends, the dashboard shows, lastMotionTime is now and one three-minute timer is live |
| App.Dashboard.FadeToBlack | app.js:48-61 | nothing when hidden; otherwise the timer is cleared and the dashboard hides with no motion time; the invariant is kept |
| App.Dashboard.NoMotionTimeoutFired | app.js:39-43 | the state ends hidden with no timer and no motion time, at least three minutes after the last motion |
| App.Dashboard.OnMotionWhileVisible | app.js:72-85 | the motion time is recorded and the old timer cleared before a new one is armed, leaving one live timer due in three minutes |
| App.Dashboard.GetDashboardState | app.js:86-89 | the reported state is the two flags as stored |
| App.Dashboard.Deliver | app.js:70-90 | a callback that suits the current state keeps the invariant |
| App.AtMostOneLiveTimeout | app.js:75-84 | under the invariant at most one timer is live, and one exactly while visible |
| App.RenewTwice | app.js:72-84 | two renewals leave exactly one live timer, due three minutes after the second |
| App.DetectionCycle | script/motion-detection.js:156-221 | a detection cycle wired to the dashboard keeps both the detector's and the dashboard's invariants |
| Formatters.NatToDecimal | script.js:7 | decimal text is non-empty digits with no leading zero |
| Formatters.IntToString | script.js:7 | an integer's text is non-empty, digits only when non-negative |
| Formatters.DecimalRoundTrip | script.js:7 | a natural's decimal text reads back as that natural |
| Formatters.IntToStringRoundTrip | script.js:7 | an integer's text reads back as that integer |
| Formatters.NatToDecimalInjective | script.js:7 | distinct naturals have distinct texts |
| Formatters.JsRem | script.js:5 | the remainder is the dividend minus the divisor times the quotient rounded toward zero; it has the dividend's sign and is smaller than the divisor |
| Formatters.FormatDuration | script.js:2-10 | the text is '-' exactly when the duration is missing or 0; any other text ends in 'm' |
| Formatters.FormatDurationMissing | script.js:3 | a missing or zero duration shows as '-' |
| Formatters.FormatDurationOf | script.js:4-9 | h hours, m minutes and r seconds show as "<h>h <m>m", or "<m>m" without hours |
| Formatters.FormatDurationUnderAMinute | script.js:6-9 | 1 to 59 seconds show as "0m" |
| Formatters.DurationFields | script.js:4-5 | the minutes shown are 0..59 and hours and minutes together are the whole minutes of the duration |
| Formatters.FormatDurationIsHoursMinutes | script.js:4-9 | a positive duration shows as its whole hours and the minutes of the rest |
| Formatters.HoursMinutesTextInjective | script.js:6-9 | hours and minutes can be read back from the text |
| Formatters.FormatDurationSameText | script.js:2-10 | two positive durations show the same text exactly when they hold the same whole minutes |
| Formatters.FormatDistance | script.js:13-19 | a text comes back exactly below 1000 m; it is '-' exactly when the distance is missing or 0, else it ends in " m"; 1000 m and more give the kilometre form of the same metres |
| Formatters.FormatDistanceBelowAKilometre | script.js:13-18 | a missing or zero distance shows as '-'; below 1000 m it shows as "<meters> m", whose number reads back |

## Left out

- Camera and browser plumbing are not modelled. That covers `getUserMedia`,
  video and canvas creation, `play`, `readyState` polling and the
  `requestAnimationFrame` and `setTimeout` cadence (the 16 ms spacing of
  captures, and the 3000 ms stabilisation delay before `initializeBackground`).
  Frames are inputs, and every scheduled callback is a method called at its
  deadline.
- The `!video || !ctx` and `!motionDetectionActive` early returns are not
  modelled. The detector starts from a ready background, so the unreachable
  `!backgroundFrame` branch is not modelled either.
- Debug logging, `window.motionLogCounter` and the unused `lastFrame` are left
  out: they have no effect on the state.
- `initMotionDetection`, `init` and the module export, which register the
  callbacks, are left out. The callbacks are a returned `Callback` value that
  `Dashboard.Deliver` routes.
- `loadData`, `populateDashboard`, `showLoading`/`hideLoading`, the
  `black-screen` class, `balanceCardHeights` and the resize listener are DOM or
  network work. Only whether data came back is a parameter.
- `formatDistance` for 1000 m and more is not modelled: it depends on
  floating-point `toFixed(2)`. The model returns `Kilometres(meters)` without
  text. `formatDateTime` and `formatTimeRange` are locale-dependent and left out.
- `script/animation.js` is UI timing with no state the core reads.
- IEEE-754 arithmetic is not modelled. Scores and blends are mathematical
  reals, so NaN, for example from a zero-length frame, cannot arise. The
  frames are non-empty with a length that is a multiple of 4.
- `Math.sqrt` is a parameter. Only sqrt(0) = 0 and non-negativity are assumed,
  so no property depends on its exact values.
- The formatters take integers. Fractional seconds or metres, NaN and
  non-numeric inputs are not modelled.
- Formatters.FormatDuration: its properties hold for safe integers
  (|n| < 2^53) only. Above that, doubles make `seconds / 3600` and
  `seconds % 3600` inexact, and from 10^21 on `${n}` gives exponent notation,
  while the model's `int` stays exact.
- Formatters.FormatDistance: the same limit to safe integers applies to the
  "<meters> m" text.
- Formatters.IntToString: gives the decimal text of every integer, while
  JavaScript writes exponent notation from 10^21 on; the formatters only pass
  it safe integers.
- MotionDetection.MotionDetector.Step: reads the clock once per cycle, as the
  `now` parameter, where the source calls `Date.now()` up to three times
  (script/motion-detection.js:155, 181, 191). The detector's invariant holds at
  every cycle boundary.
- Background.InitializeBackground: requires that every successful capture has
  the canvas size, and it does not model a capture whose `getImageData`
  succeeds but whose averaging step throws.
- Clearing a timer that has already fired is a no-op, as in browsers, and timer
  ids are never reused; the model's timer registry assumes both.
