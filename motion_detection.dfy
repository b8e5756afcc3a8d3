/**
 * The per-frame detector `detectMotion`: background adaptation gate,
 * consecutive-sample counter with cooldown, trigger, callback choice and the
 * delayed background reset.
 */
module MotionDetection {

  import opened Wrappers
  import opened Frames
  import opened MotionScore
  import opened Background

  /** Score above which a cycle counts as motion (MOTION_THRESHOLD). */
  const MotionThreshold: real := 15.0
  /** Consecutive motion cycles that make a trigger (MOTION_SAMPLES). */
  const MotionSamples: nat := 50
  /** Milliseconds after a trigger during which the counter is frozen (MOTION_COOLDOWN). */
  const MotionCooldown: int := 8000
  /** Milliseconds after a trigger before the background may adapt again. */
  const AdaptationDelay: int := 15000
  /** The background adapts on every 20th frame only. */
  const AdaptationPeriod: nat := 20
  /** Milliseconds between a trigger and its conditional background reset. */
  const ResetDelay: int := 2000

  /** What `getDashboardState()` reports. */
  datatype ViewState = ViewState(isVisible: bool, isLoading: bool)

  /** The callback a detection cycle invokes, if any. */
  datatype Callback = NoCallback | MotionDetected | MotionWhileVisible(now: int)

  /** motionSampleCount and lastMotionTriggerTime. */
  datatype Counter = Counter(samples: int, lastTrigger: int)

  datatype CycleOutcome = CycleOutcome(counter: Counter, fired: bool)

  /** One detection cycle as the counter sees it: its instant and its motion score. */
  datatype Cycle = Cycle(now: int, motion: real)

  /**
   * Whether a cycle at `now` falls in the cooldown after the trigger at
   * `lastTrigger`: every instant from the trigger's own up to 8 s after it
   * does, and every instant from 8 s after it does not.
   */
  predicate InCooldown(lastTrigger: int, now: int)
    ensures lastTrigger <= now < lastTrigger + MotionCooldown ==> InCooldown(lastTrigger, now)
    ensures now >= lastTrigger + MotionCooldown ==> !InCooldown(lastTrigger, now)
  {
    now - lastTrigger < MotionCooldown
  }

  /** The adaptation gate, evaluated with frameCount already incremented. */
  predicate ShouldAdapt(view: ViewState, now: int, lastTrigger: int, frameCount: int)
    ensures ShouldAdapt(view, now, lastTrigger, frameCount) ==> !view.isVisible && !InCooldown(lastTrigger, now)
    ensures ShouldAdapt(view, now, lastTrigger, frameCount) ==> frameCount % AdaptationPeriod == 0
    ensures lastTrigger <= now <= lastTrigger + AdaptationDelay ==> !ShouldAdapt(view, now, lastTrigger, frameCount)
  {
    !view.isVisible && now - lastTrigger > AdaptationDelay && frameCount % AdaptationPeriod == 0
  }

  /**
   * The counter's part of a cycle. It fires exactly when the cycle is outside
   * the cooldown, its motion exceeds the threshold and it is the 50th such
   * cycle in a row; a trigger restarts the count and the cooldown.
   */
  function CounterStep(c: Counter, now: int, motion: real): (o: CycleOutcome)
    ensures 0 <= c.samples < MotionSamples ==> 0 <= o.counter.samples < MotionSamples
    ensures o.fired <==> !InCooldown(c.lastTrigger, now) && motion > MotionThreshold && c.samples + 1 >= MotionSamples
    ensures o.fired ==> o.counter == Counter(0, now)
    ensures !o.fired ==> o.counter.lastTrigger == c.lastTrigger
  {
    var inCooldown := InCooldown(c.lastTrigger, now);
    if motion > MotionThreshold && !inCooldown then
      var samples := c.samples + 1;
      if samples >= MotionSamples then CycleOutcome(Counter(0, now), true)
      else CycleOutcome(Counter(samples, c.lastTrigger), false)
    else if !inCooldown then CycleOutcome(Counter(0, c.lastTrigger), false)
    else CycleOutcome(c, false)
  }

  /** The outcome after each of a run of cycles. */
  function Trace(c: Counter, cycles: seq<Cycle>): (t: seq<CycleOutcome>)
    ensures |t| == |cycles|
    decreases |cycles|
  {
    if cycles == [] then []
    else
      var o := CounterStep(c, cycles[0].now, cycles[0].motion);
      [o] + Trace(o.counter, cycles[1..])
  }

  /**
   * Outside the cooldown, a cycle with motion above the threshold adds one to
   * the counter; one at or below it clears the counter; inside the cooldown
   * the counter is left as it is. No cycle fires but a counting one.
   */
  lemma CounterRules(c: Counter, now: int, motion: real)
    requires 0 <= c.samples < MotionSamples
    ensures var o := CounterStep(c, now, motion);
      && (InCooldown(c.lastTrigger, now) ==> o == CycleOutcome(c, false))
      && (!InCooldown(c.lastTrigger, now) && motion <= MotionThreshold ==> o == CycleOutcome(Counter(0, c.lastTrigger), false))
      && (!InCooldown(c.lastTrigger, now) && motion > MotionThreshold && c.samples + 1 < MotionSamples ==>
            o == CycleOutcome(Counter(c.samples + 1, c.lastTrigger), false))
  {
  }

  /**
   * From a count of s outside the cooldown, cycles with motion above the
   * threshold raise the count one by one without firing, and the (50 - s)-th
   * of them fires, restarting the count and setting the trigger time.
   */
  lemma {:induction false} QualifyingRun(c: Counter, cycles: seq<Cycle>)
    requires 0 <= c.samples < MotionSamples
    requires forall k :: 0 <= k < |cycles| ==>
               cycles[k].motion > MotionThreshold && !InCooldown(c.lastTrigger, cycles[k].now)
    ensures forall k :: 0 <= k < |cycles| && c.samples + k + 1 < MotionSamples ==>
              Trace(c, cycles)[k] == CycleOutcome(Counter(c.samples + k + 1, c.lastTrigger), false)
    ensures MotionSamples - c.samples <= |cycles| ==>
              var k := MotionSamples - c.samples - 1;
              Trace(c, cycles)[k] == CycleOutcome(Counter(0, cycles[k].now), true)
    decreases |cycles|
  {
    if cycles != [] {
      var o := CounterStep(c, cycles[0].now, cycles[0].motion);
      if c.samples + 1 < MotionSamples {
        assert o.counter == Counter(c.samples + 1, c.lastTrigger);
        QualifyingRun(o.counter, cycles[1..]);
        var t := Trace(c, cycles);
        assert forall k :: 1 <= k < |cycles| ==> t[k] == Trace(o.counter, cycles[1..])[k - 1];
      }
    }
  }

  /** During the cooldown no cycle fires and the counter stays as it is, whatever the motion. */
  lemma {:induction false} CooldownRun(c: Counter, cycles: seq<Cycle>)
    requires forall k :: 0 <= k < |cycles| ==> InCooldown(c.lastTrigger, cycles[k].now)
    ensures forall k :: 0 <= k < |cycles| ==> Trace(c, cycles)[k] == CycleOutcome(c, false)
    decreases |cycles|
  {
    if cycles != [] {
      CooldownRun(c, cycles[1..]);
      var t := Trace(c, cycles);
      assert forall k :: 1 <= k < |cycles| ==> t[k] == Trace(c, cycles[1..])[k - 1];
    }
  }

  /** The counter after a run of cycles. */
  function Final(c: Counter, cycles: seq<Cycle>): Counter
  {
    if cycles == [] then c else Trace(c, cycles)[|cycles| - 1].counter
  }

  lemma {:induction false} TraceAppend(c: Counter, a: seq<Cycle>, b: seq<Cycle>)
    ensures Trace(c, a + b) == Trace(c, a) + Trace(Final(c, a), b)
    decreases |a|
  {
    if a != [] {
      var o := CounterStep(c, a[0].now, a[0].motion);
      assert (a + b)[1..] == a[1..] + b;
      TraceAppend(o.counter, a[1..], b);
      if a[1..] == [] {
        assert Final(c, a) == o.counter;
      } else {
        assert Final(c, a) == Final(o.counter, a[1..]);
      }
    } else {
      assert a + b == b;
    }
  }

  /**
   * Sustained motion: starting from a clear counter outside the cooldown, a run
   * of cycles all scoring above the threshold fires once, on the 50th cycle,
   * and not again while the following cycles fall within 8 s of that trigger.
   */
  lemma SustainedMotionFiresOnce(c: Counter, cycles: seq<Cycle>)
    requires c.samples == 0 && |cycles| >= MotionSamples
    requires forall k :: 0 <= k < |cycles| ==> cycles[k].motion > MotionThreshold
    requires forall k :: 0 <= k < MotionSamples ==> !InCooldown(c.lastTrigger, cycles[k].now)
    requires forall k :: MotionSamples <= k < |cycles| ==> InCooldown(cycles[MotionSamples - 1].now, cycles[k].now)
    ensures forall k :: 0 <= k < |cycles| ==> (Trace(c, cycles)[k].fired <==> k == MotionSamples - 1)
  {
    var a, b := cycles[..MotionSamples], cycles[MotionSamples..];
    assert cycles == a + b;
    QualifyingRun(c, a);
    var trigger := Counter(0, a[MotionSamples - 1].now);
    assert Final(c, a) == trigger;
    CooldownRun(trigger, b);
    TraceAppend(c, a, b);
  }

  /** Cycles counted by the detector: motion above the threshold. */
  predicate Qualifies(cycle: Cycle)
  {
    cycle.motion > MotionThreshold
  }

  /**
   * The false-positive defence: outside the cooldown, a trigger needs at least
   * 50 - s cycles (s the starting count), and the last min(n, 50) cycles before
   * and including it all scored above the threshold. Isolated large deltas
   * never trigger.
   */
  lemma {:induction false} TriggerNeedsConsecutiveMotion(c: Counter, cycles: seq<Cycle>)
    requires 0 <= c.samples < MotionSamples && cycles != []
    requires forall k :: 0 <= k < |cycles| ==> !InCooldown(c.lastTrigger, cycles[k].now)
    requires forall j :: 0 <= j < |cycles| - 1 ==> !Trace(c, cycles)[j].fired
    requires Trace(c, cycles)[|cycles| - 1].fired
    ensures |cycles| >= MotionSamples - c.samples
    ensures forall j :: 0 <= j < |cycles| && j >= |cycles| - MotionSamples ==> Qualifies(cycles[j])
    decreases |cycles|
  {
    var o := CounterStep(c, cycles[0].now, cycles[0].motion);
    var t := Trace(c, cycles);
    if |cycles| > 1 {
      assert !o.fired by { assert t[0] == o; }
      var rest := cycles[1..];
      assert forall j :: 0 <= j < |rest| ==> Trace(o.counter, rest)[j] == t[j + 1];
      TriggerNeedsConsecutiveMotion(o.counter, rest);
      if Qualifies(cycles[0]) {
        assert o.counter.samples == c.samples + 1;
      } else {
        assert o.counter.samples == 0;
      }
      forall j | 0 <= j < |cycles| && j >= |cycles| - MotionSamples
        ensures Qualifies(cycles[j])
      {
        if j > 0 {
          assert cycles[j] == rest[j - 1];
        }
      }
    }
  }

  /** The callback chosen from the view state read at the start of the cycle. */
  function Dispatch(fired: bool, view: ViewState, now: int): (cb: Callback)
    ensures cb.MotionWhileVisible? <==> fired && view.isVisible
    ensures cb.MotionWhileVisible? ==> cb.now == now
    ensures cb.MotionDetected? <==> fired && !view.isVisible && !view.isLoading
    ensures cb.NoCallback? <==> !fired || (!view.isVisible && view.isLoading)
  {
    if !fired then NoCallback
    else if view.isVisible then MotionWhileVisible(now)
    else if !view.isLoading then MotionDetected
    else NoCallback
  }

  /** A callback only ever goes to the view it suits: acquisition to a hidden, idle dashboard, renewal to a visible one. */
  predicate Admissible(cb: Callback, view: ViewState)
  {
    && (cb.MotionDetected? ==> !view.isVisible && !view.isLoading)
    && (cb.MotionWhileVisible? ==> view.isVisible)
  }

  /**
   * The detector's module state in motion-detection.js, once the background is
   * ready and the loop has started. Math.sqrt is the `sqrt` it is given.
   */
  class MotionDetector {
    const sqrt: real -> real
    /** backgroundFrame.data: mutated in place, never replaced. */
    const background: array<Byte>
    var frameCount: int
    var motionSampleCount: int
    var lastMotionTriggerTime: int
    /** Deadlines of scheduled 2 s background resets, earliest first. */
    var pendingResets: seq<int>

    ghost predicate Valid()
      reads this
    {
      && IsSqrt(sqrt)
      && background.Length > 0 && background.Length % 4 == 0
      && frameCount >= 0
      && 0 <= motionSampleCount < MotionSamples
    }

    function CounterState(): Counter
      reads this
    {
      Counter(motionSampleCount, lastMotionTriggerTime)
    }

    /** `startMotionDetection` over a ready background, from the module's initial state. */
    constructor (bg: array<Byte>, sqrt: real -> real)
      requires IsSqrt(sqrt) && bg.Length > 0 && bg.Length % 4 == 0
      ensures Valid() && background == bg && this.sqrt == sqrt
      ensures frameCount == 0 && motionSampleCount == 0 && lastMotionTriggerTime == 0 && pendingResets == []
    {
      this.sqrt := sqrt;
      background := bg;
      frameCount := 0;
      motionSampleCount := 0;
      lastMotionTriggerTime := 0;
      pendingResets := [];
    }

    /**
     * One `detectMotion` cycle at instant `now`. `frame` is the captured frame
     * (None: the capture threw, which the cycle's catch swallows) and `view`
     * the dashboard state read once at the start of the cycle.
     */
    method Step(now: int, frame: Option<seq<Byte>>, view: ViewState) returns (cb: Callback)
      requires Valid()
      requires frame.Some? ==> |frame.value| == background.Length
      modifies this, background
      ensures Valid() && Admissible(cb, view)
      ensures frame.None? ==>
                && cb == NoCallback && background[..] == old(background[..])
                && frameCount == old(frameCount) && CounterState() == old(CounterState())
                && pendingResets == old(pendingResets)
      ensures frame.Some? ==>
                var adapt := ShouldAdapt(view, now, old(lastMotionTriggerTime), old(frameCount) + 1);
                && frameCount == old(frameCount) + 1
                && background[..] == (if adapt then Adapted(old(background[..]), frame.value) else old(background[..]))
                && var o := CounterStep(old(CounterState()), now, Score(background[..], frame.value, sqrt));
                   && CounterState() == o.counter
                   && pendingResets == old(pendingResets) + (if o.fired then [now + ResetDelay] else [])
                   && cb == Dispatch(o.fired, view, now)
    {
      if frame.None? {
        return NoCallback;
      }
      var currentFrame := frame.value;
      ghost var c0 := CounterState();
      ghost var adapt := ShouldAdapt(view, now, lastMotionTriggerTime, frameCount + 1);
      frameCount := frameCount + 1;
      var timeSinceLastMotion := now - lastMotionTriggerTime;
      if !view.isVisible && timeSinceLastMotion > AdaptationDelay && frameCount % AdaptationPeriod == 0 {
        Adapt(background, currentFrame);
      }
      assert background[..] == (if adapt then Adapted(old(background[..]), currentFrame) else old(background[..]));
      var motion := CalculateMotion(background[..], currentFrame, sqrt);
      ghost var o := CounterStep(c0, now, motion);
      var timeSinceLastTrigger := now - lastMotionTriggerTime;
      var inCooldown := timeSinceLastTrigger < MotionCooldown;
      cb := NoCallback;
      if motion > MotionThreshold && !inCooldown {
        motionSampleCount := motionSampleCount + 1;
        if motionSampleCount >= MotionSamples {
          lastMotionTriggerTime := now;
          motionSampleCount := 0;
          pendingResets := pendingResets + [now + ResetDelay];
          if view.isVisible {
            cb := MotionWhileVisible(now);
          } else if !view.isLoading {
            cb := MotionDetected;
          }
        }
      } else if !inCooldown {
        motionSampleCount := 0;
      }
      assert CounterState() == o.counter;
    }

    /**
     * The 2 s reset timer fires: if the dashboard is visible then, the frame
     * captured at that moment replaces the background byte for byte, and it
     * then scores 0 against the background.
     */
    method FireBackgroundReset(now: int, frame: Option<seq<Byte>>, view: ViewState)
      requires Valid() && pendingResets != [] && pendingResets[0] <= now
      requires frame.Some? ==> |frame.value| == background.Length
      modifies this, background
      ensures Valid()
      ensures pendingResets == old(pendingResets)[1..]
      ensures frameCount == old(frameCount) && CounterState() == old(CounterState())
      ensures background[..] == if view.isVisible && frame.Some? then frame.value else old(background[..])
      ensures view.isVisible && frame.Some? ==> Score(background[..], frame.value, sqrt) == 0.0
    {
      pendingResets := pendingResets[1..];
      if view.isVisible && frame.Some? {
        Reset(background, frame.value);
        ScoreOfIdenticalFrames(frame.value, sqrt);
      }
    }
  }
}
