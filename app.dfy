/**
 * The dashboard's visibility state machine in app.js: loading with a minimum
 * duration, the three-minute no-motion timer, fading to black, and the
 * callbacks `init` hands to the motion detector.
 */
module App {

  import opened Wrappers
  import opened Frames
  import opened MotionDetection

  /** Milliseconds without renewed motion before the dashboard fades (NO_MOTION_TIMEOUT). */
  const NoMotionTimeout: int := 3 * 60 * 1000
  /** The loading animation shows for at least this many milliseconds. */
  const MinLoadingTime: int := 3000

  /**
   * Where the asynchronous `triggerDashboardLoad` stands: not running, awaiting
   * `loadData()`, or waiting for the minimum-loading timer it armed.
   */
  datatype LoadPhase = Idle | AwaitingData(startTime: int) | AwaitingReveal(startTime: int, revealAt: int)

  /** `Math.max(0, minLoadingTime - (now - startTime))`. */
  function RemainingLoadingTime(startTime: int, now: int): (r: int)
    ensures r >= 0 && now + r >= startTime + MinLoadingTime
    ensures r == 0 || now + r == startTime + MinLoadingTime
  {
    var elapsedTime := now - startTime;
    if MinLoadingTime - elapsedTime > 0 then MinLoadingTime - elapsedTime else 0
  }

  /**
   * The module state of app.js. Timers are explicit: `liveTimeouts` holds the
   * no-motion timers that are scheduled and neither cleared nor fired (timer
   * id to deadline), `noMotionTimeout` the id the handle variable holds, and
   * `nextTimerId` the id the next `setTimeout` returns.
   */
  class Dashboard {
    var isLoading: bool
    var isDashboardVisible: bool
    var lastMotionTime: Option<int>
    var noMotionTimeout: Option<nat>
    var liveTimeouts: map<nat, int>
    var nextTimerId: nat
    var load: LoadPhase

    /**
     * The invariant the event handlers keep: never loading and visible at once;
     * loading exactly while a load is in flight; visible exactly while the
     * handle holds a timer; and then that timer is the only live one, due three
     * minutes after the last recorded motion. Timer ids are positive, as
     * `setTimeout` returns them, so `if (noMotionTimeout)` tests for a handle.
     */
    ghost predicate Consistent()
      reads this
    {
      && !(isLoading && isDashboardVisible)
      && isLoading == !load.Idle?
      && (load.AwaitingReveal? ==> load.revealAt >= load.startTime + MinLoadingTime)
      && isDashboardVisible == noMotionTimeout.Some?
      && isDashboardVisible == lastMotionTime.Some?
      && nextTimerId >= 1
      && (noMotionTimeout.Some? ==> 1 <= noMotionTimeout.value < nextTimerId)
      && (noMotionTimeout.None? ==> liveTimeouts == map[])
      && (noMotionTimeout.Some? ==>
            liveTimeouts == map[noMotionTimeout.value := lastMotionTime.value + NoMotionTimeout])
    }

    /** The page's initial state: black screen, nothing loading, no timer. */
    constructor ()
      ensures Consistent()
      ensures !isLoading && !isDashboardVisible && lastMotionTime.None? && noMotionTimeout.None?
      ensures liveTimeouts == map[] && load == Idle && nextTimerId == 1
    {
      isLoading := false;
      isDashboardVisible := false;
      lastMotionTime := None;
      noMotionTimeout := None;
      liveTimeouts := map[];
      nextTimerId := 1;
      load := Idle;
    }

    /**
     * The synchronous part of `triggerDashboardLoad()`: ignored while a load is
     * in flight; otherwise marks loading and starts awaiting `loadData()`.
     */
    method TriggerDashboardLoad(now: int)
      modifies this
      ensures old(isLoading) ==> unchanged(this)
      ensures !old(isLoading) ==> isLoading && load == AwaitingData(now)
      ensures !old(isLoading) ==>
                && isDashboardVisible == old(isDashboardVisible) && lastMotionTime == old(lastMotionTime)
                && noMotionTimeout == old(noMotionTimeout) && liveTimeouts == old(liveTimeouts)
                && nextTimerId == old(nextTimerId)
      ensures old(Consistent()) && !old(isDashboardVisible) ==> Consistent()
    {
      if isLoading {
        return;
      }
      isLoading := true;
      var startTime := now;
      load := AwaitingData(startTime);
    }

    /**
     * `await loadData()` returns at `now`, with content or with null (which is
     * only logged): either way the minimum-loading timer is armed for the
     * remaining part of the 3 s.
     */
    method LoadDataReturned(now: int, hasData: bool)
      requires load.AwaitingData?
      modifies this
      ensures load == AwaitingReveal(old(load).startTime, now + RemainingLoadingTime(old(load).startTime, now))
      ensures load.revealAt >= load.startTime + MinLoadingTime
      ensures && isLoading == old(isLoading) && isDashboardVisible == old(isDashboardVisible)
              && lastMotionTime == old(lastMotionTime) && noMotionTimeout == old(noMotionTimeout)
              && liveTimeouts == old(liveTimeouts) && nextTimerId == old(nextTimerId)
      ensures old(Consistent()) ==> Consistent()
    {
      var startTime := load.startTime;
      var remainingTime := RemainingLoadingTime(startTime, now);
      load := AwaitingReveal(startTime, now + remainingTime);
    }

    /**
     * The minimum-loading timer fires: loading ends, the dashboard shows, the
     * motion time is now and a fresh three-minute timer is armed (without
     * clearing the handle first). Under the invariant this is never earlier
     * than 3 s after the load started.
     */
    method FinishLoading(now: int)
      requires load.AwaitingReveal? && load.revealAt <= now
      modifies this
      ensures !isLoading && isDashboardVisible && lastMotionTime == Some(now) && load == Idle
      ensures noMotionTimeout == Some(old(nextTimerId)) && nextTimerId == old(nextTimerId) + 1
      ensures liveTimeouts == old(liveTimeouts)[old(nextTimerId) := now + NoMotionTimeout]
      ensures old(Consistent()) ==>
                && Consistent()
                && now >= old(load).startTime + MinLoadingTime
                && liveTimeouts == map[noMotionTimeout.value := now + NoMotionTimeout]
    {
      isLoading := false;
      isDashboardVisible := true;
      lastMotionTime := Some(now);
      noMotionTimeout := Some(nextTimerId);
      liveTimeouts := liveTimeouts[nextTimerId := now + NoMotionTimeout];
      nextTimerId := nextTimerId + 1;
      load := Idle;
    }

    /** `fadeToBlack()`: nothing unless visible; then clears the timer and hides. */
    method FadeToBlack()
      modifies this
      ensures !old(isDashboardVisible) ==> unchanged(this)
      ensures old(isDashboardVisible) ==>
                && !isDashboardVisible && lastMotionTime.None? && noMotionTimeout.None?
                && liveTimeouts == (if old(noMotionTimeout).Some? then old(liveTimeouts) - {old(noMotionTimeout).value}
                                    else old(liveTimeouts))
                && isLoading == old(isLoading) && load == old(load) && nextTimerId == old(nextTimerId)
      ensures old(Consistent()) ==> Consistent()
    {
      if !isDashboardVisible {
        return;
      }
      if noMotionTimeout.Some? {
        liveTimeouts := liveTimeouts - {noMotionTimeout.value};
        noMotionTimeout := None;
      }
      isDashboardVisible := false;
      lastMotionTime := None;
    }

    /**
     * A no-motion timer fires. Its callback fades to black and then nulls the
     * motion time and the handle. The state always ends hidden with no handle;
     * under the invariant no timer is left and the fade comes at least three
     * minutes after the last motion.
     */
    method NoMotionTimeoutFired(now: int, id: nat)
      requires id in liveTimeouts && liveTimeouts[id] <= now
      modifies this
      ensures !isDashboardVisible && lastMotionTime.None? && noMotionTimeout.None?
      ensures liveTimeouts == (if old(isDashboardVisible) && old(noMotionTimeout).Some?
                               then old(liveTimeouts) - {id} - {old(noMotionTimeout).value}
                               else old(liveTimeouts) - {id})
      ensures isLoading == old(isLoading) && load == old(load) && nextTimerId == old(nextTimerId)
      ensures old(Consistent()) ==>
                && Consistent() && liveTimeouts == map[]
                && old(lastMotionTime).Some? && now >= old(lastMotionTime).value + NoMotionTimeout
    {
      liveTimeouts := liveTimeouts - {id};
      FadeToBlack();
      lastMotionTime := None;
      noMotionTimeout := None;
    }

    /**
     * The `onMotionWhileVisible(now)` callback: records the motion time, clears
     * the timer the handle holds, and arms a new one three minutes from now.
     * From a consistent visible state, exactly one timer is then live.
     */
    method OnMotionWhileVisible(now: int)
      modifies this
      ensures lastMotionTime == Some(now)
      ensures noMotionTimeout == Some(old(nextTimerId)) && nextTimerId == old(nextTimerId) + 1
      ensures liveTimeouts == (if old(noMotionTimeout).Some? then old(liveTimeouts) - {old(noMotionTimeout).value}
                               else old(liveTimeouts))[old(nextTimerId) := now + NoMotionTimeout]
      ensures isLoading == old(isLoading) && isDashboardVisible == old(isDashboardVisible) && load == old(load)
      ensures old(Consistent()) && old(isDashboardVisible) ==>
                Consistent() && liveTimeouts == map[old(nextTimerId) := now + NoMotionTimeout]
    {
      lastMotionTime := Some(now);
      if noMotionTimeout.Some? {
        liveTimeouts := liveTimeouts - {noMotionTimeout.value};
        noMotionTimeout := None;
      }
      noMotionTimeout := Some(nextTimerId);
      liveTimeouts := liveTimeouts[nextTimerId := now + NoMotionTimeout];
      nextTimerId := nextTimerId + 1;
    }

    /** The `getDashboardState` callback: the two flags exactly as stored. */
    function GetDashboardState(): (v: ViewState)
      reads this
      ensures v.isVisible == isDashboardVisible && v.isLoading == isLoading
    {
      ViewState(isDashboardVisible, isLoading)
    }

    /**
     * The callbacks `init` registers with the detector: `onMotionDetected` is
     * `triggerDashboardLoad`, `onMotionWhileVisible` renews the timer. A
     * callback chosen from the current state keeps the invariant.
     */
    method Deliver(cb: Callback, now: int)
      requires Consistent() && Admissible(cb, GetDashboardState())
      modifies this
      ensures Consistent()
      ensures cb.NoCallback? ==> unchanged(this)
      ensures cb.MotionDetected? ==> isLoading && load == AwaitingData(now) && !isDashboardVisible
      ensures cb.MotionWhileVisible? ==>
                && isDashboardVisible && lastMotionTime == Some(cb.now)
                && liveTimeouts == map[noMotionTimeout.value := cb.now + NoMotionTimeout]
    {
      match cb
      case NoCallback =>
      case MotionDetected => TriggerDashboardLoad(now);
      case MotionWhileVisible(t) => OnMotionWhileVisible(t);
    }
  }

  /** Under the invariant at most one no-motion timer is live. */
  lemma AtMostOneLiveTimeout(d: Dashboard)
    requires d.Consistent()
    ensures |d.liveTimeouts| <= 1
    ensures d.isDashboardVisible <==> |d.liveTimeouts| == 1
  {
  }

  /** Two renewals leave exactly one live timer, due three minutes after the second. */
  method RenewTwice(d: Dashboard, first: int, second: int)
    requires d.Consistent() && d.isDashboardVisible
    modifies d
    ensures d.Consistent() && d.isDashboardVisible
    ensures d.noMotionTimeout.Some? && d.liveTimeouts == map[d.noMotionTimeout.value := second + NoMotionTimeout]
  {
    d.OnMotionWhileVisible(first);
    d.OnMotionWhileVisible(second);
  }

  /**
   * One detection cycle of the wired system: the detector reads the dashboard
   * state, runs, and its callback reaches the dashboard. Both invariants hold
   * afterwards.
   */
  method DetectionCycle(detector: MotionDetector, dashboard: Dashboard, now: int, frame: Option<seq<Byte>>)
    requires detector.Valid() && dashboard.Consistent()
    requires frame.Some? ==> |frame.value| == detector.background.Length
    modifies detector, detector.background, dashboard
    ensures detector.Valid() && dashboard.Consistent()
  {
    var view := dashboard.GetDashboardState();
    var cb := detector.Step(now, frame, view);
    dashboard.Deliver(cb, now);
  }
}
