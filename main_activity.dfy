/**
 * The activity itself: its five timer fields updated in place by the click
 * handlers, the countdown callbacks, the shake branch of the accelerometer
 * listener and the two lifecycle hooks. Each method states its new fields as
 * the matching function of TimerMachine applied to the old ones.
 */
module LazyTimer {
  import opened Options
  import opened JavaLang
  import opened TimerMachine

  class MainActivity {
    var startTimeInMillis: int
    var timeLeftInMillis: int
    var timerRunning: bool
    var endTime: int
    var shakeTimestamp: int

    /** The five fields as one value. */
    function Fields(): State
      reads this
    {
      State(startTimeInMillis, timeLeftInMillis, timerRunning, endTime, shakeTimestamp)
    }

    /** A new activity: every field holds Java's default value. */
    constructor ()
      ensures Fields() == INITIAL
    {
      startTimeInMillis, timeLeftInMillis, timerRunning, endTime, shakeTimestamp := 0, 0, false, 0, 0;
    }

    method ResetTimer()
      modifies this
      ensures Fields() == TimerMachine.ResetTimer(old(Fields()))
      ensures timeLeftInMillis == startTimeInMillis
    {
      timeLeftInMillis := startTimeInMillis;
    }

    method SetTime(milliseconds: int)
      modifies this
      ensures Fields() == TimerMachine.SetTime(old(Fields()), milliseconds)
      ensures startTimeInMillis == milliseconds && timeLeftInMillis == milliseconds
    {
      startTimeInMillis := milliseconds;
      ResetTimer();
    }

    /** The Set click handler: the result says which message, if any, is shown. */
    method SetClicked(input: string) returns (outcome: SetOutcome)
      requires SetInputReadable(input)
      modifies this
      ensures outcome == SetOutcomeOf(input)
      ensures Fields() == SetClick(old(Fields()), input)
    {
      if |input| == 0 {
        return FieldEmpty;
      }
      var millisInput := LiteralValue(input) * MILLIS_PER_MINUTE;
      if millisInput == 0 {
        return NotPositive;
      }
      SetTime(millisInput);
      outcome := Accepted(millisInput);
    }

    /** Starts the countdown with the time left; the countdown itself is outside the model. */
    method StartTimer(now: int)
      modifies this
      ensures Fields() == TimerMachine.StartTimer(old(Fields()), now)
      ensures timerRunning && endTime == now + timeLeftInMillis
    {
      endTime := now + timeLeftInMillis;
      timerRunning := true;
    }

    /** Cancels the countdown (no field changes for that) and clears the running flag. */
    method PauseTimer()
      modifies this
      ensures Fields() == TimerMachine.PauseTimer(old(Fields()))
      ensures !timerRunning
    {
      timerRunning := false;
    }

    method OnTick(millisUntilFinished: int)
      modifies this
      ensures Fields() == TimerMachine.OnTick(old(Fields()), millisUntilFinished)
    {
      timeLeftInMillis := millisUntilFinished;
    }

    method OnFinish()
      modifies this
      ensures Fields() == TimerMachine.OnFinish(old(Fields()))
    {
      timerRunning := false;
    }

    method StartPauseClicked(now: int)
      modifies this
      ensures Fields() == StartPause(old(Fields()), now)
      ensures timerRunning == !old(timerRunning)
    {
      if timerRunning {
        PauseTimer();
      } else {
        StartTimer(now);
      }
    }

    /**
     * The shake branch of the accelerometer listener, for a sample already
     * classified; the listener reads the clock as `now`, `startTimer` as `later`.
     */
    method SensorChanged(isTrigger: bool, now: int, later: int)
      modifies this
      ensures Fields() == OnSensorSample(old(Fields()), isTrigger, now, later)
    {
      if isTrigger {
        if shakeTimestamp + SHAKE_SLOP_TIME_MS > now {
          return;
        }
        if timerRunning {
          PauseTimer();
        } else {
          StartTimer(later);
        }
        shakeTimestamp := now;
      }
    }

    /** `onStop`: the store written from the fields; the fields do not change. */
    method OnStop() returns (prefs: Prefs)
      ensures prefs.startTimeInMillis == Some(startTimeInMillis)
      ensures prefs.millisLeft == Some(timeLeftInMillis)
      ensures prefs.timerRunning == Some(timerRunning)
      ensures prefs.endTime == Some(endTime)
      ensures prefs == Save(Fields())
    {
      prefs := Prefs(None, None, None, None);
      prefs := prefs.(startTimeInMillis := Some(startTimeInMillis));
      prefs := prefs.(millisLeft := Some(timeLeftInMillis));
      prefs := prefs.(timerRunning := Some(timerRunning));
      prefs := prefs.(endTime := Some(endTime));
    }

    /** `onStart`: reads the store, the clock as `now`, and `startTimer` reads the clock as `later`. */
    method OnStart(prefs: Prefs, now: int, later: int)
      modifies this
      ensures Fields() == Restore(old(Fields()), prefs, now, later)
      ensures timerRunning ==> timeLeftInMillis >= 0 && endTime == prefs.endTime.GetOr(0) + (later - now)
    {
      startTimeInMillis := prefs.startTimeInMillis.GetOr(DEFAULT_START_TIME_MS);
      timeLeftInMillis := prefs.millisLeft.GetOr(startTimeInMillis);
      timerRunning := prefs.timerRunning.GetOr(false);
      if timerRunning {
        endTime := prefs.endTime.GetOr(0);
        timeLeftInMillis := endTime - now;
        if timeLeftInMillis < 0 {
          timeLeftInMillis := 0;
          timerRunning := false;
        } else {
          StartTimer(later);
        }
      }
    }
  }

  /**
   * A client of the class: two shakes 400 ms apart after a quiet second start
   * the timer once; a third shake a second after the first pauses it again.
   * Each time `startTimer` reads the clock a millisecond after the listener.
   */
  method ShakeTwiceQuickly(a: MainActivity, now: int)
    requires !a.timerRunning && a.shakeTimestamp + SHAKE_SLOP_TIME_MS <= now
    modifies a
    ensures a.timerRunning == false && a.shakeTimestamp == now + SHAKE_SLOP_TIME_MS
  {
    a.SensorChanged(true, now, now + 1);
    assert a.timerRunning && a.endTime == now + 1 + a.timeLeftInMillis;
    a.SensorChanged(true, now + 400, now + 401);
    assert a.timerRunning && a.shakeTimestamp == now;
    a.SensorChanged(true, now + SHAKE_SLOP_TIME_MS, now + SHAKE_SLOP_TIME_MS + 1);
  }
}
