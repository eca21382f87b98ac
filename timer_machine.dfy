/**
 * The countdown timer of MainActivity as values: the five fields the activity
 * keeps, the effect of each handler on them, the preference snapshot written
 * when the activity stops and read when it starts, and runs of events.
 *
 * The wall clock (`System.currentTimeMillis()`) is a parameter: `now` for the
 * reading a handler takes itself, and `later` for the second reading that
 * `startTimer` takes when a handler calls it (the shake listener and
 * `onStart`); the two need not be equal. The countdown's `onTick` and `onFinish` callbacks are events supplied from
 * outside; cancelling the countdown changes none of the fields.
 */
module TimerMachine {
  import opened Options
  import opened JavaLang
  import WatchInterface

  /** Shake triggers closer than this to the last accepted one are ignored. */
  const SHAKE_SLOP_TIME_MS := 1000
  /** The configured time when the preferences hold none: ten minutes. */
  const DEFAULT_START_TIME_MS := 600_000
  const MILLIS_PER_MINUTE := 60_000

  /** The activity's fields `mStartTimeInMillis`, `mTimeLeftInMillis`, `mTimerRunning`, `mEndTime`, `mShakeTimestamp`. */
  datatype State = State(
    startTimeInMillis: int,
    timeLeftInMillis: int,
    timerRunning: bool,
    endTime: int,
    shakeTimestamp: int)

  /** The fields of a new activity: Java's defaults. */
  const INITIAL := State(0, 0, false, 0, 0)

  function ResetTimer(s: State): State {
    s.(timeLeftInMillis := s.startTimeInMillis)
  }

  function SetTime(s: State, millis: int): State {
    ResetTimer(s.(startTimeInMillis := millis))
  }

  function StartTimer(s: State, now: int): State {
    s.(endTime := now + s.timeLeftInMillis, timerRunning := true)
  }

  function PauseTimer(s: State): State {
    s.(timerRunning := false)
  }

  function OnTick(s: State, millisUntilFinished: int): State {
    s.(timeLeftInMillis := millisUntilFinished)
  }

  function OnFinish(s: State): State {
    s.(timerRunning := false)
  }

  /** The Start/Pause click handler; also what an accepted shake does. */
  function StartPause(s: State, now: int): State {
    if s.timerRunning then PauseTimer(s) else StartTimer(s, now)
  }

  /** A trigger at `now` is accepted when at least SHAKE_SLOP_TIME_MS passed since the last accepted one. */
  predicate ShakeAccepted(s: State, now: int) {
    s.shakeTimestamp + SHAKE_SLOP_TIME_MS <= now
  }

  /**
   * The accelerometer listener, after the sample has been classified as a
   * trigger or not; it reads the clock as `now`, and `startTimer` reads it
   * again as `later`. A trigger is accepted exactly when the last accepted
   * one is at least SHAKE_SLOP_TIME_MS old; an accepted trigger toggles the
   * timer and records `now`, anything else changes no field.
   */
  function OnSensorSample(s: State, isTrigger: bool, now: int, later: int): (t: State)
    ensures if isTrigger && s.shakeTimestamp + SHAKE_SLOP_TIME_MS <= now then
        && t.timerRunning == !s.timerRunning && t.shakeTimestamp == now
        && t.timeLeftInMillis == s.timeLeftInMillis && t.startTimeInMillis == s.startTimeInMillis
        && (t.timerRunning ==> t.endTime == later + s.timeLeftInMillis)
        && (!t.timerRunning ==> t.endTime == s.endTime)
      else t == s
  {
    if isTrigger && ShakeAccepted(s, now) then StartPause(s, later).(shakeTimestamp := now) else s
  }

  /** What the Set click handler does with the entered text; the first two show a message. */
  datatype SetOutcome = FieldEmpty | NotPositive | Accepted(millis: int)

  /**
   * The texts the Set handler can process: the empty text, or a literal that
   * `Long.parseLong` reads and whose value in milliseconds fits a `long`.
   */
  predicate SetInputReadable(input: string) {
    |input| == 0 || (IsLongLiteral(input) && LONG_MIN <= LiteralValue(input) * MILLIS_PER_MINUTE <= LONG_MAX)
  }

  /**
   * Set rejects exactly the empty text and the texts worth zero milliseconds;
   * any other entry, negative ones included, is accepted in milliseconds.
   */
  function SetOutcomeOf(input: string): (r: SetOutcome)
    requires SetInputReadable(input)
    ensures r == FieldEmpty <==> |input| == 0
    ensures r == NotPositive <==> |input| > 0 && LiteralValue(input) == 0
    ensures r.Accepted? ==> r.millis == LiteralValue(input) * MILLIS_PER_MINUTE && r.millis != 0
  {
    if |input| == 0 then FieldEmpty
    else
      var millisInput := LiteralValue(input) * MILLIS_PER_MINUTE;
      if millisInput == 0 then NotPositive else Accepted(millisInput)
  }

  /**
   * The Set click handler: a rejected entry changes nothing; an accepted one
   * becomes both the configured time and the time left, and nothing else changes.
   */
  function SetClick(s: State, input: string): (t: State)
    requires SetInputReadable(input)
    ensures |input| == 0 || LiteralValue(input) == 0 ==> t == s
    ensures |input| > 0 && LiteralValue(input) != 0 ==>
      var m := LiteralValue(input) * MILLIS_PER_MINUTE;
      t == s.(startTimeInMillis := m, timeLeftInMillis := m)
  {
    match SetOutcomeOf(input)
    case Accepted(millis) => SetTime(s, millis)
    case _ => s
  }

  /** The preference store "prefs": each of the four keys may be absent. */
  datatype Prefs = Prefs(
    startTimeInMillis: Option<int>,
    millisLeft: Option<int>,
    timerRunning: Option<bool>,
    endTime: Option<int>)

  /** The store before anything was saved. */
  const NO_PREFS := Prefs(None, None, None, None)

  /** `onStop`: all four keys are written, so the store afterwards depends on the fields only. */
  function Save(s: State): Prefs {
    Prefs(Some(s.startTimeInMillis), Some(s.timeLeftInMillis), Some(s.timerRunning), Some(s.endTime))
  }

  /**
   * `onStart`: the fields after reading the store, with the clock read as
   * `now` for the time left and as `later` by `startTimer`. The configured
   * time defaults to ten minutes and the time left to the configured time. A
   * running snapshot has its time left recomputed from the stored end time;
   * when that is past it is clamped to 0 and the timer is stopped with the
   * stored end time, otherwise the timer is started again, which moves the
   * end time on by the time between the two readings. The shake timestamp is
   * never restored, and the end time only for a running snapshot.
   */
  function Restore(s: State, p: Prefs, now: int, later: int): (t: State)
    ensures var start := p.startTimeInMillis.GetOr(DEFAULT_START_TIME_MS);
      var end := p.endTime.GetOr(0);
      && t.startTimeInMillis == start
      && t.shakeTimestamp == s.shakeTimestamp
      && (!p.timerRunning.GetOr(false) ==>
            !t.timerRunning && t.timeLeftInMillis == p.millisLeft.GetOr(start) && t.endTime == s.endTime)
      && (p.timerRunning.GetOr(false) ==>
            && t.timeLeftInMillis >= 0
            && (t.timerRunning <==> end >= now)
            && t.timeLeftInMillis == (if end >= now then end - now else 0)
            && t.endTime == (if end >= now then end + (later - now) else end))
    ensures t.timerRunning ==> t.endTime == later + t.timeLeftInMillis
  {
    var start := p.startTimeInMillis.GetOr(DEFAULT_START_TIME_MS);
    var loaded := s.(
      startTimeInMillis := start,
      timeLeftInMillis := p.millisLeft.GetOr(start),
      timerRunning := p.timerRunning.GetOr(false));
    if !loaded.timerRunning then loaded
    else
      var end := p.endTime.GetOr(0);
      var recomputed := loaded.(endTime := end, timeLeftInMillis := end - now);
      if recomputed.timeLeftInMillis < 0 then recomputed.(timeLeftInMillis := 0, timerRunning := false)
      else StartTimer(recomputed, later)
  }

  // ---------------------------------------------------------------------------
  // Properties of single handlers

  /** Entering the decimal text of a positive number of minutes sets that many minutes. */
  lemma SetDecimalMinutes(s: State, minutes: nat)
    requires 0 < minutes && minutes * MILLIS_PER_MINUTE <= LONG_MAX
    ensures SetInputReadable(Decimal(minutes))
    ensures var t := SetClick(s, Decimal(minutes));
      t.startTimeInMillis == minutes * MILLIS_PER_MINUTE && t.timeLeftInMillis == minutes * MILLIS_PER_MINUTE
  {
    IntToStringRoundTrip(minutes);
  }

  /** Set does not reject negative entries: "-5" sets a time left of minus five minutes. */
  lemma SetAcceptsNegative(s: State)
    ensures SetInputReadable("-5")
    ensures SetClick(s, "-5").timeLeftInMillis == -300_000
    ensures SetClick(s, "-5").startTimeInMillis == -300_000
  {
    IntToStringRoundTrip(-5);
    assert IntToString(-5) == "-5" by {
      assert Decimal(5) == "5";
    }
  }

  /** After setting a time, resetting restores exactly that time. */
  lemma SetThenReset(s: State, millis: int, ticked: int)
    ensures ResetTimer(OnTick(SetTime(s, millis), ticked)).timeLeftInMillis == millis
    ensures ResetTimer(SetTime(s, millis)) == SetTime(s, millis)
  {
  }

  /**
   * Starting fixes the end time at `now` plus the time left and sets the
   * running flag; nothing else changes.
   */
  lemma StartTimerEffect(s: State, now: int)
    ensures var t := StartTimer(s, now);
      t.endTime - now == s.timeLeftInMillis && t.timerRunning
      && t.(endTime := s.endTime, timerRunning := s.timerRunning) == s
  {
  }

  /** Pausing twice is pausing once, and pausing keeps the time left, configured time and end time. */
  lemma PauseIdempotent(s: State)
    ensures PauseTimer(PauseTimer(s)) == PauseTimer(s)
    ensures !PauseTimer(s).timerRunning
    ensures PauseTimer(s).(timerRunning := s.timerRunning) == s
  {
  }

  /** Finishing stops the timer without clearing the time left the last tick left behind. */
  lemma FinishKeepsTimeLeft(s: State, lastTick: int)
    ensures OnFinish(OnTick(s, lastTick)).timeLeftInMillis == lastTick
    ensures !OnFinish(s).timerRunning && OnFinish(s).(timerRunning := s.timerRunning) == s
  {
  }

  /** Start/Pause flips the running flag; starting and then pausing leaves the time left and configured time. */
  lemma StartPauseToggles(s: State, now: int, later: int)
    ensures StartPause(s, now).timerRunning == !s.timerRunning
    ensures var t := StartPause(StartPause(s, now), later);
      t.timerRunning == s.timerRunning
      && t.timeLeftInMillis == s.timeLeftInMillis && t.startTimeInMillis == s.startTimeInMillis
  {
  }

  /**
   * Two triggers: when the second comes less than SHAKE_SLOP_TIME_MS after an
   * accepted first (or the clock went back) it is dropped and the timer is
   * toggled once; otherwise it is toggled twice.
   */
  lemma ShakeDebounce(s: State, t1: int, l1: int, t2: int, l2: int)
    requires ShakeAccepted(s, t1)
    ensures var once := OnSensorSample(s, true, t1, l1);
      var twice := OnSensorSample(once, true, t2, l2);
      (t2 < t1 + SHAKE_SLOP_TIME_MS ==> twice == once && twice.timerRunning == !s.timerRunning)
      && (t2 >= t1 + SHAKE_SLOP_TIME_MS ==> twice.timerRunning == s.timerRunning && twice.shakeTimestamp == t2)
  {
  }

  /**
   * A shake starts the timer even when less than a second is left, which the
   * Start button does not allow because it is hidden then.
   */
  lemma ShakeStartsWithLittleTimeLeft(s: State, now: int, later: int)
    requires !s.timerRunning && s.timeLeftInMillis < WatchInterface.MIN_STARTABLE_MILLIS && ShakeAccepted(s, now)
    ensures OnSensorSample(s, true, now, later).timerRunning
  {
  }

  // ---------------------------------------------------------------------------
  // Saving and restoring

  /** An empty store gives a stopped timer of ten minutes with all of it left. */
  lemma RestoreDefaults(s: State, now: int, later: int)
    ensures var t := Restore(s, NO_PREFS, now, later);
      t.startTimeInMillis == 600_000 && t.timeLeftInMillis == 600_000 && !t.timerRunning
  {
  }

  /**
   * Saving a stopped timer and restoring it gives back its configured time
   * and time left. A running one comes back with what remains of it at `now`,
   * never less than zero; if some remains it runs on towards the saved end
   * time moved on by the time between the two clock readings, which is the
   * saved end time itself when both readings agree.
   */
  lemma SaveRestore(s: State, other: State, now: int, later: int)
    ensures var t := Restore(other, Save(s), now, later);
      t.startTimeInMillis == s.startTimeInMillis
      && (!s.timerRunning ==> !t.timerRunning && t.timeLeftInMillis == s.timeLeftInMillis)
      && (s.timerRunning ==>
            && t.timeLeftInMillis == (if s.endTime >= now then s.endTime - now else 0)
            && (t.timerRunning <==> s.endTime >= now)
            && t.endTime == (if s.endTime >= now then s.endTime + (later - now) else s.endTime)
            && (later == now ==> t.endTime == s.endTime))
  {
  }

  /**
   * A timer started at `started` with `left` to go and saved: restored five
   * seconds before its end, with `delay` between the two clock readings, it
   * runs on with five seconds left towards an end `delay` later; restored
   * five seconds after, it is stopped at zero.
   */
  lemma RestoreAroundEnd(s: State, started: int, delay: int)
    ensures var end := started + s.timeLeftInMillis;
      var saved := Save(StartTimer(s, started));
      var before := Restore(INITIAL, saved, end - 5000, end - 5000 + delay);
      var after := Restore(INITIAL, saved, end + 5000, end + 5000 + delay);
      before.timerRunning && before.timeLeftInMillis == 5000 && before.endTime == end + delay
      && !after.timerRunning && after.timeLeftInMillis == 0
  {
  }

  // ---------------------------------------------------------------------------
  // Runs of events

  /**
   * What can happen to the activity: the three buttons, the countdown's two
   * callbacks, a classified accelerometer sample, the activity stopping and
   * starting, and the process being killed (a new activity with default
   * fields; the store survives).
   */
  datatype Event =
    | SetPressed(input: string)
    | StartPausePressed(now: int)
    | ResetPressed
    | Tick(millisUntilFinished: int)
    | Finish
    | Sample(isTrigger: bool, now: int, later: int)
    | Stopped
    | Started(now: int, later: int)
    | Killed

  /** The activity's fields together with the preference store. */
  datatype Config = Config(state: State, store: Prefs)

  predicate Admissible(e: Event) {
    e.SetPressed? ==> SetInputReadable(e.input)
  }

  function Step(c: Config, e: Event): Config
    requires Admissible(e)
  {
    match e
    case SetPressed(input) => c.(state := SetClick(c.state, input))
    case StartPausePressed(now) => c.(state := StartPause(c.state, now))
    case ResetPressed => c.(state := ResetTimer(c.state))
    case Tick(m) => c.(state := OnTick(c.state, m))
    case Finish => c.(state := OnFinish(c.state))
    case Sample(isTrigger, now, later) => c.(state := OnSensorSample(c.state, isTrigger, now, later))
    case Stopped => c.(store := Save(c.state))
    case Started(now, later) => c.(state := Restore(c.state, c.store, now, later))
    case Killed => c.(state := INITIAL)
  }

  function Run(c: Config, es: seq<Event>): Config
    requires forall i :: 0 <= i < |es| ==> Admissible(es[i])
    decreases es
  {
    if es == [] then c else Run(Step(c, es[0]), es[1..])
  }

  /** The user enters no negative number of minutes, and the countdown never reports a negative time. */
  predicate NoNegativeInput(e: Event) {
    && (e.SetPressed? ==> SetInputReadable(e.input) && (|e.input| == 0 || LiteralValue(e.input) >= 0))
    && (e.Tick? ==> e.millisUntilFinished >= 0)
  }

  /** Neither the fields nor the store hold a negative configured time or time left. */
  predicate NonNegative(c: Config) {
    && c.state.startTimeInMillis >= 0 && c.state.timeLeftInMillis >= 0
    && c.store.startTimeInMillis.GetOr(0) >= 0 && c.store.millisLeft.GetOr(0) >= 0
  }

  lemma StepNonNegative(c: Config, e: Event)
    requires NonNegative(c) && NoNegativeInput(e)
    ensures Admissible(e) && NonNegative(Step(c, e))
  {
  }

  /**
   * As long as no negative minutes are entered, the configured time and the
   * time left are never negative, whatever the order of clicks, ticks,
   * shakes, restarts and process deaths, and however the wall clock moves.
   * A negative time left, shown with signed fields, needs a negative entry.
   */
  lemma {:induction false} RunNonNegative(c: Config, es: seq<Event>)
    requires NonNegative(c)
    requires forall i :: 0 <= i < |es| ==> NoNegativeInput(es[i])
    ensures forall i :: 0 <= i < |es| ==> Admissible(es[i])
    ensures NonNegative(Run(c, es))
    decreases es
  {
    forall i | 0 <= i < |es| ensures Admissible(es[i]) {
      assert NoNegativeInput(es[i]);
    }
    if es != [] {
      StepNonNegative(c, es[0]);
      RunNonNegative(Step(c, es[0]), es[1..]);
    }
  }
}
