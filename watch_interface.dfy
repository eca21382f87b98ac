/**
 * Which controls the activity shows (`updateWatchInterface`). The input
 * field, the Set, Start/Pause and Reset buttons are either visible or
 * invisible, and the Start/Pause button carries the label "Start" or "Pause".
 *
 * The rule is not a function of the timer alone: while the timer runs the
 * method leaves the visibility of Start/Pause as it was, so the update takes
 * the controls as they were shown before.
 */
module WatchInterface {

  datatype Controls = Controls(
    inputVisible: bool,
    setVisible: bool,
    startPauseVisible: bool,
    resetVisible: bool,
    startPauseLabel: string)

  const PAUSE_LABEL := "Pause"
  const START_LABEL := "Start"

  /** Start/Pause is hidden when less than this much time is left and the timer is stopped. */
  const MIN_STARTABLE_MILLIS := 1000

  /** The controls after `updateWatchInterface`, given those shown before it and the timer's fields. */
  function UpdateWatchInterface(shown: Controls, running: bool, timeLeft: int, startTime: int): (c: Controls)
    ensures running ==> !c.inputVisible && !c.setVisible && !c.resetVisible && c.startPauseLabel == PAUSE_LABEL
    ensures running ==> c.startPauseVisible == shown.startPauseVisible
    ensures !running ==> c.inputVisible && c.setVisible && c.startPauseLabel == START_LABEL
    ensures !running ==> (c.startPauseVisible <==> timeLeft >= MIN_STARTABLE_MILLIS)
    ensures !running ==> (c.resetVisible <==> timeLeft < startTime)
  {
    if running then
      shown.(inputVisible := false, setVisible := false, resetVisible := false, startPauseLabel := PAUSE_LABEL)
    else
      Controls(
        inputVisible := true,
        setVisible := true,
        startPauseVisible := timeLeft >= MIN_STARTABLE_MILLIS,
        resetVisible := timeLeft < startTime,
        startPauseLabel := START_LABEL)
  }

  /** While the timer is stopped, what was shown before has no influence on what is shown now. */
  lemma StoppedForgetsShown(a: Controls, b: Controls, timeLeft: int, startTime: int)
    ensures UpdateWatchInterface(a, false, timeLeft, startTime) == UpdateWatchInterface(b, false, timeLeft, startTime)
  {
  }

  /** While it runs, the time left and the configured time have no influence on what is shown. */
  lemma RunningIgnoresTimes(shown: Controls, left1: int, start1: int, left2: int, start2: int)
    ensures UpdateWatchInterface(shown, true, left1, start1) == UpdateWatchInterface(shown, true, left2, start2)
  {
  }

  /** Updating twice for the same timer shows the same as updating once. */
  lemma UpdateIdempotent(shown: Controls, running: bool, timeLeft: int, startTime: int)
    ensures var once := UpdateWatchInterface(shown, running, timeLeft, startTime);
      UpdateWatchInterface(once, running, timeLeft, startTime) == once
  {
  }

  /**
   * Start/Pause, once hidden because too little time was left, stays hidden
   * after the timer starts running, although it now reads "Pause".
   */
  lemma HiddenStartStaysHiddenWhileRunning(shown: Controls, timeLeft: int, startTime: int, left2: int)
    requires timeLeft < MIN_STARTABLE_MILLIS
    ensures var stopped := UpdateWatchInterface(shown, false, timeLeft, startTime);
      var running := UpdateWatchInterface(stopped, true, left2, startTime);
      !running.startPauseVisible && running.startPauseLabel == PAUSE_LABEL
  {
  }
}
