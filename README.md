# LazyTimer countdown controller in Dafny

LazyTimer is a single-screen Android countdown timer. The user enters a number of minutes and presses Set. Start/Pause and Reset control the countdown, and shaking the phone also toggles start/pause. The whole program is one activity, `MainActivity`. Once the view plumbing is stripped away, it holds a small state machine over five fields:

- the configured time `mStartTimeInMillis`;
- the time left `mTimeLeftInMillis`;
- the running flag `mTimerRunning`;
- the wall-clock end time `mEndTime`;
- the time of the last accepted shake `mShakeTimestamp`.

This project models that state machine and proves what its handlers do.

- `options.dfy` (`Options`): an optional value, used for keys missing from the preference store.
- `java_lang.dfy` (`JavaLang`): the Java semantics the activity relies on. This covers `/` and `%` truncating toward zero, `%d` decimal text, and the literals `Long.parseLong` accepts.
- `countdown_format.dfy` (`CountdownFormat`): `updateCountDownText`. Milliseconds become hours, minutes and seconds, shown as `H:MM:SS` or `MM:SS`. A reader `ReadClock` parses that text back, and the main lemma is the round trip. The module `CountdownExamples` in the same file shows the text for a few concrete times left.
- `watch_interface.dfy` (`WatchInterface`): `updateWatchInterface`, covering which controls are visible and the Start/Pause label.
- `timer_machine.dfy` (`TimerMachine`): the five fields as a value, plus one function per handler: Set, Start/Pause, Reset, tick, finish, shake, save and restore. Runs of events cover clicks, callbacks, shakes, stop/start and process death. The lemmas state the handlers' properties.
- `main_activity.dfy` (`LazyTimer`): the class `MainActivity` with the five fields, updated in place. Each method's `ensures` ties the new fields to the `TimerMachine` function applied to the old fields. The lemmas about those functions therefore hold for the class as well.

The wall clock (`System.currentTimeMillis()`) is a parameter. `now` is the reading a handler takes itself. The shake listener and `onStart` then call `startTimer`, which reads the clock a second time; that reading is the parameter `later`, and nothing ties it to `now`. So a timer restored by `onStart` runs towards the stored end time moved on by `later - now`, not towards the stored end time itself unless the two readings agree. The countdown's `onTick(millisUntilFinished)` and `onFinish()` are events supplied from outside. Cancelling the countdown changes no field. The shake path starts from a sample that has already been classified as a trigger or not.

The model follows the code in these places, even where its comments or a natural reading suggest something else:

- **Set accepts negative entries.** Its comment (MainActivity.java:67) says it checks for negative numbers. The code rejects only the empty text and entries worth 0 ms (:74-83). So "-5" sets both times to -300000 ms (`SetAcceptsNegative`), and the display then shows signed fields (`FormatNegativeExample`). Only `hours > 0` selects the long form (:239), so a negative time left of an hour or more loses its hour field: -3665 s shows "-1:-5", like -65 s (`FormatNegativeHourDropped`).
- **A shake can start the timer with less than a second left.** Only the Start/Pause button is hidden in that case (:266-267). The shake path calls `startTimer` unconditionally (:149-154), as shown by `ShakeStartsWithLittleTimeLeft`. While the timer runs, `updateWatchInterface` never touches the button's visibility, so it stays hidden and reads "Pause" (`HiddenStartStaysHiddenWhileRunning`).
- **The control layout depends on what was shown before.** For the reason above, `updateWatchInterface` is not a function of the three timer fields alone. The model passes the previous controls in.
- **`onFinish` does not zero the time left** (:198-200), as shown by `FinishKeepsTimeLeft`.
- **Restore with exactly 0 ms left restarts the timer.** It does not stop it: only a negative remainder is clamped (:329-335).
- **The debounce interval is 1000 ms** (:49), although the comment at :143 says 500 ms.
- **The activity sends no one-minute notification.** None is modelled.

## Model

| member | source | states |
|---|---|---|
| `JavaLang.Quot` | app/src/main/java/ch/zli/hello/lazytimer/MainActivity.java:234-236 | Java `/` with a positive divisor rounds toward zero. For a >= 0, 0 <= a - b*q < b and q is the floor quotient. For a < 0, -b < a - b*q <= 0. |
| `JavaLang.Rem` | app/src/main/java/ch/zli/hello/lazytimer/MainActivity.java:235-236 | Java `%` with a positive divisor: a == b*(a/b) + r, with -b < r < b. The remainder is never of the opposite sign of a, and for a >= 0 it is the mathematical remainder. |
| `JavaLang.QuotNonPositive` | app/src/main/java/ch/zli/hello/lazytimer/MainActivity.java:234-236 | A dividend that is not positive has a quotient that is not positive. |
| `JavaLang.QuotRemUnique` | app/src/main/java/ch/zli/hello/lazytimer/MainActivity.java:234-236 | Any q and r that recompose a, with a remainder of the dividend's sign and below b in magnitude, are Java's quotient and remainder. |
| `JavaLang.LiteralValue` | app/src/main/java/ch/zli/hello/lazytimer/MainActivity.java:79 | `Long.parseLong` of a literal: a leading `-` gives a value <= 0 and anything else a value >= 0. A leading `+` is ignored. |
| `JavaLang.IntToStringRoundTrip` | app/src/main/java/ch/zli/hello/lazytimer/MainActivity.java:79 | `Long.parseLong` reads back the `%d` text of every integer. The ASCII literal grammar has an optional sign followed by digits. |
| `JavaLang.DecimalNoLeadingZero` | app/src/main/java/ch/zli/hello/lazytimer/MainActivity.java:240-241 | `%d` of a positive number, such as the hour field, never starts with a zero. |
| `CountdownFormat.ClockOf` | app/src/main/java/ch/zli/hello/lazytimer/MainActivity.java:234-236 | With s = left/1000 under Java division: hours*3600 + minutes*60 + seconds == s. Minutes and seconds are below 60 in magnitude, and every field has the sign of s. |
| `CountdownFormat.Pad2` | app/src/main/java/ch/zli/hello/lazytimer/MainActivity.java:241-245 | `%02d` yields at least two characters. A negative value is never padded: a minus sign and the digits of its magnitude. A value from 0 to 59 is exactly two digits whose value is the field. |
| `CountdownFormat.Pad2ReadsBack` | app/src/main/java/ch/zli/hello/lazytimer/MainActivity.java:241-245 | For every value, negatives included, the `%02d` text is a `Long.parseLong` literal of that value. |
| `CountdownFormat.FormatCountdown` | app/src/main/java/ch/zli/hello/lazytimer/MainActivity.java:233-245 | For a non-negative time left, the reader accepts the shown text and gives exactly the whole seconds left. The reader takes only minute and second fields below 60 and an hour field without a leading zero. The text is the 5-character `MM:SS` form if and only if less than one hour is left. |
| `CountdownFormat.RenderReadBack` | app/src/main/java/ch/zli/hello/lazytimer/MainActivity.java:237-245 | Both layouts of a non-negative number of whole seconds pass the strict reader and read back as that number. The short one is used exactly below 3600 s. |
| `CountdownFormat.ReadClockStrict` | app/src/main/java/ch/zli/hello/lazytimer/MainActivity.java:237-245 | The reader refuses what the display never shows: "00:60", whose second field is 60, and "01:00:00", whose hour has a leading zero. |
| `CountdownFormat.FormatSameText` | app/src/main/java/ch/zli/hello/lazytimer/MainActivity.java:233-245 | Two non-negative times left show the same text if and only if they have the same whole seconds. |
| `CountdownExamples.FormatZero` | app/src/main/java/ch/zli/hello/lazytimer/MainActivity.java:242-245 | 0 ms shows "00:00". |
| `CountdownExamples.FormatFiftyNineSeconds` | app/src/main/java/ch/zli/hello/lazytimer/MainActivity.java:242-245 | 59000 ms shows "00:59". |
| `CountdownExamples.FormatJustUnderOneMinute` | app/src/main/java/ch/zli/hello/lazytimer/MainActivity.java:234-245 | 59999 ms shows "00:59": the milliseconds are cut off. |
| `CountdownExamples.FormatMinuteAndSecond` | app/src/main/java/ch/zli/hello/lazytimer/MainActivity.java:242-245 | 61500 ms shows "01:01". |
| `CountdownExamples.FormatExamplesLong` | app/src/main/java/ch/zli/hello/lazytimer/MainActivity.java:239-241 | 3600000 ms shows "1:00:00" and 3661000 ms shows "1:01:01". |
| `CountdownExamples.FormatNegativeExample` | app/src/main/java/ch/zli/hello/lazytimer/MainActivity.java:234-245 | -65000 ms shows "-1:-5": truncating division and `%02d` applied to negative fields. |
| `CountdownExamples.FormatNegativeHourDropped` | app/src/main/java/ch/zli/hello/lazytimer/MainActivity.java:234-245 | -3665000 ms also shows "-1:-5", the same as -65000 ms. A negative hour count fails `hours > 0`, so the hour field is dropped. |
| `WatchInterface.UpdateWatchInterface` | app/src/main/java/ch/zli/hello/lazytimer/MainActivity.java:255-278 | When running: input, Set and Reset are hidden, the label is "Pause", and Start/Pause visibility is unchanged. When stopped: input and Set are visible, the label is "Start", Start/Pause is visible iff left >= 1000, and Reset is visible iff left < start. |
| `WatchInterface.StoppedForgetsShown` | app/src/main/java/ch/zli/hello/lazytimer/MainActivity.java:261-277 | When stopped, the controls do not depend on what was shown before. |
| `WatchInterface.RunningIgnoresTimes` | app/src/main/java/ch/zli/hello/lazytimer/MainActivity.java:256-260 | When running, the controls depend on neither the time left nor the configured time. |
| `WatchInterface.UpdateIdempotent` | app/src/main/java/ch/zli/hello/lazytimer/MainActivity.java:255-278 | Updating twice for the same timer fields shows the same as updating once. |
| `WatchInterface.HiddenStartStaysHiddenWhileRunning` | app/src/main/java/ch/zli/hello/lazytimer/MainActivity.java:256-270 | Start/Pause hidden for lack of time stays hidden after the timer starts, and reads "Pause". |
| `TimerMachine.SetOutcomeOf` | app/src/main/java/ch/zli/hello/lazytimer/MainActivity.java:73-85 | Empty text gives "Field can't be empty". Text worth 0 ms, and only such text, gives "Please enter a positive number". Anything else is accepted as n*60000 ms, which is not 0. |
| `TimerMachine.SetClick` | app/src/main/java/ch/zli/hello/lazytimer/MainActivity.java:73-85 | A rejected entry changes nothing. An accepted one sets start and left to n*60000 and changes nothing else. |
| `TimerMachine.SetDecimalMinutes` | app/src/main/java/ch/zli/hello/lazytimer/MainActivity.java:79-85 | Entering the decimal text of n > 0 minutes sets start and left to n*60000. |
| `TimerMachine.SetAcceptsNegative` | app/src/main/java/ch/zli/hello/lazytimer/MainActivity.java:79-83 | "-5" is accepted and sets start and left to -300000. |
| `TimerMachine.SetThenReset` | app/src/main/java/ch/zli/hello/lazytimer/MainActivity.java:176-178 | After setTime(m), a reset brings left back to m whatever the ticks did in between. A reset right after setTime changes nothing. |
| `TimerMachine.StartTimerEffect` | app/src/main/java/ch/zli/hello/lazytimer/MainActivity.java:187-206 | Start sets end = now + left and running = true, and changes nothing else. |
| `TimerMachine.PauseIdempotent` | app/src/main/java/ch/zli/hello/lazytimer/MainActivity.java:212-216 | Pause clears running only. Pausing twice is the same as pausing once. |
| `TimerMachine.FinishKeepsTimeLeft` | app/src/main/java/ch/zli/hello/lazytimer/MainActivity.java:192-200 | A tick sets left. Finish clears running and keeps the left of the last tick. |
| `TimerMachine.StartPauseToggles` | app/src/main/java/ch/zli/hello/lazytimer/MainActivity.java:97-101 | Start/Pause flips running. Two presses restore running and keep left and start. |
| `TimerMachine.OnSensorSample` | app/src/main/java/ch/zli/hello/lazytimer/MainActivity.java:142-156 | A trigger with last + 1000 <= now (the listener's clock reading) flips running and records now. If it starts the timer, end = later + left, where later is the reading `startTimer` takes. Any other sample changes no field. |
| `TimerMachine.ShakeDebounce` | app/src/main/java/ch/zli/hello/lazytimer/MainActivity.java:142-156 | Two triggers less than 1000 ms apart toggle once. Two triggers at least 1000 ms apart toggle twice. |
| `TimerMachine.ShakeStartsWithLittleTimeLeft` | app/src/main/java/ch/zli/hello/lazytimer/MainActivity.java:149-154 | An accepted shake starts a stopped timer even with less than 1000 ms left. |
| `TimerMachine.Restore` | app/src/main/java/ch/zli/hello/lazytimer/MainActivity.java:316-337 | Defaults: start 600000, left = start, running false. A running snapshot gets left = max(0, end - now) and runs iff end >= now. A stopped one keeps the stored end. One that runs on gets end + (later - now), because `startTimer` reads the clock again, and then end = later + left. The shake time is never restored. |
| `TimerMachine.RestoreDefaults` | app/src/main/java/ch/zli/hello/lazytimer/MainActivity.java:318-320 | An empty store gives a stopped timer with 600000 ms configured and left. |
| `TimerMachine.SaveRestore` | app/src/main/java/ch/zli/hello/lazytimer/MainActivity.java:294-337 | Save then restore keeps start. A stopped timer keeps left and stays stopped. A running one gets max(0, end - now) left. If it runs on, its end is the saved one moved on by the time between the two clock readings, so exactly the saved one when they agree. |
| `TimerMachine.RestoreAroundEnd` | app/src/main/java/ch/zli/hello/lazytimer/MainActivity.java:325-336 | Restored 5 s before its end, a saved running timer runs on with 5000 ms left and an end moved on by the delay between the two readings. Restored 5 s after, it is stopped with 0 ms left. |
| `TimerMachine.StepNonNegative` | app/src/main/java/ch/zli/hello/lazytimer/MainActivity.java:42-49 | Without negative entries or ticks, every handler keeps start and left (and the stored copies) non-negative. |
| `TimerMachine.RunNonNegative` | app/src/main/java/ch/zli/hello/lazytimer/MainActivity.java:42-49 | Start and left stay non-negative along any run of events that has no negative entry or tick. |
| `LazyTimer.MainActivity.constructor` | app/src/main/java/ch/zli/hello/lazytimer/MainActivity.java:42-49 | A new activity has all fields at Java's defaults: 0 and false. |
| `LazyTimer.MainActivity.ResetTimer` | app/src/main/java/ch/zli/hello/lazytimer/MainActivity.java:222-226 | left := start and nothing else changes. The Reset click handler (:110-115) does only this. |
| `LazyTimer.MainActivity.SetTime` | app/src/main/java/ch/zli/hello/lazytimer/MainActivity.java:176-180 | start and left both become the given milliseconds. |
| `LazyTimer.MainActivity.SetClicked` | app/src/main/java/ch/zli/hello/lazytimer/MainActivity.java:70-88 | The outcome is the message shown or the accepted milliseconds. The new fields are `SetClick` of the old ones. |
| `LazyTimer.MainActivity.StartTimer` | app/src/main/java/ch/zli/hello/lazytimer/MainActivity.java:187-206 | running and end = now + left. The new fields are `StartTimer` of the old ones. |
| `LazyTimer.MainActivity.PauseTimer` | app/src/main/java/ch/zli/hello/lazytimer/MainActivity.java:212-216 | running cleared and nothing else changes. |
| `LazyTimer.MainActivity.OnTick` | app/src/main/java/ch/zli/hello/lazytimer/MainActivity.java:192-195 | left := millisUntilFinished and nothing else changes. |
| `LazyTimer.MainActivity.OnFinish` | app/src/main/java/ch/zli/hello/lazytimer/MainActivity.java:198-201 | running cleared and left kept. |
| `LazyTimer.MainActivity.StartPauseClicked` | app/src/main/java/ch/zli/hello/lazytimer/MainActivity.java:94-103 | running flips: pause if running, start otherwise. |
| `LazyTimer.MainActivity.SensorChanged` | app/src/main/java/ch/zli/hello/lazytimer/MainActivity.java:142-156 | The new fields are `OnSensorSample` of the old ones, for the listener's reading now and `startTimer`'s reading later: a debounced toggle and the timestamp. |
| `LazyTimer.MainActivity.OnStop` | app/src/main/java/ch/zli/hello/lazytimer/MainActivity.java:293-310 | The store holds all four keys, each equal to its field. No field changes. |
| `LazyTimer.MainActivity.OnStart` | app/src/main/java/ch/zli/hello/lazytimer/MainActivity.java:312-338 | The new fields are `Restore` of the old ones and the store. A running timer never has negative time left. Its end is the stored one moved on by the time between the two clock readings. |
| `LazyTimer.ShakeTwiceQuickly` | app/src/main/java/ch/zli/hello/lazytimer/MainActivity.java:142-156 | On the class: shakes at t and t+400 start the timer once, and a shake at t+1000 pauses it. |

## Left out

- The Android views are not modelled as calls. `findViewById`, `setVisibility`, `setText`, toasts and `closeKeyboard` have no model. The toasts appear as the `SetOutcome` result. The control layout is the function `UpdateWatchInterface`, and the display text is `FormatCountdown`; the class does not store either.
- `SharedPreferences` mechanics are left out. The store is a record of four optional values, and `apply()` is taken to store what was written.
- The scheduling and timing of `CountDownTimer` are left out. Ticks and finish are events with arbitrary arguments, and cancelling is a no-op on the fields.
- The floating-point accelerometer classification (:135-140) is a boolean input. Sensor registration, the unused rate constants and the empty `onSensorChanged`/`onAccuracyChanged` of the activity are left out.
- Unparseable Set text is excluded by a precondition (`SetInputReadable`). This is text that `Long.parseLong` rejects with an exception, and `n*60000` overflowing a `long`. Non-ASCII digits are not modelled.
- `FormatCountdown` requires the whole seconds to fit the `(int)` cast (`Displayable`). The wrap-around of that cast is not modelled.
- The `long` overflow of `now + timeLeft` in `startTimer` and of `endTime - now` in `onStart` is not modelled, because integers are unbounded here. The same holds for `mShakeTimestamp + 1000`.
- Locale-dependent digits in `String.format` are not modelled. Digits are ASCII.
