# Chess clock engine

A model of the two-sided chess clock in `App.js`. Each player has eight
minutes. Tapping one half of the screen hands the turn over or starts a
side. A periodic tick drains the running side by the real time elapsed
since the last tick or tap, floored at zero. The pause and reset buttons
stop both sides. When a running clock shows zero, a winner check ends
the game. The remaining time is displayed as `minutes:seconds:hundredths`.

The model is in four modules:

- `ClockSpec` (`clock_spec.dfy`): the screen's mutable cells as a
  `ClockState` value. Each handler is a function from the old state to the
  new one, and its contract states what the handler promises. `Valid` is
  the invariant of reachable states: both times are in
  `[0, INITIAL_TIME]`, at most one side runs, and a paused clock runs
  neither side.
- `ClockEngine` (`clock_engine.dfy`): class `ChessClock` with the same
  fields, updated in place by one method per handler. Each method is
  proved to take `State()` to the matching `ClockSpec` function of
  `old(State())`.
- `ClockProperties` (`clock_properties.dfy`): sequences of events as the
  event loop delivers them (`Run`), and lemmas about whole runs. These
  cover the invariant, time never growing between resets, a stretch of
  ticks draining exactly the elapsed real time, the game-over state being
  stable, and at most one winner between taps. It also holds left/right
  symmetry, pause idempotence, reset forgetting history, and two concrete
  scenarios.
- `TimeFormat` (`time_format.dfy`): `formatTime`, with lemmas saying the
  text reads back as the three fields and the fields rebuild the time to
  the hundredth.

Side `Left` is the orange half and `Right` the blue half (App.js:134-139).
A left time of zero therefore makes `Right` the winner ("Blue Wins"). The
left side is checked first.

The wall clock is a parameter: taps and ticks take `now`. A tick requires
`now >= lastTimestamp`, which stands in for `Date.now()` never running
backwards.

Three points about the code's behaviour:

- The winner check is a separate step (`CheckWinner`), as in the effect
  body. It is not part of the tick, and it runs only while the clock is
  counting.
- Tapping a half after the game is over is not ignored. It unpauses the
  clock and starts a side, as the handlers do. One of the times is still
  zero, so the next winner check ends the game again, with the same
  winner as before, whichever half was tapped.
- The tick's `time > 0` guard reads the current time. In the source it
  reads the value the interval closure captured. Since both times are
  dependencies of the effect, the closure is renewed after every change.

## Model

| member | source | states |
|---|---|---|
| ClockSpec.Init | App.js:4-12 | the mounted screen is valid, idle, unpaused, both clocks at INITIAL_TIME, timestamp at mount time |
| ClockSpec.LeftPress | App.js:50-62 | a left tap unpauses, hands over to the right iff left was running (else starts left), leaves exactly one side running, keeps both times, restarts the timestamp, preserves Valid |
| ClockSpec.RightPress | App.js:64-76 | the mirror of LeftPress for the right half |
| ClockSpec.Pause | App.js:78-82 | pause sets paused, stops both sides, keeps both times and the timestamp, preserves Valid |
| ClockSpec.Reset | App.js:84-90 | reset yields a valid, idle, unpaused state with both times at INITIAL_TIME, whatever the prior state |
| ClockSpec.Tick | App.js:17-30 | a tick changes nothing unless counting; otherwise the running side with time left becomes max(prev - elapsed, 0), a side not running or at zero is untouched, times never go negative or grow, flags are kept, the timestamp becomes now, Valid is preserved |
| ClockSpec.EndGame | App.js:43-46 | ending the game always stops both sides and pauses, keeping the times and the timestamp; the result is a game-over state iff a time is zero |
| ClockSpec.CheckWinner | App.js:32-37 | while counting, a left time of zero ends the game with Right winning, else a right time of zero ends it with Left winning; otherwise the state is kept and no winner is reported; afterwards no counting clock shows zero |
| ClockEngine.ChessClock.constructor | App.js:7-12 | the object's fields start as Init(now) and are valid |
| ClockEngine.ChessClock.HandleLeftPress | App.js:50-62 | updates the fields in place to LeftPress of the old state, keeping Valid |
| ClockEngine.ChessClock.HandleRightPress | App.js:64-76 | updates the fields in place to RightPress of the old state, keeping Valid |
| ClockEngine.ChessClock.HandlePause | App.js:78-82 | updates the fields in place to Pause of the old state, keeping Valid |
| ClockEngine.ChessClock.HandleReset | App.js:84-90 | updates the fields in place to Reset of the old state, which is valid |
| ClockEngine.ChessClock.Tick | App.js:17-30 | the interval body updates the fields in place to Tick of the old state, given a clock that does not run backwards |
| ClockEngine.ChessClock.EndGame | App.js:43-46 | updates the fields in place to EndGame of the old state |
| ClockEngine.ChessClock.CheckWinner | App.js:17-37 | updates the fields and returns the winner exactly as CheckWinner of the old state |
| ClockProperties.Step | App.js:14-90 | each handler keeps or restarts the timestamp at its own instant, only the winner check reports a winner, and Valid is preserved |
| ClockProperties.RunKeepsValid | App.js:4-90 | every chronological sequence of handlers from a valid state ends valid: times in [0, INITIAL_TIME], never both sides running |
| ClockProperties.RunWithoutResetNeverGains | App.js:20-26 | with no reset in between, each side's time never grows and never drops below zero |
| ClockProperties.TicksDrainElapsedTime | App.js:18-29 | any number of ticks while one side counts drain it by exactly the real time between the first and last timestamp, floored at zero; the other side is untouched and no winner is reported |
| ClockProperties.IdleIsSilent | App.js:17-37 | a clock that is not counting stays so and reports no winner until the next tap |
| ClockProperties.GameOverIsStable | App.js:17-46 | in the game-over state ticks, pauses and winner checks change nothing, the timestamp included |
| ClockProperties.AtMostOneWinner | App.js:32-46 | between two taps the game is won at most once |
| ClockProperties.Mirror | App.js:50-76 | exchanging the halves swaps times and running flags and keeps Valid |
| ClockProperties.HalvesAreSymmetric | App.js:50-76 | the right tap is the mirrored left tap, and a tick treats both halves alike |
| ClockProperties.PauseIsIdempotent | App.js:78-82 | pausing twice equals pausing once, and a paused clock does not tick |
| ClockProperties.ResetForgetsHistory | App.js:84-90 | reset gives the same state from any two prior states with the same timestamp, namely the mounted state |
| ClockProperties.TapAfterGameOverEndsAgain | App.js:33-36 | after a game over, a tap on either half makes the clock count again, and the next winner check ends the game again with the same winner and the same times |
| ClockProperties.LeftRunsOut | App.js:17-48 | a full clock's worth of time on the left drains it to zero, the check ends the game with Right winning; a later right tap restarts the right clock only until the next check, which ends the game again with Right winning |
| ClockProperties.TapTickTap | App.js:17-76 | a tap and a tick 100 ms later drain only the left clock by 100 ms; a right tap then hands over without touching either time |
| TimeFormat.NatToString | App.js:96 | the numeral is non-empty, all digits, has no leading zero, and is one character exactly for numbers below ten |
| TimeFormat.NatToStringReadsBack | App.js:96 | reading a numeral back gives the number it was written from |
| TimeFormat.Pad2 | App.js:96 | a number below 100 is written as exactly two digits that read back as the number, with a leading '0' iff it is below ten |
| TimeFormat.FieldsRebuildTime | App.js:93-95 | seconds are below 60, hundredths below 100, and minutes*60000 + seconds*1000 + hundredths*10 + time%10 == time |
| TimeFormat.FormatTime | App.js:92-97 | the text has ':' in the sixth and third places from its end |
| TimeFormat.FormatTimeReadsBack | App.js:92-97 | the text splits into minutes, two-digit seconds and two-digit hundredths that read back as the fields and rebuild the time to the hundredth |
| TimeFormat.ClockDisplayWidth | App.js:4-97 | every time a clock can hold is displayed in exactly seven characters |
| TimeFormat.FormatExample | App.js:92-97 | 65010 ms is displayed as "1:05:01" |

## Left out

- Rendering, layout and styles (App.js:99-167) are presentation only.
- `setInterval`/`clearInterval` and the effect's re-subscription (App.js:18, 30, 40-41) are left out. A tick and a winner check are explicit calls, and the caller decides when they happen.
- `Date.now()` (App.js:12, 19, 61, 75) is replaced by an integer `now` parameter, and a tick requires `now >= lastTimestamp`. `Date.now()` is a wall clock and can step back. The source then computes a negative elapsed time, and `Math.max(prev - elapsed, 0)` (App.js:23, 26) adds time to the running side, possibly beyond INITIAL_TIME. The upper bound of `[0, INITIAL_TIME]` therefore holds only for a clock that does not run backwards, and that case is not modelled.
- `Alert.alert` and its OK button, which resets the clock (App.js:47), are left out. The model has the state effects of `endGame`, and the user can reset explicitly.
- The winner messages and colours are reduced to the winning `Side`.
- TimeFormat.FormatTime: takes a non-negative integer. Both times are non-negative integers in every reachable state, so the source's behaviour on negative or fractional numbers is not modelled.
