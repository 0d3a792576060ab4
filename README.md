# Pomodoro countdown timer — Dafny model

This project models the `Timer` component of the pomodoro web app (`src/Timer.js`).
The component shows a countdown ring with the time left as `MM:SS`. It has a
start/pause button, a reset button and a minutes selector offering 5, 10, 15, 20,
25, 30, 45 and 60 minutes. It also counts the sessions completed.

The project has three modules:

- `TimeFormat` (`time_format.dfy`) models `formatTime`. The two JavaScript string
  operations it uses are modelled too: `Number.prototype.toString()` on a
  non-negative integer (`DecimalString`) and `padStart(2, '0')` (`PadStart`, `Pad2`).
  `ReadDecimal` and `ParseTime` are reference readings that are not in the
  program. The display is proved to read back as the seconds it shows.
- `Countdown` (`countdown.dfy`) models these as pure values:
  - the derived session length `fullSeconds`
  - the `progress` fraction
  - the four state variables (`minutes`, `secondsLeft`, `running`, `completed`)
  - one transition per input: start/pause, reset, choosing a duration, and one
    second elapsing. A second elapsing covers the interval callback and the
    completion effect it triggers.

  The properties of the widget are proved here, including one for any sequence of
  inputs (`Run`) and one for any number of seconds (`Ticks`).
- `PomodoroTimer` (`pomodoro_timer.dfy`) models the component as a class. Its four
  pieces of React state are fields, and each handler is a method that updates
  them in place. Every method keeps the invariant `0 < secondsLeft <= fullSeconds`.
  Every method also moves the state exactly as the matching `Countdown` transition
  does.

Two points need care:

- **Choosing a duration.** The refill-and-pause effect is keyed on `fullSeconds`.
  Choosing a value with the same session length therefore only records the
  minutes. The time left and the running flag do not change. The model follows
  the code here.
- **The value 0.** In the component, the interval update that reaches 0 is
  committed and rendered once: the display shows "00:00" and the ring is full
  (progress 1). Only after that render does the completion effect refill the
  timer. The model makes a choice here: it folds the decrement and the
  completion effect into one step, `Countdown.Tick`. Zero therefore never appears
  between two steps of the model. That is why the model's invariant can be
  `0 < secondsLeft`, and why its progress lies in [0, 1).

## Model

| member | source | states |
|---|---|---|
| TimeFormat.DecimalString | src/Timer.js:21-22 | `n.toString()` is a canonical decimal numeral (no leading zero) that reads back as `n`; it has at most two digits exactly when `n < 100` |
| TimeFormat.DecimalStringOfValue | src/Timer.js:21-22 | `toString` is the inverse of reading a canonical numeral: every canonical numeral is the `toString` of its own value |
| TimeFormat.LeadingZero | src/Timer.js:21-22 | a padding `'0'` in front of a numeral does not change the number it denotes |
| TimeFormat.PadStart | src/Timer.js:21-22 | `padStart(width, fill)` leaves a string of at least `width` characters alone; otherwise it prefixes exactly enough fill characters to reach `width` |
| TimeFormat.Pad2 | src/Timer.js:21-22 | a padded field has at least two characters and still reads back as `n`; it has exactly two characters when `n < 100`, and a wider field (the numeral left unpadded) has no leading zero |
| TimeFormat.FormatTime | src/Timer.js:20-24 | `formatTime(sec)` has at least five characters and a colon third from the end; it reads back as exactly `sec` (so the minutes field is `sec / 60` and the seconds field is `sec % 60` as two digits); it has exactly five characters when `sec < 6000`, and from 100 minutes on the minutes field has no leading zero |
| TimeFormat.ParseJoin | src/Timer.js:23 | joining a minutes field of at least two digits and a two-digit seconds field below 60 with `:` gives a display that reads back as `m * 60 + s` |
| TimeFormat.FormatTimeInjective | src/Timer.js:20-24 | different second counts never give the same display |
| TimeFormat.FormatTimeDefaultSession | src/Timer.js:20-24 | the default 25-minute session shows `"25:00"` |
| TimeFormat.FormatTimeFullHour | src/Timer.js:20-24 | a full hour shows `"60:00"`: the minutes field is not truncated |
| TimeFormat.FormatTimeLastSecond | src/Timer.js:20-24 | one second left shows `"00:01"` |
| Countdown.FullSeconds | src/Timer.js:28 | a session is at least 60 seconds and a whole number of minutes; it is exactly `minutes` minutes when `minutes` is positive, and one minute otherwise (the zero/invalid guard) |
| Countdown.FullSecondsOfMenu | src/Timer.js:127 | every value the selector offers gives a session of exactly that many minutes |
| Countdown.FullSecondsInjective | src/Timer.js:28 | two positive durations give the same session length if and only if they are equal |
| Countdown.Initial | src/Timer.js:27-32 | at mount, 25 minutes are selected, a full session is left, the timer is paused, nothing is completed, the invariant holds and progress is 0 |
| Countdown.Decrement | src/Timer.js:47-53 | the interval's update never goes negative; it takes exactly one second off a positive count and clamps at 0 |
| Countdown.ToggleFlipsRunning | src/Timer.js:112 | start/pause flips `running` and changes nothing else; pressing it twice restores the state; it keeps the invariant |
| Countdown.ResetRefills | src/Timer.js:116 | reset leaves a full session, paused, with minutes and completed count kept; progress becomes 0; a second reset changes nothing |
| Countdown.SelectNewDuration | src/Timer.js:35-39 | choosing a menu value `d` that changes the session length leaves `d * 60` seconds, paused, with progress 0 and the completed count kept |
| Countdown.SelectSameLength | src/Timer.js:35-39 | a choice with the same session length only records the minutes; choosing the current value changes nothing; both keep the invariant |
| Countdown.TickWhilePaused | src/Timer.js:45-55 | while paused, no interval exists, so a second changes nothing |
| Countdown.TickCountsDown | src/Timer.js:47-53 | while running with two or more seconds left, a second takes off exactly one second, changes nothing else, and strictly increases progress |
| Countdown.TickCompletes | src/Timer.js:62-70 | the second that reaches zero pauses the timer, adds exactly one completed session and refills to a full session |
| Countdown.StepPreservesValid | src/Timer.js:35-70 | every input keeps `0 < secondsLeft <= fullSeconds`; the completed count never falls, rises by at most one, and only when a second elapses |
| Countdown.RunPreservesValid | src/Timer.js:35-70 | over any sequence of inputs the invariant holds, and the completed count is monotone and rises by at most the number of inputs |
| Countdown.ProgressBounds | src/Timer.js:72 | between inputs progress lies in [0, 1), and it is 0 exactly when a full session is left |
| Countdown.TicksWhilePaused | src/Timer.js:45-55 | a paused timer stays unchanged however many seconds elapse |
| Countdown.TicksCountDown | src/Timer.js:47-53 | while running, `n` seconds before the end take off exactly `n` seconds and leave the timer running |
| Countdown.TicksComplete | src/Timer.js:62-70 | running with `k` seconds left, exactly `k` seconds complete the session once: paused, full, completed count plus one |
| Countdown.TicksSplit | src/Timer.js:46-54 | `a + b` seconds elapsing are `a` seconds followed by `b` seconds |
| Countdown.FullSession | src/Timer.js:62-70 | from a fresh paused session, start followed by a full session of seconds (and any number after it) leaves the same state with one more completed session |
| Countdown.FiveMinuteScenario | src/Timer.js:125-127 | from mount: choosing 5 minutes gives 300 s paused; start and 300 s complete one session; start and 10 s leave 290 s running; reset gives 300 s paused with one session completed |
| PomodoroTimer.Timer.constructor | src/Timer.js:27-32 | a new widget has 25 minutes, 1500 seconds left, is paused, has no completed sessions, and satisfies the invariant |
| PomodoroTimer.Timer.Progress | src/Timer.js:72 | the ring's fraction is in [0, 1) and is 0 exactly on a full session |
| PomodoroTimer.Timer.Display | src/Timer.js:105 | the centre text is `formatTime(secondsLeft)` and reads back as `secondsLeft` |
| PomodoroTimer.Timer.Toggle | src/Timer.js:112 | start/pause flips `running` in place, keeps the other fields and the invariant, and matches `Countdown.Toggle` |
| PomodoroTimer.Timer.Reset | src/Timer.js:116 | reset sets a full session and pauses in place, keeps minutes and completed count, and matches `Countdown.Reset` |
| PomodoroTimer.Timer.SelectMinutes | src/Timer.js:125 | the selector records `m`; if the session length changed, it refills and pauses, and otherwise leaves the time and running flag; it matches `Countdown.SelectMinutes` and keeps the invariant |
| PomodoroTimer.Timer.Tick | src/Timer.js:42-70 | one second changes nothing while paused, takes one second off with two or more left, and otherwise completes the session (paused, full, completed plus one); it matches `Countdown.Tick` and keeps the invariant |

## Left out

- The render committed between the interval update that reaches 0 and the completion effect is not modelled. That render shows "00:00" with `progress` 1 (a full ring). A second elapsing is one step of the model, and that step already includes the completion.
- The SVG ring geometry (`size`, `stroke`, `radius`, `circumference`, `dash` and the dash array, `src/Timer.js:74-79` and `99`) is left out. It is floating-point drawing arithmetic derived from `progress`, and `progress` itself is modelled.
- The JSX/MUI rendering is left out: layout, icons, labels, the "Running"/"Paused" caption and the completed-count text. This is presentation only. The state these items show is modelled.
- `setInterval`/`clearInterval` scheduling, wall-clock timing and React's batching and effect order are left out. One elapsed second is one atomic step: the decrement followed by the completion effect. Timer drift and a missed or late interval firing are not modelled.
- The effect keyed on `fullSeconds` also runs once at mount. It is folded into the constructor, because at mount it sets the values the state already has.
- `Countdown.Progress` uses exact rationals, not IEEE doubles. Rounding of `1 - secondsLeft / fullSeconds` is not modelled.
- `Countdown.Progress` models the `fullSeconds > 0` guard as written. Its else branch is unreachable because `fullSeconds >= 60` (`Countdown.FullSeconds`).
- `TimeFormat.FormatTime`: formats only non-negative integers, the only values the widget passes it. The model does not cover negative, fractional or very large inputs, nor JavaScript's exponent notation for numbers of 1e21 and more.
- `PomodoroTimer.Timer.SelectMinutes`: takes the chosen value as an integer. The `Number(e.target.value)` conversion from the menu's value, and a `NaN` it could produce from other input, are not modelled.
- `src/App.js`, which mounts the component in a page, is not part of this model.
