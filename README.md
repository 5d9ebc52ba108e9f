# Catodoro countdown, modelled in Dafny

Catodoro is a browser countdown timer for focus sessions. This project models its two
pieces of logic:

- the **countdown engine** (`timer-worker.js`, and the copy of it inlined in `script.js`).
  A `start` command sets an absolute deadline and starts a repeating interval. Each time the
  interval fires, the engine measures the whole seconds left against that deadline. It
  posts `tick(remaining)` while that number is positive. Otherwise it posts `finish` and
  clears its own interval. `stop` clears the interval and posts nothing;
- the **session controller** (`CatodoroTimer` in `script.js`). It holds `timeRemaining` and
  `isRunning`, handles start / stop / reset / custom duration, reacts to the engine's
  messages, and renders the time as `MM:SS` together with the page title.

The clock (`Date.now()`) is an integer number of milliseconds passed to each operation.
One firing of the interval is one call of `TimerWorker.Poll(now)`. The result of
`parseInt` on the minutes input is an `Option<int>`, where `None` stands for NaN. Messages
the controller posts to the worker are recorded in order in its `posted` field. The display
text and the page title are fields.

Two object invariants are kept by every operation. `Engine.TimerWorker.Valid` says that at
most one interval is live, that it is the one whose handle `timerInterval` holds, and that
it has a deadline. `Session.CatodoroTimer.Valid` says that the session is running exactly
when the last command posted was `start`, and that the page shows either the rendering of
`timeRemaining` with its title or the completion screen.

Files: `wrappers.dfy` (Option), `format.dfy` (the `MM:SS` rendering), `engine.dfy` (the
worker), `session.dfy` (the controller), `sound.dfy` (the choice of completion sound),
`scenarios.dfy` (controller and worker wired together).

## Quirks of the code (modelled as written)

- `reset` can leave the remaining time negative. It falls back to 25 minutes only when
  `parseInt` gives NaN or 0 (script.js:101), so a negative number of minutes passes through
  and is shown as `00:00`. See `Session.ResetMinutes` and `Scenarios.CustomDurations`.
- `finish` leaves `timeRemaining` unchanged (script.js:130-134). It holds the last tick's
  value if a tick arrived, and otherwise the duration the run was started with. A firing
  that comes late enough (`Date.now()` is the wall clock, so a suspended machine will do)
  posts `finish` with no tick before it, and `timeRemaining` stays at, say, 1500 or -300.
  Only the display shows `00:00`. See `Session.CatodoroTimer.Finish`,
  `Scenarios.FocusSession` and `Scenarios.FinishWithoutTick`.
- Ticks can repeat. For firing times that never go back, successive ticks never go up, but when firings are less than a second
  apart the same value is posted more than once. The inlined copy fires every 250 ms
  (script.js:29). See `Engine.RunTicksNonIncreasing` and `Engine.RepeatedTick`.
- The session has no state besides `isRunning`. A tick that arrives while the session is not
  running still updates the time (script.js:57-59).
- The inlined copy's `stop` clears the interval but keeps the handle in `timerInterval`
  (script.js:31). This cannot be seen from outside: a later `start` or `stop` clears the dead
  handle again, which does nothing. `TimerWorker.nullsHandleOnStop` tells the two copies
  apart, and every contract holds for both.

## Model

| member | source | states |
|---|---|---|
| `Format.Decimal` | script.js:124 | `toString` of a non-negative integer below 10^21 is a digit string whose value is the integer, with no leading zero, and it has at least two digits exactly when the integer is at least 10 |
| `Format.DecimalValue` | script.js:124 | reading the digits of `toString(n)` back gives `n` |
| `Format.PadStart2` | script.js:124 | `padStart(2, '0')` gives a string of length max(2, length of s), ending in `s` and preceded by zeros only |
| `Format.PadStart2Value` | script.js:124 | padding a digit string keeps its numeric value |
| `Format.Display` | script.js:119-124 | the rendering has a colon three characters from the end |
| `Format.DisplayDecodes` | script.js:121-124 | with s = max(0, t), the text before the colon is at least two digits denoting s / 60 in full (never truncated), and the text after it is two digits denoting s % 60, the first of them 0 to 5 |
| `Format.DisplayInjective` | script.js:121-124 | two times render the same text if and only if their clamped values are equal |
| `Format.DisplayOf125` | script.js:119-124 | 125 seconds render as "02:05" |
| `Format.DisplayOfNonPositive` | script.js:121 | zero and negative times render as "00:00" |
| `Format.DisplayOf1500` | script.js:3 | the default 25 minutes render as "25:00" |
| `Format.DisplayOf600` | script.js:119-124 | 600 seconds render as "10:00" |
| `Format.DisplayOf6000` | script.js:119-124 | 6000 seconds render as "100:00", with all three minute digits |
| `Format.Title` | script.js:127 | the title is the display text followed by " - Catodoro" |
| `Format.TitleNeverDone` | script.js:127-133 | the title written for any rendered time differs from the completion title "Done! - Catodoro" |
| `Engine.CeilDiv1000` | timer-worker.js:18 | `Math.ceil(x / 1000)` is the unique r with (r - 1)·1000 < x ≤ r·1000 |
| `Engine.PollEvent` | timer-worker.js:18-28 | a firing posts `finish` if and only if the deadline has been reached; otherwise it posts a tick that is positive and is the seconds left rounded up |
| `Engine.Run` | timer-worker.js:16-29 | a live interval fired at n times posts at most n messages |
| `Engine.RunMeasuresDeadline` | timer-worker.js:17-18 | each message of a run is the one computed from the fixed deadline at its own firing time; nothing is decremented |
| `Engine.RunLength` | timer-worker.js:16-29 | a run posts one message per firing unless it stopped early, and then its last message is the finish |
| `Engine.RunBeforeDeadline` | timer-worker.js:25-28 | when every firing is before the deadline, each firing posts exactly one tick |
| `Engine.RunShape` | timer-worker.js:20-27 | every tick of a run is positive, a finish can only be the last message, and every firing before the last is before the deadline |
| `Engine.RunFinishes` | timer-worker.js:20-24 | if some firing is at or after the deadline, the run ends with its single finish, at the latest at that firing |
| `Engine.RemainingMonotone` | timer-worker.js:18 | against a fixed deadline, a later measurement never gives more seconds |
| `Engine.RunFrom` | timer-worker.js:18-28 | the run from firing i on is that firing's message, followed by the rest of the run unless the message was the finish |
| `Engine.RunStep` | timer-worker.js:18-28 | a prefix of a run followed by firing i's message is again a prefix of that run when the message is a tick, and the whole run when it is the finish |
| `Engine.RunTicksNonIncreasing` | timer-worker.js:16-29 | for firing times that never go back, the ticks of a run never go up |
| `Engine.FirstTickAtMostDuration` | timer-worker.js:13-18 | a firing at or after the start time never reports more seconds than the duration started with |
| `Engine.RepeatedTick` | script.js:18-29 | firings at 0 ms and 250 ms before a 5-second deadline both post `tick(5)`, so ticks are not strictly decreasing |
| `Engine.TimerWorker.constructor` | timer-worker.js:1-2 | the worker starts with no interval and no deadline |
| `Engine.TimerWorker.SetInterval` | timer-worker.js:16 | `setInterval` returns a new handle and makes it live |
| `Engine.TimerWorker.ClearInterval` | timer-worker.js:23 | `clearInterval` stops exactly that interval from firing |
| `Engine.TimerWorker.Start` | timer-worker.js:7-16 | `start` clears the previous interval and sets deadline = now + duration·1000, whatever the earlier state was; it leaves exactly one live interval, the new one |
| `Engine.TimerWorker.Stop` | timer-worker.js:31-35 | `stop` leaves no live interval and keeps the deadline; timer-worker.js forgets the handle, and the inlined copy (script.js:30-32) keeps it |
| `Engine.TimerWorker.OnMessage` | timer-worker.js:4-37 | the worker's message handler: `start` activates the worker with the new deadline, `stop` deactivates it; neither posts anything |
| `Engine.TimerWorker.Poll` | timer-worker.js:16-29 | with no live interval nothing is posted and nothing changes; otherwise the message is `PollEvent` at the fixed deadline; a finish clears the interval and the handle, and a tick changes nothing |
| `Engine.FireInterval` | timer-worker.js:16-29 | firing the live interval at successive times posts exactly `Run` for the deadline set by the last `start`; the worker stays active until it has posted a finish |
| `Session.ResetMinutes` | script.js:101 | the minutes for `reset` are 25 exactly for NaN, 0 or 25, otherwise the parsed number; they are never 0, and negative exactly when the parsed number is negative |
| `Session.CatodoroTimer.constructor` | script.js:2-65 | a session starts with 1500 seconds, not running, showing "25:00" and titled "25:00 - Catodoro" |
| `Session.CatodoroTimer.UpdateDisplay` | script.js:119-128 | the display becomes the rendering of `timeRemaining` and the title becomes that text with " - Catodoro" |
| `Session.CatodoroTimer.Start` | script.js:73-84 | does nothing when running; otherwise the session runs and posts `start` with duration = `timeRemaining`; the time and the page are unchanged |
| `Session.CatodoroTimer.Stop` | script.js:86-96 | does nothing when not running; otherwise the session stops and posts `stop`; the time and the page are unchanged |
| `Session.CatodoroTimer.Reset` | script.js:98-105 | the session always ends up stopped (posting `stop` if it was running), with `timeRemaining = ResetMinutes(parsed)·60`, and the page is re-rendered |
| `Session.CatodoroTimer.SetCustomDuration` | script.js:107-117 | for m > 0 the session stops, `timeRemaining = m·60` and the page is re-rendered; for NaN, 0 or a negative number it returns the validation alert and changes nothing |
| `Session.CatodoroTimer.Finish` | script.js:130-134 | the session stops, the display is "00:00", the title is "Done! - Catodoro", and `timeRemaining` is unchanged |
| `Session.CatodoroTimer.OnMessage` | script.js:55-63 | a tick sets `timeRemaining = timeLeft` and re-renders, without touching `isRunning`; a finish has the effects of `Finish` |
| `Sound.MeowIndex` | script.js:160 | the random sound number is between 1 and 25 |
| `Sound.Attempts` | script.js:161-173 | playback tries the chosen sound and then, unless it was sound 1, sound 1; sound 1 is always the last one tried |
| `Scenarios.FocusSession` | script.js:55-62 | a default session that is started and fired before and after its deadline posts a tick in 1..1500 and then a finish; afterwards it is stopped, shows "00:00" titled "Done! - Catodoro", keeps the tick's value, and the worker posts nothing more |
| `Scenarios.FinishWithoutTick` | script.js:130-134 | a default session whose first firing is at or after its deadline finishes with no tick: it is stopped on "00:00" titled "Done! - Catodoro" while the remaining time is still 1500 |
| `Scenarios.CustomDurations` | script.js:98-117 | -5 minutes is refused with the alert and keeps 1500 seconds; 10 minutes shows "10:00"; a reset with -5 gives -300 seconds, shown as "00:00" |
| `Scenarios.StartSupersedes` | timer-worker.js:9-16 | after two `start`s, the firings post exactly what a worker that only saw the second `start` posts |
| `Scenarios.RestartMidRun` | timer-worker.js:9-16 | a `start` after any earlier firings (mid-run or after the finish) makes the later firings post exactly the run against the new deadline |
| `Scenarios.StopSilences` | script.js:30-32 | after `stop`, in either copy of the worker, no firing posts anything; the deadline is kept; timer-worker.js forgets the handle and the inlined copy keeps it; a second `stop` leaves the handle and the deadline as they were and the worker inactive |

## Left out

- DOM glue: element lookups, button `disabled` states and labels, the `timer-running` body class, and the mascot animation with its `setTimeout` (script.js:39-52, 77-80, 90-93, 103, 113, 134, 136-140). These write to the page and hold no logic.
- Worker creation through a `Blob` URL (script.js:35-36), and the asynchronous message transport. Messages are delivered synchronously in `Scenarios`. A `stop` racing an interval firing that is already running is a concurrency question and is not modelled.
- The interval period (1000 ms in timer-worker.js, 250 ms in the inlined copy) and the scheduling of firings. The caller of `Poll` / `FireInterval` chooses the firing times.
- `Date.now()` and `Math.random()` are parameters (`now`, and `r` in `Sound.MeowIndex`). The uniform distribution of the sound choice is not modelled.
- `parseInt` string semantics. Its result is taken as an `Option<int>`.
- `Format.Decimal`: matches `Number.prototype.toString` only below 10^21. From 10^21 minutes up, JavaScript prints exponent notation (`"1e+21"`), and above 2^53 it prints rounded digits. A long minutes input can reach such values through `setCustomDuration` or `reset`, and the model then shows the exact digits.
- JavaScript numbers are doubles. The model uses unbounded integers, and `Math.ceil((deadline - now) / 1000)` is the exact integer ceiling. A non-integer or undefined duration, and the rounding of floating-point division, are not modelled.
- Sound playback and its failure handling, the completion `Notification`, the `alert` after the sound ends, and the permission request in the constructor (script.js:67-70, 142-155, 166-173). These are browser APIs. `Sound.Attempts` states only which paths are tried.
- Message shapes other than the two commands and the two events. The handlers ignore any other `command` or `type`, and the model's `Command` and `Event` types have no other constructors.
