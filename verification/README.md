# takeBreak: a Dafny model of the break reminder's state machine

takeBreak is a tray application that polls the user's idle time once a second
and reminds them to take a break. Its core, modelled here, is small and
sequential:

- **`Timeout`** (module `BreakPolicy`): a break policy with one counter `busy`
  and two thresholds, `max_busy_time` (ticks) and `break_time` (seconds). A
  sample under 1000 ms counts one busy tick. A count above `max_busy_time`
  fires the break callback with the count. A sample above `break_time * 1000`
  fires the idle callback with the count and resets it to 0. The checks run in
  that order, and neither callback is latched.
- **`Timer`** (module `Scheduler`): an ordered list of registered policies.
  Each tick feeds the same sample to every entry in registration order.
  Duplicates are allowed, and a policy registered twice is fed twice.
- **`App`** (module `Tray`): the tray icon (`'green'`, `'red'`, `'red-cross'`),
  the log of idle counts and the notifications. Two policies share one timer:
  short (180 ticks, 30 s) and long (1800 ticks, 300 s). Both share the idle
  callback. The short policy's break callback promotes green to red. The long
  policy's break callback always sets red-cross.

Callbacks are identities of a type parameter. `Timeout.Call` returns the
invocations it makes, in order, with their arguments. `App.Tick` hands them
to the App's callback methods.

The pure specification functions are:
- `Observe`: one call on one sample.
- `Run`: a stream of samples.
- `Fan`: one tick over a registration list, with counters kept in a map keyed
  by object, so aliasing is modelled.
- `Handle` / `HandleAll`: the effect of callback invocations on a `Display`
  (icon, log, notifications).
- `TickCalls`: the invocations of one App tick.

Each class method is proved against these functions, and the lemmas state
the properties.

The model keeps three behaviours of the code that a reader might not expect:
- Thresholds are not validated. Any integers are accepted, as `Timeout.__init__` accepts them.
- In the scenario with threshold 3 and break 30 s, the 40-second sample after
  four busy ticks fires the break callback again (the count is still 4) before
  the idle callback with 4 (`ThresholdScenario`).
- Because nothing is latched, once the icon is red-cross a tick that is idle
  between 30 s and 5 min with the short count at 0 (that is, every such tick
  after the first, which logs the short count so far) logs and notifies a 0.
  The short policy's idle callback clears the icon, and the long policy's
  break callback sets red-cross again (`RedCrossIdleTickLogsZero`).

## Model

| member | source | states |
|---|---|---|
| `BreakPolicy.Observe` | takeBreak.py:24-35 | one call keeps a non-negative counter non-negative; the counter only stays, rises by exactly one or is reset to 0; at most two callbacks fire |
| `BreakPolicy.Timeout.constructor` | takeBreak.py:15-22 | stores the thresholds and callbacks unchecked, with the source's defaults (10, 10, none, none), and starts the counter at 0 |
| `BreakPolicy.Timeout.Call` | takeBreak.py:24-35 | `__call__` leaves the counter and returns the invocations exactly as `Observe` of the old counter and the sample; the counter stays non-negative |
| `BreakPolicy.ActiveSampleCounts` | takeBreak.py:25-26 | a sample under 1000 ms raises the count by one before either check, so every callback fired gets the raised count; without a reset the counter ends one higher |
| `BreakPolicy.QuietSampleKeepsCount` | takeBreak.py:25-35 | a sample from 1000 ms up to the break length leaves the counter unchanged and fires no idle callback, only the break callback when the count is over the threshold |
| `BreakPolicy.BreakCallbackLevelTriggered` | takeBreak.py:28-30 | on every call whose count is over the threshold the break callback fires first with that count; otherwise only the idle callback can fire |
| `BreakPolicy.IdleCallbackResets` | takeBreak.py:32-35 | a sample beyond the break length fires the idle callback last with the pre-reset count and leaves the counter at 0; any other sample keeps the count and fires no idle callback |
| `BreakPolicy.BreakBeforeReset` | takeBreak.py:28-35 | the break check precedes the reset: one call can fire the break and then the idle callback with the same count |
| `BreakPolicy.RunAppend` | takeBreak.py:24-35 | feeding two streams one after the other is feeding their concatenation |
| `BreakPolicy.RunNonNegative` | takeBreak.py:22-35 | over any stream of samples the counter is never negative |
| `BreakPolicy.RunActiveAccumulates` | takeBreak.py:25-30 | with a break length of at least 1 s, n active samples raise the counter by exactly n and fire the break callback once per sample whose count exceeds the threshold, with consecutive counts |
| `BreakPolicy.RunRestedRepeats` | takeBreak.py:32-35 | while idle beyond the break length (threshold not negative), the idle callback fires on every sample: first with the accumulated count, then with 0; a rest starting above the threshold first fires the break callback once with that count; the counter ends at 0 |
| `BreakPolicy.ThresholdScenario` | takeBreak.py:24-35 | threshold 3, break 30 s: four 500 ms samples give count 4 and one break invocation with 4; a 40 s sample then fires break(4) and idle(4) and resets |
| `Scheduler.Timer.constructor` | takeBreak.py:39-40 | a new timer has no registered functions |
| `Scheduler.Timer.AddFunc` | takeBreak.py:42-43 | `add_func` appends at the end, without a duplicate check |
| `Scheduler.Timer.Action` | takeBreak.py:45-48 | `action` feeds the one sample to every registered policy in order: counters and invocations are those of `Fan`, and every policy stays valid |
| `Scheduler.Fan` | takeBreak.py:45-48 | a tick changes no counter outside the registration list and keeps the set of tracked policies |
| `Scheduler.FanDistinct` | takeBreak.py:45-48 | without duplicates each policy observes the identical sample from its own counter, and the invocations come policy by policy in registration order |
| `Scheduler.RegisteredTwice` | takeBreak.py:42-48 | a policy registered twice observes the sample twice per tick, the second time from the counter the first call left |
| `Tray.App.constructor` | takeBreak.py:72-92 | starts green with an empty log and registers the (180, 30) policy and then the (1800, 300) policy, both at count 0 |
| `Tray.App.SetGreenLed` | takeBreak.py:107-110 | the icon becomes green unconditionally; log and notifications unchanged |
| `Tray.App.SetRedLed` | takeBreak.py:112-116 | the icon becomes red only from green, otherwise unchanged; log and notifications unchanged |
| `Tray.App.SetRedCross` | takeBreak.py:118-121 | the icon becomes red-cross unconditionally; log and notifications unchanged |
| `Tray.App.ShortBreakCallback` | takeBreak.py:94-95 | the short break callback is `set_red_led`, whatever the count |
| `Tray.App.LongBreakCallback` | takeBreak.py:97-98 | the long break callback is `set_red_cross`, whatever the count |
| `Tray.App.IdleCallback` | takeBreak.py:100-105 | the idle callback's effect is `Handle` of an idle invocation: nothing when green, else notify, log and go green |
| `Tray.App.Deliver` | takeBreak.py:86-89 | the invocations reach the App methods bound as callbacks, in order, with the effect of `HandleAll` |
| `Tray.App.Tick` | takeBreak.py:45-48 | one tick: each policy's counter is `Observe` of its own old counter and the sample, and the display is the short policy's invocations then the long policy's, applied in order |
| `Tray.RedLedOnlyPromotesGreen` | takeBreak.py:112-116 | `set_red_led` turns green into red and leaves red and red-cross as they are; applying it twice equals applying it once |
| `Tray.HandleIdempotent` | takeBreak.py:94-121 | every callback is idempotent: repeating an invocation changes nothing more |
| `Tray.EscalationWins` | takeBreak.py:94-98 | red-cross wins over red in either order of the two break callbacks |
| `Tray.IdleCallbackEffect` | takeBreak.py:100-105 | on green the idle callback changes nothing; otherwise it logs and notifies exactly the value passed and the icon becomes green |
| `Tray.HandleAllAppend` | takeBreak.py:94-121 | delivering two sequences of invocations one after the other is delivering their concatenation |
| `Tray.HandleAllLogs` | takeBreak.py:100-105 | the log is append-only; every appended value is also notified; appended values number at most the idle invocations and each is one of their arguments |
| `Tray.ActiveTickKeepsWarning` | takeBreak.py:86-89 | a tick with input in the last second logs nothing and never clears red or red-cross |
| `Tray.LongRestClears` | takeBreak.py:86-89 | a tick idle beyond 5 minutes resets both counters and leaves the icon green |
| `Tray.ShortWarningTurnsRed` | takeBreak.py:86-89 | on green, the active tick that takes the short count past 180 turns the icon red, while the long count is not past 1800 |
| `Tray.RedCrossIdleTickLogsZero` | takeBreak.py:86-89 | on red-cross with the long count past 1800 and the short count at 0 (every such tick after the first), a tick idle between 30 s and 5 min logs and notifies a 0 and leaves the icon red-cross and the long count unchanged |

## Left out

- `get_user_idle_time`, the `xprintidle` shell call and its integer parsing (takeBreak.py:9-11): the sample is a parameter of `Timer.Action` and `App.Tick`. Its failure is not modelled.
- `Timer.start` and the QTimer firing `action` every second (takeBreak.py:50-53): each call of `App.Tick` is one firing.
- The Qt application, the tray widget, its menu and the exit action (`sys.exit`), `run` and the `setting` dialog (takeBreak.py:71-83, 123-131): GUI and event-loop glue.
- Icon images, `setIcon` and `showMessage`: the icon is kept as its name, and a notification as the value it shows. The 5000 ms display hint is not kept.
- `Logger` (takeBreak.py:56-66): opening the file, append versus create, and flushing are not modelled. The log is the sequence of integers written by this run, one per line.
- Order of callbacks within a tick: the source runs each policy's callbacks while that policy is called. The model collects both policies' invocations and then delivers them in the same order. Callbacks never read or write a policy's counter, so the counters, the invocations and the final display are the same.
- Python's optional callbacks (`None` or a callable) are modelled as `Option` values. A callback that raises is not modelled.
