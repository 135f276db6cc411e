# TimeTimer core in Dafny

A model of the menu-bar stopwatch's timer/accumulator state machine
(`TimerManager`) and of the view's duration formatter (`formatTimeInterval`).

The manager has two states, paused and running, switched by one user action,
`toggleTimer`. While it runs, a once-per-second tick recomputes the session
time from absolute timestamps. The tick also adds the time since the previous
tick to a separate day total, and it writes the key-value store when the
session time is a multiple of 15 seconds. Pausing folds the run into the
paused total and always writes the store. At construction the stored day total
is loaded. It is reset to zero, with the store rewritten, when the stored date
is missing or falls on another calendar day.

Modules:

- `TimerManager` (`timer_manager.dfy`): the state (`Manager`), the store
  (`Defaults`) and each entry point as a pure transition of a `Machine`,
  taking the current instant `now` as a parameter.
- `TimerTrace` (`timer_trace.dfy`): runs of toggles and ticks, with the
  properties that span many transitions.
- `TimerView` (`timer_view.dfy`): the hours/minutes/seconds decomposition and
  the "<h>h <m>m <s>s" rendering, with a parser that reads renderings back.
- `Decimal` (`decimal.dfy`): Swift's interpolation of an `Int` as decimal text.
- `SwiftInt` (`swift_int.dfy`): Swift's truncating `Int` `/` and `%`.
- `Wrappers` (`wrappers.dfy`): `Option`.

Abstractions:

- Instants and durations are whole seconds (`int`). `TimeInterval` is a
  `Double` in the source. Differences of instants may be negative, as
  `timeIntervalSince` may be. Monotonicity results therefore assume a clock
  that does not go backwards.
- `Date()` becomes the `now` parameter of each transition.
- `Calendar.current` becomes a parameter `cal` that maps each instant to its
  day number. Two instants are on the same day when `cal` agrees on them.
- `UserDefaults` becomes the record `Defaults(cumulativeTime, todayDate)`.
  Either entry may be absent, and an absent number reads as 0.
- The Combine timer becomes the `Tick` transition, applied to the state at
  the instant of the tick.

Behaviour of `TimeTimer/TimerManager.swift` worth noting:

- Pausing (lines 70-81) does not clear `lastTick`, so the previous tick time
  survives a pause. Only `startTime` is present exactly while running.
- Pausing does not refresh `elapsedSeconds` either. While paused, the display
  keeps the value of the last tick, not the paused total (`TimerTrace.Session`).
- The time between the last tick and the pause goes into `lastPauseTime` but
  never into `cumulativeTimeToday` (`TimerTrace.Session`).
- The tick (line 51) guards on `startTime`, not `isRunning`. In every reachable
  state the two agree (`TimerTrace.ReachableValid`).
- The tick adds `now - lastTick` to the day total whatever its sign (lines
  56-60): a clock set back lowers the day total
  (`TimerManager.ClockSetBackLowersDayTotal`).
- The day is checked only at construction (lines 27-30). Nothing resets the
  day total while the timer runs past midnight, and the next save dates the
  old total with the new day (`TimerManager.MidnightNotNoticed`).

## Model

| member | source | states |
|---|---|---|
| TimerManager.LoadSavedCumulativeTime | TimeTimer/TimerManager.swift:92-94 | the stored total, or 0 when the store holds none |
| TimerManager.LoadSavedTime | TimeTimer/TimerManager.swift:88-90 | the day total becomes the stored total; no other field changes |
| TimerManager.SaveCurrentTime | TimeTimer/TimerManager.swift:83-86 | the store gets the day total and `now`; loading it back yields that day total; the manager is unchanged |
| TimerManager.ResetTimer | TimeTimer/TimerManager.swift:108-116 | paused and consistent; session time and paused total zero; both timestamps cleared; day total kept |
| TimerManager.ResetForNewDay | TimeTimer/TimerManager.swift:118-124 | the manager returns to its initial field values; the store holds total 0 dated `now` |
| TimerManager.CheckForNewDay | TimeTimer/TimerManager.swift:96-106 | no change when the stored date is on today's day; otherwise a rollover; afterwards the store is always dated today |
| TimerManager.Init | TimeTimer/TimerManager.swift:27-30 | paused with zero session counters; a same-day store is kept and its total loaded; a missing or other-day date gives total 0 and store (0, now); memory and store then agree |
| TimerManager.StartTimer | TimeTimer/TimerManager.swift:44-47 | `startTime` and `lastTick` become `now`; no other field and not the store changes |
| TimerManager.PauseTimer | TimeTimer/TimerManager.swift:70-81 | the run length since `startTime` is added to `lastPauseTime`; `startTime` is cleared; the store always gets (day total, now) |
| TimerManager.Toggle | TimeTimer/TimerManager.swift:33-41 | `isRunning` is negated; when it becomes true the start effects apply, otherwise the pause effects; session time and day total unchanged; the result is consistent from any state |
| TimerManager.Tick | TimeTimer/TimerManager.swift:50-67 | no change without `startTime`; otherwise session time = paused total + (now - start), day total grows by now - lastTick, lastTick = now; the store is written exactly at save points and untouched otherwise |
| TimerManager.SavePointIsMultiple | TimeTimer/TimerManager.swift:64 | the test on Swift's truncating remainder is divisibility by 15 |
| TimerManager.TransitionsPreserveValid | TimeTimer/TimerManager.swift:33-67 | toggle and tick keep `startTime` present exactly while running |
| TimerManager.StrayTickIgnored | TimeTimer/TimerManager.swift:51 | a tick while paused changes nothing |
| TimerManager.ToggleTwice | TimeTimer/TimerManager.swift:33-81 | start then immediate pause keeps the session time, paused total and day total, and saves the day total |
| TimerManager.InitIdempotent | TimeTimer/TimerManager.swift:27-30 | constructing again on the same day from the resulting store reproduces the same state |
| TimerManager.RestartAfterPause | TimeTimer/TimerManager.swift:79-106 | after a pause, a same-day restart recovers the day total and an other-day restart gives 0 |
| TimerManager.RunLength | TimeTimer/TimerManager.swift:75 | the time from `startTime` to `now` (start + length = now), 0 when there is no session |
| TimerManager.ClockSetBackLowersDayTotal | TimeTimer/TimerManager.swift:56-60 | a tick at an instant before the previous tick lowers the day total |
| TimerManager.MidnightNotNoticed | TimeTimer/TimerManager.swift:56-66 | a tick on another day than the previous tick keeps adding to the same day total, and a save dates that total with the new day |
| TimerTrace.RunPreservesValid | TimeTimer/TimerManager.swift:36-46 | every run from a consistent state stays consistent |
| TimerTrace.ReachableValid | TimeTimer/TimerManager.swift:27-46 | every state reachable after construction has `startTime` exactly while running |
| TimerTrace.StepMonotone | TimeTimer/TimerManager.swift:54-75 | one event at a later instant never lowers session time, paused total or day total |
| TimerTrace.RunMonotone | TimeTimer/TimerManager.swift:54-75 | under a clock that does not go backwards, session time, paused total and day total never decrease |
| TimerTrace.DayTotalMonotone | TimeTimer/TimerManager.swift:56-60 | after construction the day total never decreases under a clock that does not go backwards |
| TimerTrace.TickRun | TimeTimer/TimerManager.swift:50-61 | for any clock readings, over ticks in one session the day total grows by exactly (last tick - previous tick), and the session time is paused total + (last tick - start) |
| TimerTrace.TickRunKeepsStore | TimeTimer/TimerManager.swift:63-66 | ticks none of which lands on a multiple of 15 seconds leave the store untouched |
| TimerTrace.Session | TimeTimer/TimerManager.swift:44-81 | for any clock readings, over start, ticks, pause: paused total grows by the whole session; day total grows only up to the last tick; the display keeps the last tick's value; the store holds the day total |
| TimerTrace.CrashAfterFourteenTicks | TimeTimer/TimerManager.swift:63-66 | 14 one-second ticks after a start from paused total 0 leave the store untouched |
| TimerTrace.FifteenthTickSaves | TimeTimer/TimerManager.swift:63-66 | the 15th such tick writes a day total 15 seconds higher, dated at that tick |
| SwiftInt.Quot | TimeTimer/TimerView.swift:86-88 | Swift's `/` rounds toward zero: the quotient has the dividend's sign |
| SwiftInt.Rem | TimeTimer/TimerView.swift:87-88 | Swift's `%` has the dividend's sign and magnitude below the divisor |
| SwiftInt.DivisionIdentity | TimeTimer/TimerView.swift:86-88 | truncating quotient and remainder reassemble the dividend |
| SwiftInt.AgreesOnNatural | TimeTimer/TimerView.swift:86-88 | on a non-negative dividend Swift's `/` and `%` agree with the Euclidean ones |
| Decimal.NatToString | TimeTimer/TimerView.swift:90 | a non-empty digit string with no leading zero |
| Decimal.NatToStringValue | TimeTimer/TimerView.swift:90 | the digits of n read back as n |
| Decimal.IntToString | TimeTimer/TimerView.swift:90 | the interpolation of an `Int`: digits, preceded by '-' exactly when negative |
| Decimal.IntToStringRoundTrip | TimeTimer/TimerView.swift:90 | parsing an interpolated `Int` gives back the integer |
| TimerView.Decompose | TimeTimer/TimerView.swift:86-88 | hours*3600 + minutes*60 + seconds = n; minutes and seconds in [0, 60) for n >= 0 (in (-60, 0] for n < 0); for n >= 0 they equal n / 3600, (n % 3600) / 60 and n % 60 |
| TimerView.DecomposeUnique | TimeTimer/TimerView.swift:86-88 | any same-signed components with minutes and seconds below 60 that add up to n are the decomposition |
| TimerView.FormatTimeInterval | TimeTimer/TimerView.swift:85-91 | the output parses back to the decomposition and hence to the input |
| TimerView.Render | TimeTimer/TimerView.swift:90 | "<h>h <m>m <s>s" parses back to (h, m, s) |
| TimerView.FormattedElapsedTime | TimeTimer/TimerView.swift:76-78 | the session time is shown through the formatter and can be read back from the display |
| TimerView.FormattedCumulativeTime | TimeTimer/TimerView.swift:80-82 | the day total is shown through the same formatter and can be read back from the display |
| TimerView.FormatInjective | TimeTimer/TimerView.swift:85-91 | different second counts render differently |

## Left out

- Floating point: `TimeInterval` is a `Double`. Sub-second time, `Int(...)` truncation of fractional values and `truncatingRemainder` on fractions are not modelled.
- `Int` is unbounded here. The trap of `Int(...)` on a value outside `Int`'s range (`TimeTimer/TimerView.swift:86-87`, `TimeTimer/TimerManager.swift:64`) is not modelled. The only `Int` arithmetic divides by positive constants and cannot overflow; the duration arithmetic is `Double` and does not trap.
- Scheduling: `Timer.publish`, `autoconnect`, `sink`, the `[weak self]` capture and the `cancel` calls are not modelled. "Ticks arrive only while running" is left to the caller of `Tick`; a stray tick is shown to be harmless.
- Persistence: `UserDefaults` synchronisation, its type casts (`as? Date`) and its failure modes are not modelled. A stored value that is not a date is treated as absent.
- Calendar: time zones, locale and daylight saving are folded into the abstract `cal` parameter.
- UI: the SwiftUI layout, colours, `MenuBarExtra`, observation through `@Published`, and the quit button (`NSApplication.terminate`) are not modelled. `TimeTimer/TimeTimerApp.swift` holds only app wiring.
