# Sleep-timer state of bot_bayun, in Dafny

bot_bayun is a Telegram bot that times sleep. In each chat, `/start` opens a
sleep interval, `/stop` closes it and `/stats` lists the intervals with the
total time slept. All of this state lives in two shared maps keyed by chat:
`in_timer` holds the running flag and `states` holds the interval log. The
three command handlers read and update those maps.

This project models the interval log, the two maps, the three handlers'
state logic and the arithmetic of the statistics report. It proves what each
handler does to the maps, and that the handlers keep the flag set exactly
while the chat's log ends in its only open interval.

- `intervals.dfy` (module `Intervals`): `SleepDuration`, and `SleepInterval`
  as a class whose `datesArr` field `StartTimer` and `StopTimer` update in
  place. Both are specified by the sequence functions `Opened` and `Closed`.
- `durations.dfy` (module `Durations`): Rust's truncating `/` and `%` on
  `i64`, and the whole-second, whole-minute and whole-hour counts of a chrono
  `TimeDelta` built from milliseconds. chrono stores floor seconds plus a
  non-negative nanosecond part, and `num_seconds` rounds toward zero.
- `state.dfy` (module `BotState`): `Chats`, which is the value of both maps,
  and the invariant `Consistent`. `Consistent` says that a chat's flag is set
  exactly when its log ends in an open interval, that no earlier interval is
  open, and that every interval has a start.
- `start.dfy`, `stop.dfy` and `stats.dfy`: each handler's transition as a
  function on `Chats`, or the report as a function of the log, with the
  lemmas about it. `StatsHandler.Summarize` is the handler's `for_each` loop,
  proved against the recursive `StatsReport`.
- `registry.dfy` (module `Timers`): the class `Registry`. Its fields are
  `inTimer` and `states`, where `states` maps each chat to a `SleepInterval`
  object. Its methods `Start`, `Stop` and `Stats` are proved against the
  functions above.

Panics in the source become preconditions:
- `Stop` requires that the chat has a non-empty log.
- `Start` requires a log with a started last interval when the flag is
  already set. `StartHandler.ConsistentStartDefined` shows that this always
  holds in a consistent state.
- `Stats` requires that the chat has a log, and that every interval in it has
  a start.

Timestamps are unbounded integers of epoch milliseconds. A handler's message
time (`msg.date.timestamp_millis()`) is a parameter.

The design description says that `/stop` on an idle chat changes nothing and
that `/stats` on an unknown chat returns an empty report. The code does
neither: both calls panic on a chat that never started, and a repeated
`/stop` moves the recorded stop time. The model follows the code. The
intended behaviour is modelled separately, as `StopStepFixed`,
`Registry.StopFixed` and `Registry.StatsOrEmpty` (see "## Findings"). The
design also says that a stop is never earlier than its start. The code does
not enforce this, so the model assumes it only where a lemma needs it
(`StopsAfterStarts`).

## Model

| member | source | states |
|---|---|---|
| `Intervals.SleepInterval.constructor` | src/main.rs:28-32 | `new()` yields an empty interval list |
| `Intervals.SleepInterval.StartTimer` | src/main.rs:34-39 | `start_timer(t)` updates the list in place to `Opened(old list, t)` |
| `Intervals.SleepInterval.StopTimer` | src/main.rs:41-43 | `stop_timer(t)` needs a non-empty list (`last_mut().unwrap()`) and updates it in place to `Closed(old list, t)` |
| `Intervals.OpenedAppendsOne` | src/main.rs:34-39 | `start_timer(t)` grows the list by exactly one, keeps every earlier entry, and the new last entry is started at `t` and open |
| `Intervals.ClosedStampsLast` | src/main.rs:41-43 | `stop_timer(t)` keeps the length and every entry but the last, keeps the last entry's start and sets its stop to `t` |
| `Intervals.ClosedOverwritesStop` | src/main.rs:42 | `stop_timer` on an already closed last interval changes it whenever the new time differs, so it is not a no-op |
| `Intervals.MutatorsKeepOneOpen` | src/main.rs:34-43 | `start_timer` on a log with no open interval leaves only the new last one open; `stop_timer` on a log whose only open interval is the last leaves none open |
| `Intervals.MutatorsKeepStarts` | src/main.rs:35-37 | every interval created or stamped by the two mutators still has its start present |
| `Durations.Quot` | src/commands/stats_command_handler.rs:52 | Rust's `/` by a positive divisor: the quotient rounded toward zero, characterised by the remainder's range on each sign |
| `Durations.Rem` | src/commands/stats_command_handler.rs:53 | Rust's `%`: the remainder completes the quotient and has the dividend's sign with magnitude below the divisor |
| `Durations.NumSeconds` | src/commands/stats_command_handler.rs:32-33 | the seconds of `TimeDelta::milliseconds(ms)`, computed from chrono's floor-seconds-plus-nanoseconds form, equal the milliseconds divided by 1000 and rounded toward zero |
| `Durations.NumMinutes` | src/commands/stats_command_handler.rs:39 | `num_minutes()`, computed as whole seconds over 60, is the millisecond delta truncated toward zero to whole minutes |
| `Durations.NumHours` | src/commands/stats_command_handler.rs:38 | `num_hours()`, computed as whole seconds over 3600, is the millisecond delta truncated toward zero to whole hours |
| `Durations.MinutesSuperadditive` | src/commands/stats_command_handler.rs:41 | for non-negative deltas, the minutes of a sum are at least the sum of the minutes |
| `BotState.InitialConsistent` | src/main.rs:73-74 | the two empty maps at start-up satisfy the flag/log invariant |
| `StartHandler.StartWhenIdle` | src/commands/start_command_handler.rs:24-54 | if the flag is absent or false, `/start` sets it, appends exactly one open interval stamped with the message time (to an empty log if there was none) and reports `Started(t)` |
| `StartHandler.StartWhenRunning` | src/commands/start_command_handler.rs:26-43 | if the flag is set, `/start` changes neither map and reports the last interval's start |
| `StartHandler.StartStep` | src/commands/start_command_handler.rs:21-54 | after `/start`, in either branch, the chat's flag is set and a further `/start` cannot panic; no other chat's flag or log changes, including whether one exists |
| `StartHandler.ConsistentStartDefined` | src/commands/start_command_handler.rs:36-43 | in a consistent state, the unwraps of the already-running branch cannot fail |
| `StartHandler.StartKeepsConsistent` | src/commands/start_command_handler.rs:24-54 | `/start` preserves "flag set ⇔ the log ends in an open interval", "no earlier interval is open" and "every interval is started", and never panics in a consistent state |
| `StartHandler.DoubleStart` | src/commands/start_command_handler.rs:24-54 | a second `/start` changes nothing and reports the start the first one recorded; from idle, two starts add only one interval |
| `StopHandler.StopEffect` | src/commands/stop_command_handler.rs:21-28 | after `/stop` the flag is false if it existed and stays absent otherwise; the log keeps its length and every entry but the last, and the last keeps its start and gets the stop time |
| `StopHandler.StopStep` | src/commands/stop_command_handler.rs:20-28 | after `/stop` the chat's flag is not set and its log is still non-empty; no other chat's flag or log changes |
| `StopHandler.StopKeepsConsistent` | src/commands/stop_command_handler.rs:21-28 | `/stop` preserves the two-way flag/log invariant: it leaves the flag false or absent and no interval of the chat open |
| `StopHandler.StartThenStop` | src/commands/stop_command_handler.rs:21-28 | `/start` at t0 then `/stop` at t1 leaves the flag false and a last interval `{t0, t1}` in a log one longer than before |
| `StopHandler.StopPanicsBeforeStart` | src/commands/stop_command_handler.rs:25-28 | in any state where the chat has no log, as at start-up, `/stop` is outside its precondition: `or_insert(new())` then `stop_timer` panics |
| `StopHandler.SecondStopMovesStopTime` | src/commands/stop_command_handler.rs:25-28 | as written, start at 0, stop at 60000 and stop at 120000 leave the interval `{0, 120000}` |
| `StopHandler.StopFixedEffect` | src/commands/stop_command_handler.rs:20-32 | the corrected `/stop` is defined everywhere, clears the flag, matches the source when the last interval is open and otherwise leaves every log unchanged |
| `StopHandler.StopFixedKeepsConsistent` | src/commands/stop_command_handler.rs:21-28 | the corrected `/stop` preserves the two-way flag/log invariant in every state, including a chat with no log |
| `StopHandler.SecondStopFixedKeepsStopTime` | src/commands/stop_command_handler.rs:25-28 | with the corrected `/stop`, a second stop changes nothing, and the interval keeps the first stop time |
| `StatsHandler.Summarize` | src/commands/stats_command_handler.rs:21-54 | the `for_each` loop with its two accumulators builds exactly the report `StatsReport` specifies |
| `StatsHandler.LinesAt` | src/commands/stats_command_handler.rs:29-48 | the loop emits one record per interval, in log order |
| `StatsHandler.ReportRecords` | src/commands/stats_command_handler.rs:29-48 | closed intervals give a start/stop record with the whole hours and whole minutes of the delta; open intervals give a start-only record |
| `StatsHandler.StatsReport` | src/commands/stats_command_handler.rs:20-57 | the report has one record per interval, and its total is the closed-interval milliseconds truncated to whole minutes, rendered `H:M` with `H*60 + M` equal to it, `0 <= M < 60` when it is not negative and `-60 < M <= 0` when it is |
| `StatsHandler.ClosedSumAppend` | src/commands/stats_command_handler.rs:30-41 | the total over a concatenation of logs is the sum of their totals |
| `StatsHandler.ClosedSumStartStop` | src/commands/stats_command_handler.rs:31-41 | an open interval adds nothing to the total; closing it at t1 adds `t1 - t0` |
| `StatsHandler.ClosedSumNonNegative` | src/commands/stats_command_handler.rs:32-41 | when every stop is at or after its start, the total is not negative |
| `StatsHandler.TotalMinutesAtLeastLineMinutes` | src/commands/stats_command_handler.rs:38-53 | the total is truncated once, after summing, so its minutes are at least the sum of each interval's minutes |
| `StatsHandler.EmptyLogReport` | src/commands/stats_command_handler.rs:23-54 | an empty log gives no records and a total of 0:0 |
| `StatsHandler.TwoHourIntervalLine` | src/commands/stats_command_handler.rs:87-93 | a two-hour interval's time spent is `2:120`: whole hours, then the whole-minute count of the same delta |
| `StatsHandler.AggregateTwoIntervals` | src/commands/stats_command_handler.rs:50-54 | closed intervals of 125 and 35 minutes total `2:40` |
| `Timers.Registry.constructor` | src/main.rs:73-74 | both maps start empty |
| `Timers.Registry.EnsureLog` | src/commands/start_command_handler.rs:51-53 | `entry(c).or_insert(SleepInterval::new())` gives the chat a fresh empty log object unless it has one, and leaves the other logs alone |
| `Timers.Registry.OpenInterval` | src/commands/start_command_handler.rs:51-54 | `or_insert(..).start_timer(t)` replaces the chat's log with `Opened(log, t)` |
| `Timers.Registry.CloseInterval` | src/commands/stop_command_handler.rs:25-28 | `or_insert(..).stop_timer(t)` on a chat with a non-empty log replaces that log with `Closed(log, t)` |
| `Timers.Registry.Start` | src/commands/start_command_handler.rs:21-59 | the new maps and the outcome are `StartStep` of the old maps, so every `StartHandler` lemma holds of the handler |
| `Timers.Registry.Stop` | src/commands/stop_command_handler.rs:20-32 | the new maps are `StopStep` of the old maps; the handler requires that the chat has a non-empty log |
| `Timers.Registry.StopFixed` | src/commands/stop_command_handler.rs:20-32 | the corrected `/stop`: the new maps are `StopStepFixed` of the old maps, with no precondition |
| `Timers.Registry.Stats` | src/commands/stats_command_handler.rs:20-57 | reads the chat's log, which must exist (`get(..).unwrap()`), changes nothing, and returns `StatsReport` of it |
| `Timers.Registry.StatsOrEmpty` | src/commands/stats_command_handler.rs:25-27 | the corrected `/stats`: a chat with no log gets the empty report with total 0:0 |
| `Timers.StatsPanicsBeforeStart` | src/commands/stats_command_handler.rs:25-27 | no chat has a log at start-up, and no `/start` or `/stop` in another chat creates one, while `/stop` in the chat itself panics; so without a `/start` there the `get(..).unwrap()` of `/stats` fails |
| `Timers.TwoSessions` | src/commands/stats_command_handler.rs:29-41 | start t0, stop t1, start t2 and stop t3 give two closed intervals in order, a cleared flag and a total of `(t1-t0)+(t3-t2)` |

## Left out

- Concurrency is not modelled. The DashMap sharding, the `Arc`s and each handler's `tokio::sync::Mutex` are left out, and each handler call is one atomic step. The source updates `in_timer` and `states` in two separate steps, and interleavings between them are not captured.
- Message texts, chrono's date formatting, `send_message` and the `RequestError` plumbing are left out. `/start` returns a `StartOutcome`, `/stop` returns nothing and `/stats` returns a `Report` record.
- Timestamps and deltas are unbounded integers. `i64` overflow is not modelled. Neither is the panic of `TimeDelta::milliseconds` or of `DateTime::from_timestamp_millis(..).unwrap()` for values outside chrono's range.
- `main()` and command routing are left out: dotenv, tracing, `Bot::new` and `Command::repl`. The ignored `String` argument of `/start` and `/stop` is left out too.
- The help handler and the new-member greeting are left out. They only send fixed text and share no state with the timer.
- The `#[test] fn tst` bodies are not modelled. They parse dates and print. The stats test's `2:120` is stated as `StatsHandler.TwoHourIntervalLine`.
- The `in_timer` map that `StatsCommandHandler` holds is never read, so it is left out.
- The `msg.date` string in the `/start` and `/stop` replies is left out. `Started` carries the millisecond stamp instead.
- `Timers.Registry.Stop`: on a chat with no log, the source's `or_insert(SleepInterval::new())` inserts an empty log and `stop_timer` then panics. The model's precondition excludes that call, so the empty log it leaves behind for a later `/stats` is not modelled.
- `Timers.Registry.StopFixed`: for a chat with no log it does not create an empty one, whereas the source's `or_insert` does.

## Findings

| source | as written | input that shows it | evidently intended | confidence | as-written member | corrected member |
|---|---|---|---|---|---|---|
| src/commands/stats_command_handler.rs:25-27 | `/stats` unwraps the chat's log, which a `/start` creates (a `/stop` inserts one too, but then panics) | `/stats` as the first command in a chat | an empty report with total 0:0 | medium, not executed | `Timers.StatsPanicsBeforeStart` | `Timers.Registry.StatsOrEmpty` |
| src/commands/stop_command_handler.rs:25-28 | `/stop` inserts an empty log and then stamps its non-existent last interval | `/stop` as the first command in a chat | clear the flag and leave the log alone | medium, not executed | `StopHandler.StopPanicsBeforeStart` | `StopHandler.StopFixedEffect` |
| src/main.rs:42 | `stop_timer` stamps the last interval even when it is already closed, so a repeated `/stop` moves the stop time and inflates the total | start at 0, stop at 60000, stop at 120000 gives `{0, 120000}` | only an open interval is closed | low, not executed | `StopHandler.SecondStopMovesStopTime` | `StopHandler.SecondStopFixedKeepsStopTime` |
