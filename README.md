# TimeTracker: a verified model of the process-time tracker

TimeTracker is a small desktop app. It tracks how long one chosen operating-system process spends in the running state, and it shows the total as a live `HH:MM:SS` clock. The user picks a process from a filtered list. The user can pause and resume accumulation, or stop tracking.

This project models the app's core, `src/main.rs`, in Dafny:

- **The watcher's per-tick rule** (`process_watcher_async`), in `accumulator.dfy`. The watcher keeps three loop variables: the accumulated duration, the `last_update` anchor and the last rendered second count. `Accumulator.Advance` is one tick. `Accumulator.Loop` is the loop over a sequence of ticks, stopping at the first tick that ends the watcher. Time is abstract milliseconds. Each tick takes its inputs as values:
  - whether cancellation is pending;
  - the shared pause flag;
  - the current instant;
  - the probe result: `Absent`, `Run` or `Other`, where `Other` covers every non-running status.
- **The watcher loop itself**, in `watcher.dfy`. `Watcher.WatchProcess` is imperative: a `while` loop over the ticks that overwrites the shared text buffer `Watcher.SharedText` in place. It is proved equal to `Accumulator.Loop`.
- **The HH:MM:SS rendering**, in `clock_format.dfy`. It covers integer division and remainder, `{:02}` zero padding, and hours of any width. `ClockFormat.ParseClock` is an independent reader of such texts, and the round trip through it proves that different second counts give different texts. So the repaint flag means "the new text differs from the rendering of the last remembered count". That count starts at 0, so on a watcher's first running sample it need not match the text on screen.
- **The process-list filter** (`filter_processes`), in `process_filter.dfy`.
- **The `ProcessApp` controller**, in `session.dfy`. Its fields are the tracked pid and name, the pause flag, the held cancellation token, the snapshot of the process table (`system`), the filter text and the filtered list. Its handlers are construction, selecting a process, pause, stop, `stop_and_join_thread`, `Drop`, the select button and editing the filter. Tokens are numbered as they are created, and the app records which numbers have been cancelled. The object invariant `Valid()` says that the live tokens (created and not cancelled) are exactly the one the app holds. So at most one watcher holds an un-cancelled token. A cancelled watcher may still run until its next check of the token.

Some behaviour one might expect of such a tracker is not what the code does. The model follows the code:

- A non-running sample does **not** re-anchor `last_update`. The next running sample therefore credits the whole gap (`GapBeforeRunIsCredited`).
- The pause button flips the flag even when nothing is tracked.
- The app has no "ended" flag, and a watcher whose process vanished just returns.
- Stopping or switching cancels the old token but does not wait for the old watcher to finish. There is no generation tagging either.
- The `--:--:--` placeholder is written only at construction. Stop and a new session leave the last text displayed.
- A watcher's first running sample under a second after its start writes `00:00:00` over the placeholder, or over the last session's text, and requests no repaint. The remembered count starts at 0 and the repaint test compares counts, not texts (`FirstSampleUnderASecond`).
- Editing the filter re-filters the process snapshot taken by the last press of the select button. It does not read the process table again.

## Model

| member | source | states |
|---|---|---|
| `Accumulator.SaturatingSince` | src/main.rs:48 | the credit is zero when the clock went back; otherwise it brings the anchor exactly up to now, and it never exceeds now |
| `Accumulator.Seconds` | src/main.rs:51 | `as_secs`: the whole seconds of the duration, with the fraction of a second dropped |
| `Accumulator.Begin` | src/main.rs:29-32 | a watcher starts with no duration, anchored at its start instant, and with a remembered count that agrees with its duration |
| `Accumulator.Advance` | src/main.rs:36-76 | one tick returns exactly on a pending cancellation or an unpaused tick on an absent process; only an unpaused running sample writes text, a repaint needs a written text, the duration never falls, and a tick that writes nothing credits nothing and keeps the remembered count |
| `Accumulator.CancelledTick` | src/main.rs:36-40 | a pending cancellation is taken before the tick (biased): the watcher returns, whatever the pause flag or the process says |
| `Accumulator.PausedTick` | src/main.rs:72-75 | a paused tick does not probe: no credit, no text write, no repaint, and the anchor moves to the tick's instant |
| `Accumulator.AbsentTick` | src/main.rs:43-45 | an unpaused tick on a pid that no longer resolves ends the watcher |
| `Accumulator.NotRunningTick` | src/main.rs:45-68 | an unpaused tick on a present but non-running process changes nothing, not even the anchor |
| `Accumulator.RunningTick` | src/main.rs:46-67 | a running sample adds the saturating time since the anchor (so the total never decreases), re-anchors at now, writes the rendering of the new whole-second count, remembers that count, and requests a repaint exactly when the new text differs from the rendering of the previous count |
| `Accumulator.FirstSampleUnderASecond` | src/main.rs:29-67 | a watcher's first running sample under a second after its start writes `00:00:00`, which is not the placeholder, and requests no repaint |
| `Accumulator.Loop` | src/main.rs:35-78 | the loop takes at most all ticks, takes all of them unless it returned, requests at most one repaint per tick, and never lowers the duration |
| `Accumulator.LoopAfterExit` | src/main.rs:38-39 | once the watcher has returned, any further ticks leave its account unchanged |
| `Accumulator.StopsAtEndingTick` | src/main.rs:36-70 | the first cancelled tick, or the first unpaused tick on an absent process, is the last tick taken; the result is the state before it |
| `Accumulator.LoopAppend` | src/main.rs:35-78 | the loop is compositional: ticks `a` then `b` give the account of `b` run from the loop variables `a` left |
| `Accumulator.AnchorBounds` | src/main.rs:47-74 | with non-decreasing instants, the anchor stays between the start instant and the latest tick |
| `Accumulator.Conservation` | src/main.rs:42-75 | with non-decreasing instants, credited time plus the time dropped by paused ticks equals the span from the start anchor to the final anchor, so nothing is counted twice |
| `Accumulator.NeverOverCredits` | src/main.rs:47-49 | the duration gained never exceeds the wall-clock span of the ticks |
| `Accumulator.AllRunning` | src/main.rs:46-49 | with uninterrupted running samples, the duration grows by exactly the span from the start anchor to the latest sample |
| `Accumulator.PausedStretch` | src/main.rs:72-75 | any stretch of paused ticks credits and writes nothing and only moves the anchor to the last of them |
| `Accumulator.ResumeCreditsOnlySinceLastPausedTick` | src/main.rs:47-74 | after a pause of any length, the first running sample credits only the time since the last paused tick |
| `Accumulator.PauseResumeCycle` | src/main.rs:42-75 | running, then paused, then one running sample: the gain is the running span plus the time since the last paused tick, and none of the pause |
| `Accumulator.NotRunningStretch` | src/main.rs:45-68 | any stretch of present but non-running samples leaves the whole account unchanged |
| `Accumulator.GapBeforeRunIsCredited` | src/main.rs:45-49 | a running sample after non-running ones credits the whole gap back to the anchor taken before them |
| `Accumulator.TextShowsLastSeconds` | src/main.rs:51-67 | whenever a text has been written, it is the rendering of the remembered second count, which is the whole seconds of the current duration |
| `Watcher.WatchTick` | src/main.rs:36-76 | one loop body, mutating the shared text in place: it returns exactly when `Advance` exits; otherwise its new loop variables, repaint request and text are those of `Advance` |
| `Watcher.WatchProcess` | src/main.rs:21-79 | the loop started at an instant, over any ticks: its final loop variables, ticks taken, whether it returned, repaint count and the text left in the shared buffer are those of `Loop` |
| `ClockFormat.Decimal` | src/main.rs:59 | decimal notation: all digits, one digit exactly below ten, two digits from ten to ninety-nine, no leading zero |
| `ClockFormat.DecimalRoundTrip` | src/main.rs:59 | reading the decimal notation back gives the number |
| `ClockFormat.Pad2` | src/main.rs:59 | `{:02}`: digits whose value is the number, exactly two below 100, more (with no leading zero) otherwise |
| `ClockFormat.Split` | src/main.rs:53-55 | `hours*3600 + minutes*60 + seconds == total`, with minutes and seconds below 60 |
| `ClockFormat.SplitUnique` | src/main.rs:53-55 | a split with minutes and seconds below 60 sums to the total if and only if it is the one `Split` gives |
| `ClockFormat.FormatHms` | src/main.rs:59 | with minutes and seconds below sixty, the text is the hour digits followed by two colon-led two-digit fields, at least 8 characters long, with a digit first |
| `ClockFormat.ParseFormat` | src/main.rs:53-59 | reading a formatted text back gives the seconds its fields add up to |
| `ClockFormat.Render` | src/main.rs:51-59 | the text is at least 8 characters long, with colons before the last two-digit fields and a digit first; it is exactly 8 long iff the hours fit two digits; it is never the placeholder of src/main.rs:106 |
| `ClockFormat.RenderFields` | src/main.rs:53-59 | the text is `pad2(hours) ++ ":" ++ pad2(minutes) ++ ":" ++ pad2(seconds)`, with two-digit minutes and seconds and the fields of integer division and remainder |
| `ClockFormat.ParseRender` | src/main.rs:51-59 | reading a rendered text back gives the second count it came from |
| `ClockFormat.RenderInjective` | src/main.rs:51-67 | two second counts have the same text if and only if they are equal |
| `ClockFormat.RenderExamples` | src/main.rs:53-59 | 1 s is `00:00:01`, 3661 s is `01:01:01`, and 360000 s is `100:00:00` (the hours widen) |
| `ProcessFilter.Contains` | src/main.rs:138 | `str::contains`: the empty pattern is found in every name, a name contains itself, and a pattern longer than the name is never found |
| `ProcessFilter.ContainsIff` | src/main.rs:138 | the substring test holds exactly when the filter occurs at some position of the name |
| `ProcessFilter.FilterProcesses` | src/main.rs:126-143 | the result's pids are a subset of the table, each keeps its own name, and a pid of the table is kept iff the filter is empty or its name contains the filter |
| `ProcessFilter.EmptyFilterKeepsAll` | src/main.rs:132-133 | an empty filter keeps every process |
| `ProcessFilter.FilterBySubstring` | src/main.rs:131-140 | a process is listed iff the filter occurs somewhere in its name; the source's separate empty-filter branch agrees with `contains` |
| `Session.ProcessApp.AtMostOneLive` | src/main.rs:84 | under the invariant, at most one cancellation token is un-cancelled |
| `Session.ProcessApp.constructor` | src/main.rs:104-118 | a new app tracks nothing, is not paused, holds no token, holds its first snapshot of the process table, has an empty filter and list, shows the placeholder, and satisfies the invariant |
| `Session.ProcessApp.StopAndJoinThread` | src/main.rs:120-124 | the held token, if any, is cancelled and dropped, which is a no-op when none is held; afterwards no token is live and nothing else changes |
| `Session.ProcessApp.SelectProcess` | src/main.rs:172-194 | choosing the tracked pid is a no-op; any other listed pid cancels and clears the old token, clears the pause flag, becomes the tracked pid with its listed name, and gets exactly one fresh token, which is then the only live one; the text is untouched |
| `Session.ProcessApp.TogglePause` | src/main.rs:227-231 | the pause flag flips, whether or not a session is active, and nothing else changes |
| `Session.ProcessApp.Stop` | src/main.rs:233-237 | nothing is tracked, the name is cleared, no token is held or live; the pause flag, the snapshot, the filter, the listed processes and the duration text stay as they were |
| `Session.ProcessApp.Drop` | src/main.rs:95-101 | dropping the app cancels the held token without taking it, so no token is left un-cancelled; nothing else changes |
| `Session.ProcessApp.OpenSelector` | src/main.rs:220-224 | the select button refreshes the snapshot to the given table, clears the filter and lists every process of it, keeping the invariant |
| `Session.ProcessApp.EditFilter` | src/main.rs:158-166 | editing the filter box lists exactly the processes of the current snapshot that pass the new filter; the snapshot is not refreshed, and the invariant is kept |

## Left out

- The tokio runtime, which `select!`, `interval`, `tokio::spawn` and the runtime thread and join in `main` belong to (src/main.rs:13-17, 257-283): scheduling and concurrency are not modelled. What remains is that cancellation is checked before each tick, and that a selection returns the `Spawn` (pid and token) that the new watcher would run with.
- The 200 ms `REFRESH_INTERVAL`: tick instants are free inputs. Properties that need ordered time assume non-decreasing instants (`Monotone`), which `Instant` guarantees.
- `Arc<RwLock<String>>` and `AtomicBool` memory orderings: these are plain fields here. A stale write by an old watcher that has not yet observed its cancellation, racing a new session, is a concurrency question and is not modelled. Neither is a poisoned lock, where the write is skipped.
- The sysinfo probe (`System::refresh_processes`, `process(pid)`, `ProcessStatus`): it becomes the per-tick `Probe` input, and every non-`Run` status becomes `Other`.
- The app's process table (`System::new_all` at construction, `refresh_processes` on the select button): it becomes the `system` field, a map from pid to name. The new snapshot is a parameter of the constructor and of `OpenSelector`.
- `Instant::now()`: time is a natural number of milliseconds per tick. `Duration`'s nanosecond precision and its overflow panic are not modelled, because integers are unbounded.
- egui/eframe rendering, window titles, the process window's open/close flags and `ctx.request_repaint`: only the repaint request is kept, as a boolean (counted by the loop). The click loop over the listed processes is reduced to `SelectProcess(pid)` for a pid in the list.
- `eprintln!` on a formatting failure, and the conversion of OS process names to UTF-8 (`to_str().unwrap_or_default()`): names are plain strings.
- Session.ProcessApp.Drop: it does not re-establish `Valid()`, because the source's `Drop` cancels the held token without taking it, and the app is gone afterwards.
