# A verified model of the `timer` countdown

`timer` is a terminal countdown. It takes hours, minutes and seconds on the command line. It prints the remaining time once per whole second. A bare newline on standard input pauses or resumes it. When the time reaches zero it prints `done` and exits. Two tasks share the state:
- the **ticker** wakes every `TIMER_STEP_MS` = 200 ms. It prints the remaining duration when that is a whole number of seconds, then takes one step off the duration, saturating at zero;
- the **main loop** reads lines with a timeout of one step. It toggles the pause flag when its read buffer is exactly `"\n"`.

This project models that coordination as sequential Dafny and proves what it promises.

Files and modules:
- `countdown.dfy`, module `Countdown`: the ticker arithmetic as pure functions. Durations are counted in milliseconds. Every duration is a whole number of 200 ms steps, so `subsec_millis` is the remainder modulo 1000. The module holds:
  - one tick (`TickDuration`, `TickEvents`);
  - `k` unpaused ticks (`AfterTicks`, `EventsOfTicks`);
  - ticks that each see a given pause flag (`RunTicks`, `RunEvents`);
  - the expected updates (`WholeSeconds`).
- `display.dfy`, module `Display`: the text of each update and of the final notice. This includes the `{line_end:>3}` padding.
- `input.dfy`, module `Input`: what one completed read does to the main loop's buffer, and what a sequence of reads does.
- `timer.dfy`, module `Timers`: the `Timer` class. It holds the duration, the pause flag, the line prefix and suffix, and the output written so far (`log`). It has the constructor, one pass of the ticker loop (`Tick`), the final notice (`Finish`), the whole loop when nothing toggles (`Start`), `Toggle` and `Done`.
- `program.dfy`, module `Program`: the whole program. `Step` and `Replay` give the state an arbitrary interleaving of ticker ticks, completed reads and timed-out reads leads to. The `Session` class models `main`: it holds the shared `Timer` and the read buffer, and `Run` executes an interleaving on them and ends in the state `Replay` gives.

Two details of the code shape the output:
- The whole-second check comes before the decrement (`src/main.rs:68-75`). So the first update is the full starting duration, and no update is printed for zero.
- `{line_end:>3}` pads the suffix to width 3 on the left (`src/main.rs:70`). So an update ends in `"  \n"` in normal mode and in `"   "` in line mode (`Display.RenderByMode`).

A timed-out read empties the buffer. `read_line` moves the buffer's contents into the read it starts (`src/main.rs:107`), and the read cancelled by the timeout does not give them back. So stray input blocks toggling only until the next timeout.

## Model

| member | source | states |
|---|---|---|
| Countdown.InitialMs | src/main.rs:46 | The starting duration is `seconds + 60*minutes + 3600*hours` whole seconds, and so also a whole number of 200 ms steps |
| Countdown.SaturatingSub | src/main.rs:75 | `saturating_sub` never goes below zero. It is the exact difference when the step fits and zero otherwise |
| Countdown.TickDuration | src/main.rs:64-76 | A tick on a zero duration or while paused leaves the duration unchanged. An unpaused tick on a non-zero duration strictly lowers it to the saturating difference. A whole number of steps stays one |
| Countdown.TickEvents | src/main.rs:67-73 | A tick prints at most once. It prints exactly when running on a non-zero duration whose `subsec_millis` is 0, and what it prints is that duration. It never prints zero |
| Countdown.AfterTicksSaturates | src/main.rs:75 | `k` unpaused ticks leave `max(0, d - 200k)` |
| Countdown.AfterTicksStrictlyDecreasing | src/main.rs:75 | While the duration is non-zero, each further unpaused tick lowers it |
| Countdown.FinishesAfterExactly | src/main.rs:62-78 | From `N` whole seconds the duration is zero after `k` unpaused ticks if and only if `k >= 5N` |
| Countdown.WholeSecondsDescending | src/main.rs:68-73 | The expected updates for `N` seconds are exactly `N` of them, for `N`, `N-1`, ..., `1` seconds in that order |
| Countdown.WholeSecondStep | src/main.rs:68-75 | One unpaused tick from a non-zero whole number of steps prints exactly the head of the remaining whole-second updates |
| Countdown.CountdownUpdates | src/main.rs:62-78 | Ticking a whole number of steps to zero prints the updates for every whole second from the start down to one, and nothing else |
| Countdown.PausedTicksDoNotCount | src/main.rs:67-76 | Any mix of paused and unpaused ticks leaves the same duration and output as its unpaused ticks alone |
| Countdown.PausedTicksFreeze | src/main.rs:67-76 | Any number of paused ticks leaves the duration unchanged and prints nothing |
| Countdown.LiveTicksBounded | src/main.rs:62-76 | Ticks that all found the loop still running contain at most `d / 200` unpaused ones |
| Countdown.CompletionTicks | src/main.rs:62-78 | With pauses interleaved anyhow, a run that reaches zero with every tick finding the loop running has exactly `d / 200` unpaused ticks |
| Display.PadLeft | src/main.rs:70 | The `:>3` format spec: the text is kept as the suffix and spaces are added on the left up to the width |
| Display.RenderByMode | src/main.rs:70 | Line mode prints `"\r" + fmt(d) + "   "`; otherwise `fmt(d) + "  \n"`. The final notice is `"\rdone\n"` or `"done\n"` (prefix and suffix from `src/main.rs:48-49`, notice from `src/main.rs:79`) |
| Display.TranscriptAppend | src/main.rs:69-72 | The text written for a log followed by more events is the earlier text followed by the new text |
| Display.FinishedLast | src/main.rs:79 | Whatever was written before, the final notice ends the text with `done` on its own line |
| Input.AfterRead | src/main.rs:107-114 | A read that toggles leaves the buffer empty. Any other read only appends to the buffer |
| Input.ReadSettles | src/main.rs:111-113 | After any read the buffer is never the bare toggle character |
| Input.ToggleOnlyOnBareNewline | src/main.rs:111 | Between reads, a read toggles if and only if the buffer is empty and the line is exactly `"\n"` |
| Input.NonMatchingLinePoisons | src/main.rs:107-114 | A read that brings in characters without toggling leaves a buffer that no further completed read can bring back to `"\n"` |
| Input.PoisonedNeverToggles | src/main.rs:104-115 | From such a buffer, no sequence of completed reads with no timeout between them toggles, and the buffer only grows |
| Input.BareNewlinesAlwaysToggle | src/main.rs:111-114 | From an empty buffer, every completed read of a bare `"\n"` toggles and the buffer stays empty |
| Input.PoisonedReadStays | src/main.rs:107-114 | One completed read into such a buffer does not toggle, and the buffer stays such a buffer and only grows |
| Timers.ToggleParity | src/main.rs:84-86 | An even number of toggles restores the pause flag and an odd number flips it |
| Timers.Timer.constructor | src/main.rs:44-51 | Starts unpaused with the summed duration. In line mode the prefix is `"\r"` and the suffix empty; otherwise the prefix is empty and the suffix is `"\n"`. Nothing has been written yet |
| Timers.Timer.Tick | src/main.rs:63-77 | One pass of the loop body. It stops exactly on a zero duration. The new duration and the new output are `TickDuration` and `TickEvents` of the old state. The pause flag is unchanged, and the invariant (whole steps; no zero update; `done` at most once and last) is kept |
| Timers.Timer.Finish | src/main.rs:79 | After the loop, appends the final notice exactly once |
| Timers.Timer.Start | src/main.rs:62-80 | With nothing toggling, the whole loop prints the updates for `N`, ..., `1` seconds, then `done`. It ends at zero after exactly `d / 200` decrementing passes |
| Timers.Timer.Toggle | src/main.rs:84-86 | Negates the pause flag and changes nothing else |
| Timers.Timer.Done | src/main.rs:88-90 | True if and only if the duration is zero. While false, at least one full step remains |
| Program.Session.constructor | src/main.rs:101-104 | A fresh timer as `Timer::new` builds it, and an empty read buffer: the state `Initial` |
| Program.Session.OnLine | src/main.rs:107-114 | A completed read updates the buffer as `AfterRead` says, and flips the pause flag exactly when it toggles |
| Program.Session.TickTurn | src/main.rs:62-79 | The ticker's turn. A running loop with a non-zero duration makes one pass and reports the pause flag it saw. A zero duration ends the loop and writes `done` once. An ended loop does nothing more |
| Program.Session.ReadTurn | src/main.rs:106-114 | The main loop handles a completed read only while the duration is non-zero. The buffer and the pause flag then change as `AfterRead` says; otherwise nothing changes |
| Program.Session.TimeoutTurn | src/main.rs:106-109 | A read that timed out while the duration is non-zero leaves the buffer empty; otherwise nothing changes |
| Program.Session.Run | src/main.rs:102-115 | Executing any interleaving of ticks, completed reads and timed-out reads on the timer and the buffer ends in exactly the state `Replay` gives for it |
| Program.ReplayFollowsTicks | src/main.rs:62-79 | In any interleaving, the duration and the output are those of the ticks that found the loop running, each with the pause flag it saw. The final notice follows only once the loop has ended, at zero |
| Program.CompletedReplay | src/main.rs:62-80 | Any interleaving that ends the loop has printed every whole second from the start down to one, then `done`. Exactly `d / 200` of its ticks found the timer running and unpaused |
| Program.CompletedRun | src/main.rs:44-51 | A timer built from hours, minutes and seconds whose loop has ended has printed `N`, ..., `1` seconds and `done`, with `N = seconds + 60*minutes + 3600*hours`. Exactly `5N` unpaused ticks were consumed, whatever the pauses |
| Program.CompletedRunText | src/main.rs:70-79 | The text of such a run is the text of the updates for `N`, ..., `1` seconds followed by the line prefix and `done` |
| Program.UnattendedRun | src/main.rs:62-110 | With no completed read, an unpaused timer that ticks more than `d / 200` times ends its loop and prints every whole second and `done`, whatever the timeouts |
| Program.StrayInputBlocksToggles | src/main.rs:104-114 | After stray input, no ticks and completed reads change the pause flag as long as no read times out |
| Program.TimeoutRecovers | src/main.rs:107-114 | While the countdown runs, a timeout followed by a bare `"\n"` toggles the pause flag and leaves the buffer empty, whatever the buffer held |
| Program.EveryBareNewlineToggles | src/main.rs:111-114 | From an empty buffer while the countdown runs, `n` bare `"\n"` reads toggle the pause flag `n` times and change nothing else |

## Left out

- Concurrency plumbing is not modelled:
  - the tokio runtime, `tokio::spawn`, the `JoinHandle` and a failed join;
  - the `Mutex` around the duration and the relaxed `AtomicBool`.

  `Program.Session.Run` takes any interleaving of whole serialised accesses instead.
- Wall-clock pacing by `tokio::time::interval` is not modelled. A tick is an action in the interleaving.
- A `ReadTimedOut` action empties the buffer, as tokio's `read_line` currently leaves it when cancelled. Tokio documents the buffer's contents after cancellation as unspecified; other behaviour is not modelled. A partly read line lost with the cancelled read is not modelled either: a `LineRead` is a whole completed read.
- The main loop checks `done` and then starts a read. The model treats these two steps as one. So a line that arrives after the duration reaches zero is never handled. Handling it could only flip the pause flag after the countdown has ended.
- `humantime::format_duration` is a foreign library. It is the parameter `fmt` from milliseconds to text.
- Writing to stdout and reading from stdin are not modelled, and neither are their errors, `?` propagation or `exit(0)`. The output is the event log `Timer.log`, and its text is `Display.Transcript`.
- Command-line parsing with clap is not modelled. The constructors take the parsed values.
- Durations are unbounded naturals counted in milliseconds. The model does not capture:
  - `u64` overflow in `seconds + minutes * 60 + hours * 3600`;
  - nanosecond precision, which never matters because only whole seconds and 200 ms steps occur.
- Timers.Timer.Start: requires the timer to be unpaused. A paused ticker that no toggle resumes never leaves its loop. Runs with toggles are covered by `Program.Session.Run`, `Program.CompletedReplay` and `Program.CompletedRun`.
