/**
  The program as a whole: the ticker task and the main read loop sharing one
  `Timer`.

  The two tasks interleave; a run is modelled as an arbitrary sequence of
  actions, each one serialised access to the shared state: a tick of the
  ticker, a read that completed with a line, or a read that timed out.
  `Replay` gives the state a script leads to, and `Session.Run` executes a
  script on the objects and ends in exactly that state.
 */
module Program {
  import opened Countdown
  import opened Display
  import opened Input
  import opened Timers

  datatype Action =
    | TickFires              // the ticker's interval elapsed
    | LineRead(line: string) // `read_line` completed and appended `line`
    | ReadTimedOut           // the read did not complete within one step

  /** Everything the two tasks share or own: the timer's fields and the main loop's buffer. */
  datatype State = State(durMs: nat, paused: bool, log: seq<Event>, finished: bool, buf: string)

  /** The state of a freshly built timer with an empty read buffer. */
  function Initial(hours: nat, minutes: nat, seconds: nat): State
  {
    State(InitialMs(hours, minutes, seconds), false, [], false, [])
  }

  /**
    One action. A tick of the running loop either makes one pass (non-zero
    duration) or ends the loop with the final notice (zero); an ended loop
    ticks no more. The main loop takes part only while the duration is
    non-zero: a completed read goes through `AfterRead`, and a read that timed
    out leaves the buffer empty, because `read_line` moved the buffer's
    contents into the cancelled read.
   */
  function Step(s: State, a: Action): State
  {
    match a
    case TickFires =>
      if s.finished then s
      else if s.durMs == 0 then s.(log := s.log + [Finished], finished := true)
      else s.(durMs := TickDuration(s.durMs, s.paused), log := s.log + TickEvents(s.durMs, s.paused))
    case LineRead(line) =>
      if s.durMs == 0 then s
      else
        var o := AfterRead(s.buf, line);
        s.(buf := o.buf, paused := s.paused != o.toggled)
    case ReadTimedOut =>
      if s.durMs == 0 then s else s.(buf := [])
  }

  /** The state after the actions of `script`, in order. */
  function Replay(s: State, script: seq<Action>): State
    decreases |script|
  {
    if script == [] then s else Step(Replay(s, script[..|script| - 1]), script[|script| - 1])
  }

  /** The pause flag seen by each tick of `script` that found the loop running on a non-zero duration. */
  function Observed(s: State, script: seq<Action>): seq<bool>
    decreases |script|
  {
    if script == [] then []
    else
      var before := Replay(s, script[..|script| - 1]);
      Observed(s, script[..|script| - 1])
        + (if script[|script| - 1].TickFires? && !before.finished && before.durMs > 0 then [before.paused] else [])
  }

  /** How many ticks `script` holds. */
  function TickCount(script: seq<Action>): nat
    decreases |script|
  {
    if script == [] then 0
    else TickCount(script[..|script| - 1]) + (if script[|script| - 1].TickFires? then 1 else 0)
  }

  /** `n` reads of a bare toggle character. */
  function Newlines(n: nat): seq<Action>
  {
    seq(n, _ => LineRead([TOGGLE_CHAR]))
  }

  class Session {
    const timer: Timer
    /** The main loop's read buffer. */
    var buf: string

    ghost predicate Valid()
      reads this, timer
    {
      timer.Valid() && Settled(buf)
    }

    /** The shared state as a value. */
    function Snapshot(): State
      reads this, timer
    {
      State(timer.durMs, timer.paused, timer.log, timer.finished, buf)
    }

    /** `Timer::new` from the parsed arguments, and an empty read buffer. */
    constructor (hours: nat, minutes: nat, seconds: nat, lineMode: bool)
      ensures Valid() && fresh(timer)
      ensures Snapshot() == Initial(hours, minutes, seconds)
      ensures timer.lineStart == LineStart(lineMode) && timer.lineEnd == LineEnd(lineMode)
    {
      timer := new Timer(hours, minutes, seconds, lineMode);
      buf := [];
    }

    /** A read that completed: append the line and toggle on a bare toggle character. */
    method OnLine(line: string) returns (toggled: bool)
      requires Valid()
      modifies this`buf, timer`paused
      ensures Valid()
      ensures ReadOutcome(buf, toggled) == AfterRead(old(buf), line)
      ensures timer.paused == (old(timer.paused) != toggled)
    {
      buf := buf + line;
      toggled := buf == [TOGGLE_CHAR];
      if toggled {
        buf := [];
        timer.Toggle();
      }
    }

    /**
      The ticker's turn: one pass of the loop body if the loop is still
      running, followed by the final notice if that pass ended the loop.
      `ran` says whether a pass found a non-zero duration, and `p` is the
      pause flag it saw.
     */
    method TickTurn() returns (ran: bool, p: bool)
      requires Valid()
      modifies timer`durMs, timer`log, timer`finished
      ensures Valid() && p == timer.paused
      ensures ran <==> !old(timer.finished) && old(timer.durMs) > 0
      ensures ran ==> !timer.finished && timer.durMs == TickDuration(old(timer.durMs), p)
                      && timer.log == old(timer.log) + TickEvents(old(timer.durMs), p)
      ensures !ran ==> timer.finished && timer.durMs == old(timer.durMs)
                       && timer.log == old(timer.log) + (if old(timer.finished) then [] else [Finished])
    {
      p := timer.paused;
      ran := false;
      if !timer.finished {
        var stop := timer.Tick();
        if stop {
          timer.Finish();
        } else {
          ran := true;
        }
      }
    }

    /** The main loop's turn with a completed read: handled only while the countdown is not over. */
    method ReadTurn(line: string) returns (handled: bool)
      requires Valid()
      modifies this`buf, timer`paused
      ensures Valid()
      ensures handled <==> old(timer.durMs) != 0
      ensures handled ==> ReadOutcome(buf, timer.paused != old(timer.paused)) == AfterRead(old(buf), line)
      ensures !handled ==> buf == old(buf) && timer.paused == old(timer.paused)
    {
      var done := timer.Done();
      handled := !done;
      if handled {
        var _ := OnLine(line);
      }
    }

    /**
      The main loop's turn with a read that timed out. `read_line` had moved
      the buffer's contents into the read it started, and the cancelled read
      does not give them back: the buffer is left empty.
     */
    method TimeoutTurn() returns (handled: bool)
      requires Valid()
      modifies this`buf
      ensures Valid()
      ensures handled <==> timer.durMs != 0
      ensures handled ==> buf == []
      ensures !handled ==> buf == old(buf)
    {
      var done := timer.Done();
      handled := !done;
      if handled {
        buf := [];
      }
    }

    /** Runs the interleaving `script`; the state it ends in is the one `Replay` gives. */
    method Run(script: seq<Action>)
      requires Valid()
      modifies this`buf, timer`durMs, timer`paused, timer`log, timer`finished
      ensures Valid()
      ensures Snapshot() == Replay(old(Snapshot()), script)
    {
      ghost var s0 := Snapshot();
      var i := 0;
      while i < |script|
        invariant i <= |script|
        invariant Valid()
        invariant Snapshot() == Replay(s0, script[..i])
      {
        ghost var before := Snapshot();
        match script[i] {
          case TickFires =>
            var _, _ := TickTurn();
          case LineRead(line) =>
            var _ := ReadTurn(line);
          case ReadTimedOut =>
            var _ := TimeoutTurn();
        }
        assert Snapshot() == Step(before, script[i]);
        assert script[..i + 1][..i] == script[..i];
        i := i + 1;
      }
      assert script[..|script|] == script;
    }
  }

  /**
    Whatever the interleaving, the duration and the output are those of the
    ticks that found the loop running, each with the pause flag it saw,
    followed by the final notice once the loop has ended at zero.
   */
  lemma {:induction false} ReplayFollowsTicks(s: State, script: seq<Action>)
    requires s.durMs % TIMER_STEP_MS == 0 && !s.finished
    ensures Live(s.durMs, Observed(s, script))
    ensures Replay(s, script).durMs == RunTicks(s.durMs, Observed(s, script))
    ensures Replay(s, script).log
         == s.log + RunEvents(s.durMs, Observed(s, script)) + (if Replay(s, script).finished then [Finished] else [])
    ensures Replay(s, script).finished ==> Replay(s, script).durMs == 0
    decreases |script|
  {
    if script != [] {
      var init := script[..|script| - 1];
      ReplayFollowsTicks(s, init);
      var before, obs := Replay(s, init), Observed(s, init);
      var last := script[|script| - 1];
      assert Replay(s, script) == Step(before, last);
      assert Observed(s, script) == obs + (if last.TickFires? && !before.finished && before.durMs > 0 then [before.paused] else []);
      if last.TickFires? && !before.finished && before.durMs > 0 {
        RunTicksSnoc(s.durMs, obs, before.paused);
        RunEventsSnoc(s.durMs, obs, before.paused);
        LiveSnoc(s.durMs, obs, before.paused);
      } else {
        assert Observed(s, script) == obs;
      }
    }
  }

  /**
    Any interleaving that ends the loop printed every whole second from the
    start down to one, then the final notice, and exactly one unpaused tick
    per step of the duration found the loop running.
   */
  lemma {:induction false} CompletedReplay(s: State, script: seq<Action>)
    requires s.durMs % TIMER_STEP_MS == 0 && !s.finished && Replay(s, script).finished
    ensures Replay(s, script).log == s.log + WholeSeconds(s.durMs / MS_PER_SECOND) + [Finished]
    ensures CountUnpaused(Observed(s, script)) == s.durMs / TIMER_STEP_MS
  {
    var obs := Observed(s, script);
    ReplayFollowsTicks(s, script);
    CompletionTicks(s.durMs, obs);
    PausedTicksDoNotCount(s.durMs, obs);
    CountdownUpdates(s.durMs, CountUnpaused(obs));
  }

  /**
    A timer built from `hours`, `minutes` and `seconds` whose loop has ended
    has printed every whole second from the start down to one, then `done`;
    five of its ticks per second found it running, however the pauses fell.
   */
  lemma {:induction false} CompletedRun(hours: nat, minutes: nat, seconds: nat, script: seq<Action>)
    requires Replay(Initial(hours, minutes, seconds), script).finished
    ensures Replay(Initial(hours, minutes, seconds), script).log
         == WholeSeconds(seconds + 60 * minutes + 3600 * hours) + [Finished]
    ensures CountUnpaused(Observed(Initial(hours, minutes, seconds), script)) == 5 * (seconds + 60 * minutes + 3600 * hours)
  {
    var s := Initial(hours, minutes, seconds);
    CompletedReplay(s, script);
    SecondsAreWholeSteps(seconds + 60 * minutes + 3600 * hours);
  }

  /** The text a timer whose loop has ended has written: the update lines, then `done` on its own line. */
  lemma {:induction false} CompletedRunText(hours: nat, minutes: nat, seconds: nat, script: seq<Action>,
                                            lineMode: bool, fmt: nat -> string)
    requires Replay(Initial(hours, minutes, seconds), script).finished
    ensures Transcript(Replay(Initial(hours, minutes, seconds), script).log, LineStart(lineMode), LineEnd(lineMode), fmt)
         == Transcript(WholeSeconds(seconds + 60 * minutes + 3600 * hours), LineStart(lineMode), LineEnd(lineMode), fmt)
            + LineStart(lineMode) + "done\n"
  {
    CompletedRun(hours, minutes, seconds, script);
    FinishedLast(WholeSeconds(seconds + 60 * minutes + 3600 * hours), LineStart(lineMode), LineEnd(lineMode), fmt);
  }

  /** Without reads, the pause flag stays, every tick sees it, and a running loop has counted every tick. */
  lemma {:induction false} NoReadsKeepPause(s: State, script: seq<Action>)
    requires !s.finished
    requires forall i :: 0 <= i < |script| ==> !script[i].LineRead?
    ensures Replay(s, script).paused == s.paused
    ensures forall i :: 0 <= i < |Observed(s, script)| ==> Observed(s, script)[i] == s.paused
    ensures !Replay(s, script).finished ==> |Observed(s, script)| == TickCount(script)
    decreases |script|
  {
    if script != [] {
      var init := script[..|script| - 1];
      assert forall i :: 0 <= i < |init| ==> init[i] == script[i];
      NoReadsKeepPause(s, init);
    }
  }

  /** Ticks that all found the timer running count one each. */
  lemma {:induction false} AllRunningCount(pauses: seq<bool>)
    requires forall i :: 0 <= i < |pauses| ==> !pauses[i]
    ensures CountUnpaused(pauses) == |pauses|
  {
    if pauses != [] {
      AllRunningCount(pauses[1..]);
    }
  }

  /**
    With no input at all, an unpaused timer whose ticker ticks more than once
    per step of its duration ends its loop, having printed every whole second
    down to one and then `done`, whatever the timeouts in between.
   */
  lemma {:induction false} UnattendedRun(s: State, script: seq<Action>)
    requires s.durMs % TIMER_STEP_MS == 0 && !s.finished && !s.paused
    requires forall i :: 0 <= i < |script| ==> !script[i].LineRead?
    requires TickCount(script) > s.durMs / TIMER_STEP_MS
    ensures Replay(s, script).finished
    ensures Replay(s, script).log == s.log + WholeSeconds(s.durMs / MS_PER_SECOND) + [Finished]
  {
    var obs := Observed(s, script);
    NoReadsKeepPause(s, script);
    if !Replay(s, script).finished {
      ReplayFollowsTicks(s, script);
      AllRunningCount(obs);
      LiveTicksBounded(s.durMs, obs);
      assert false;
    }
    CompletedReplay(s, script);
  }

  /**
    Once a completed read has left stray characters in the buffer, no run of
    further completed reads and ticks changes the pause flag, as long as no
    read times out; the buffer only grows.
   */
  lemma {:induction false} StrayInputBlocksToggles(s: State, script: seq<Action>)
    requires Poisoned(s.buf)
    requires forall i :: 0 <= i < |script| ==> !script[i].ReadTimedOut?
    ensures Replay(s, script).paused == s.paused
    ensures Poisoned(Replay(s, script).buf) && s.buf <= Replay(s, script).buf
    decreases |script|
  {
    if script != [] {
      var init := script[..|script| - 1];
      assert forall i :: 0 <= i < |init| ==> init[i] == script[i];
      StrayInputBlocksToggles(s, init);
      var before := Replay(s, init);
      match script[|script| - 1]
      case LineRead(line) =>
        PoisonedReadStays(before.buf, line);
      case TickFires =>
      case ReadTimedOut =>
    }
  }

  /** A timeout while the countdown runs clears stray input: the next bare toggle character toggles again. */
  lemma {:induction false} TimeoutRecovers(s: State)
    requires s.durMs > 0
    ensures Replay(s, [ReadTimedOut, LineRead([TOGGLE_CHAR])]).paused == !s.paused
    ensures Replay(s, [ReadTimedOut, LineRead([TOGGLE_CHAR])]).buf == []
  {
    var script := [ReadTimedOut, LineRead([TOGGLE_CHAR])];
    assert script[..1] == [ReadTimedOut];
    assert script[..1][..0] == [];
    assert Replay(s, script[..1]) == s.(buf := []);
    assert Replay(s, script) == Step(s.(buf := []), LineRead([TOGGLE_CHAR]));
  }

  /** From an empty buffer, while the countdown runs, each bare toggle character toggles once. */
  lemma {:induction false} EveryBareNewlineToggles(s: State, n: nat)
    requires s.durMs > 0 && s.buf == []
    ensures Replay(s, Newlines(n)) == s.(paused := Toggled(s.paused, n))
  {
    if n > 0 {
      assert Newlines(n)[..n - 1] == Newlines(n - 1);
      EveryBareNewlineToggles(s, n - 1);
    }
  }
}
