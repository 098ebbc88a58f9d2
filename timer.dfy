/**
  The `Timer` object: the shared remaining duration, the pause flag, the line
  prefix and suffix, and what the ticker has written so far.

  The lock around the duration and the atomic pause flag only serialise
  access; each method below is one such serialised access.
 */
module Timers {
  import opened Countdown
  import opened Display

  /** The pause flag after `n` toggles starting from `p`. */
  function Toggled(p: bool, n: nat): bool
  {
    if n == 0 then p else !Toggled(p, n - 1)
  }

  /** An even number of toggles restores the pause flag and an odd number flips it. */
  lemma {:induction false} ToggleParity(p: bool, n: nat)
    ensures Toggled(p, n) == (if n % 2 == 0 then p else !p)
  {
    if n > 0 {
      ToggleParity(p, n - 1);
    }
  }

  class Timer {
    /** Remaining duration, in milliseconds. */
    var durMs: nat
    var paused: bool
    const lineStart: string
    const lineEnd: string
    /** What the ticker has written to standard output, in order. */
    var log: seq<Event>
    /** The ticker loop has ended and written its final notice. */
    var finished: bool

    /**
      The duration is a whole number of steps; the final notice is written
      once, last, and only once the loop has ended; every update is for a
      non-zero whole number of seconds.
     */
    ghost predicate Valid()
      reads this
    {
      && durMs % TIMER_STEP_MS == 0
      && (finished ==> durMs == 0)
      && (forall i :: 0 <= i < |log| ==> (log[i].Finished? <==> finished && i == |log| - 1))
      && (forall i :: 0 <= i < |log| && log[i].Update? ==>
            log[i].remainingMs > 0 && SubsecMillis(log[i].remainingMs) == 0)
    }

    constructor (hours: nat, minutes: nat, seconds: nat, lineMode: bool)
      ensures Valid()
      ensures durMs == InitialMs(hours, minutes, seconds) && !paused
      ensures lineStart == LineStart(lineMode) && lineEnd == LineEnd(lineMode)
      ensures log == [] && !finished
    {
      durMs := InitialMs(hours, minutes, seconds);
      paused := false;
      lineStart := LineStart(lineMode);
      lineEnd := LineEnd(lineMode);
      log := [];
      finished := false;
    }

    /**
      One pass of the ticker loop body. On a zero duration it reports that the
      loop ends and changes nothing; otherwise, unless paused, it prints the
      duration when it is a whole number of seconds and then takes one step off.
     */
    method Tick() returns (stop: bool)
      requires Valid() && !finished
      modifies this`durMs, this`log
      ensures Valid()
      ensures stop <==> old(durMs) == 0
      ensures durMs == TickDuration(old(durMs), paused)
      ensures log == old(log) + TickEvents(old(durMs), paused)
    {
      if durMs == 0 {
        return true;
      }
      stop := false;
      if !paused {
        ghost var before := durMs;
        if SubsecMillis(durMs) == 0 {
          log := log + [Update(durMs)];
        }
        durMs := SaturatingSub(durMs, TIMER_STEP_MS);
        assert durMs == TickDuration(before, false);
      }
    }

    /** The final notice, written once the loop has ended. */
    method Finish()
      requires Valid() && !finished && durMs == 0
      modifies this`log, this`finished
      ensures Valid() && finished
      ensures log == old(log) + [Finished]
    {
      log := log + [Finished];
      finished := true;
    }

    /**
      The whole ticker loop, when nothing toggles the timer meanwhile: it
      prints every whole second from the start down to one, then the final
      notice, after one unpaused step per `TIMER_STEP_MS` of the duration.
      (A paused timer that nobody resumes never leaves the loop.)
     */
    method Start() returns (steps: nat)
      requires Valid() && !finished && !paused
      modifies this`durMs, this`log, this`finished
      ensures Valid() && finished && durMs == 0
      ensures log == old(log) + WholeSeconds(old(durMs) / MS_PER_SECOND) + [Finished]
      ensures steps == old(durMs) / TIMER_STEP_MS
    {
      ghost var pending := log + WholeSeconds(durMs / MS_PER_SECOND);
      steps := 0;
      var stop := false;
      while !stop
        invariant Valid() && !finished
        invariant stop ==> durMs == 0
        invariant durMs + TIMER_STEP_MS * steps == old(durMs)
        invariant log + WholeSeconds(durMs / MS_PER_SECOND) == pending
        decreases durMs + (if stop then 0 else 1)
      {
        ghost var before, printed := durMs, log;
        stop := Tick();
        if !stop {
          TickKeepsPending(before, printed);
          steps := steps + 1;
        }
      }
      assert log == pending by {
        assert WholeSeconds(durMs / MS_PER_SECOND) == [];
      }
      StepsToZero(old(durMs), steps);
      Finish();
    }

    /** Flips the pause flag. */
    method Toggle()
      modifies this`paused
      ensures paused == !old(paused)
    {
      paused := !paused;
    }

    /** Whether the countdown is over; while it is not, at least one step remains. */
    method Done() returns (done: bool)
      requires Valid()
      ensures done <==> durMs == 0
      ensures !done ==> durMs >= TIMER_STEP_MS
    {
      done := durMs == 0;
    }
  }
}
