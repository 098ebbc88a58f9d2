/**
  The arithmetic of the countdown ticker, as pure functions.

  A `std::time::Duration` is modelled by the number of milliseconds it holds.
  Every duration the ticker ever sees starts as a whole number of seconds and
  only loses `TIMER_STEP_MS` at a time, so it is always a multiple of the step
  and `subsec_millis` is the remainder modulo one second.
 */
module Countdown {

  /** Length of one ticker step, in milliseconds. */
  const TIMER_STEP_MS: nat := 200
  const MS_PER_SECOND: nat := 1000

  /** What the ticker writes to standard output. */
  datatype Event =
    | Update(remainingMs: nat)  // the remaining time, printed on a whole second
    | Finished                  // the final "done" notice

  /** Initial duration built by `Timer::new` from its three arguments. */
  function InitialMs(hours: nat, minutes: nat, seconds: nat): (ms: nat)
    ensures ms % MS_PER_SECOND == 0
    ensures ms / MS_PER_SECOND == seconds + 60 * minutes + 3600 * hours
    ensures ms % TIMER_STEP_MS == 0
  {
    var total := seconds + minutes * 60 + hours * 3600;
    WholeSecondsDivide(total);
    SecondsAreWholeSteps(total);
    MS_PER_SECOND * total
  }

  /** A whole number of seconds divides evenly into seconds. */
  lemma {:induction false} WholeSecondsDivide(n: nat)
    ensures (MS_PER_SECOND * n) % MS_PER_SECOND == 0 && (MS_PER_SECOND * n) / MS_PER_SECOND == n
  {
  }

  /** A whole number of seconds is five steps per second. */
  lemma {:induction false} SecondsAreWholeSteps(n: nat)
    ensures (MS_PER_SECOND * n) % TIMER_STEP_MS == 0 && (MS_PER_SECOND * n) / TIMER_STEP_MS == 5 * n
  {
    assert MS_PER_SECOND * n == TIMER_STEP_MS * (5 * n);
  }

  /** A duration used up by whole steps holds that many steps. */
  lemma {:induction false} StepsToZero(d: nat, steps: nat)
    requires d == TIMER_STEP_MS * steps
    ensures d / TIMER_STEP_MS == steps
  {
  }

  /** `Duration::subsec_millis`. */
  function SubsecMillis(d: nat): nat
  {
    d % MS_PER_SECOND
  }

  /** `Duration::saturating_sub`. */
  function SaturatingSub(d: nat, step: nat): (r: nat)
    ensures r <= d
    ensures d >= step ==> r + step == d
    ensures d < step ==> r == 0
  {
    if d >= step then d - step else 0
  }

  /** The duration after one pass of the ticker loop body that started on `d`. */
  function TickDuration(d: nat, paused: bool): (r: nat)
    ensures paused || d == 0 ==> r == d
    ensures !paused && d > 0 ==> r < d && r == SaturatingSub(d, TIMER_STEP_MS)
    ensures d % TIMER_STEP_MS == 0 ==> r % TIMER_STEP_MS == 0
  {
    if d == 0 || paused then d else SaturatingSub(d, TIMER_STEP_MS)
  }

  /** What one pass of the ticker loop body that started on `d` prints. */
  function TickEvents(d: nat, paused: bool): (r: seq<Event>)
    ensures |r| <= 1
    ensures r != [] <==> !paused && d > 0 && SubsecMillis(d) == 0
    ensures forall e | e in r :: e == Update(d) && d > 0
  {
    if d > 0 && !paused && SubsecMillis(d) == 0 then [Update(d)] else []
  }

  /** The duration after `k` unpaused ticks. */
  function AfterTicks(d: nat, k: nat): nat
    decreases k
  {
    if k == 0 || d == 0 then d else AfterTicks(TickDuration(d, false), k - 1)
  }

  /** What `k` unpaused ticks print. */
  function EventsOfTicks(d: nat, k: nat): seq<Event>
    decreases k
  {
    if k == 0 || d == 0 then [] else TickEvents(d, false) + EventsOfTicks(TickDuration(d, false), k - 1)
  }

  /** The updates for `n`, `n - 1`, ..., `1` whole seconds, in that order. */
  function WholeSeconds(n: nat): seq<Event>
  {
    if n == 0 then [] else [Update(MS_PER_SECOND * n)] + WholeSeconds(n - 1)
  }

  /** `k` unpaused ticks subtract `k` steps, saturating at zero. */
  lemma {:induction false} AfterTicksSaturates(d: nat, k: nat)
    ensures AfterTicks(d, k) == SaturatingSub(d, TIMER_STEP_MS * k)
  {
    if k > 0 && d > 0 {
      AfterTicksSaturates(TickDuration(d, false), k - 1);
    }
  }

  /** While the duration is non-zero, every further unpaused tick lowers it. */
  lemma {:induction false} AfterTicksStrictlyDecreasing(d: nat, k: nat)
    requires AfterTicks(d, k) > 0
    ensures AfterTicks(d, k + 1) < AfterTicks(d, k)
  {
    AfterTicksSaturates(d, k);
    AfterTicksSaturates(d, k + 1);
  }

  /** A countdown from `seconds` whole seconds is over after exactly `5 * seconds` unpaused ticks. */
  lemma {:induction false} FinishesAfterExactly(seconds: nat, k: nat)
    ensures AfterTicks(MS_PER_SECOND * seconds, k) == 0 <==> k >= 5 * seconds
  {
    AfterTicksSaturates(MS_PER_SECOND * seconds, k);
  }

  /** `WholeSeconds(n)` holds `n` updates, counting down from `n` seconds to one. */
  lemma {:induction false} WholeSecondsDescending(n: nat)
    ensures |WholeSeconds(n)| == n
    ensures forall i :: 0 <= i < n ==> WholeSeconds(n)[i] == Update(MS_PER_SECOND * (n - i))
  {
    if n > 0 {
      WholeSecondsDescending(n - 1);
    }
  }

  /** How one step moves a multiple of the step relative to whole seconds. */
  lemma {:induction false} StepAcrossSecond(d: nat)
    requires d > 0 && d % TIMER_STEP_MS == 0
    ensures d >= TIMER_STEP_MS
    ensures d % MS_PER_SECOND == 0 ==> (d - TIMER_STEP_MS) / MS_PER_SECOND == d / MS_PER_SECOND - 1 && d / MS_PER_SECOND > 0
    ensures d % MS_PER_SECOND != 0 ==> (d - TIMER_STEP_MS) / MS_PER_SECOND == d / MS_PER_SECOND
  {
    var m := d / TIMER_STEP_MS;
    assert d == MS_PER_SECOND * (m / 5) + TIMER_STEP_MS * (m % 5);
  }

  /** One unpaused tick from a non-zero multiple of the step prints the head of the remaining whole seconds. */
  lemma {:induction false} WholeSecondStep(d: nat)
    requires d > 0 && d % TIMER_STEP_MS == 0
    ensures TickEvents(d, false) + WholeSeconds(TickDuration(d, false) / MS_PER_SECOND)
         == WholeSeconds(d / MS_PER_SECOND)
  {
    StepAcrossSecond(d);
    var q := d / MS_PER_SECOND;
    assert TickDuration(d, false) == d - TIMER_STEP_MS;
    if d % MS_PER_SECOND == 0 {
      assert TickEvents(d, false) == [Update(d)];
      assert (d - TIMER_STEP_MS) / MS_PER_SECOND == q - 1;
      assert MS_PER_SECOND * q == d;
      assert WholeSeconds(q) == [Update(d)] + WholeSeconds(q - 1);
    } else {
      assert TickEvents(d, false) == [];
      assert (d - TIMER_STEP_MS) / MS_PER_SECOND == q;
    }
  }

  /**
    What is still to be printed shrinks by exactly what one unpaused tick
    prints: output so far followed by the remaining whole seconds is the same
    before and after the tick.
   */
  lemma {:induction false} TickKeepsPending(before: nat, printed: seq<Event>)
    requires before > 0 && before % TIMER_STEP_MS == 0
    ensures printed + TickEvents(before, false) + WholeSeconds(TickDuration(before, false) / MS_PER_SECOND)
         == printed + WholeSeconds(before / MS_PER_SECOND)
  {
    WholeSecondStep(before);
    assert printed + TickEvents(before, false) + WholeSeconds(TickDuration(before, false) / MS_PER_SECOND)
        == printed + (TickEvents(before, false) + WholeSeconds(TickDuration(before, false) / MS_PER_SECOND));
  }

  /** Ticking a multiple of the step down to zero prints every whole second from the start down to one, and nothing else. */
  lemma {:induction false} CountdownUpdates(d: nat, k: nat)
    requires d % TIMER_STEP_MS == 0 && k >= d / TIMER_STEP_MS
    ensures AfterTicks(d, k) == 0
    ensures EventsOfTicks(d, k) == WholeSeconds(d / MS_PER_SECOND)
  {
    if d > 0 {
      WholeSecondStep(d);
      CountdownUpdates(TickDuration(d, false), k - 1);
    }
  }

  /** Number of ticks in `pauses` that find the timer running. */
  function CountUnpaused(pauses: seq<bool>): nat
  {
    if pauses == [] then 0 else (if pauses[0] then 0 else 1) + CountUnpaused(pauses[1..])
  }

  /** The duration after ticks that observe the pause flags `pauses`, in order. */
  function RunTicks(d: nat, pauses: seq<bool>): nat
  {
    if pauses == [] then d else RunTicks(TickDuration(d, pauses[0]), pauses[1..])
  }

  /** What ticks that observe the pause flags `pauses` print. */
  function RunEvents(d: nat, pauses: seq<bool>): seq<Event>
  {
    if pauses == [] then [] else TickEvents(d, pauses[0]) + RunEvents(TickDuration(d, pauses[0]), pauses[1..])
  }

  /** Every tick in `pauses` found the duration non-zero (the loop had not yet ended). */
  predicate Live(d: nat, pauses: seq<bool>)
  {
    pauses == [] || (d > 0 && Live(TickDuration(d, pauses[0]), pauses[1..]))
  }

  /** Paused ticks neither consume countdown nor print: only the unpaused ones count. */
  lemma {:induction false} PausedTicksDoNotCount(d: nat, pauses: seq<bool>)
    ensures RunTicks(d, pauses) == AfterTicks(d, CountUnpaused(pauses))
    ensures RunEvents(d, pauses) == EventsOfTicks(d, CountUnpaused(pauses))
  {
    if pauses != [] {
      PausedTicksDoNotCount(TickDuration(d, pauses[0]), pauses[1..]);
    }
  }

  /** Any number of paused ticks leaves the duration as it was and prints nothing. */
  lemma {:induction false} PausedTicksFreeze(d: nat, pauses: seq<bool>)
    requires forall i :: 0 <= i < |pauses| ==> pauses[i]
    ensures RunTicks(d, pauses) == d
    ensures RunEvents(d, pauses) == []
  {
    if pauses != [] {
      PausedTicksFreeze(d, pauses[1..]);
    }
  }

  /** Appending one tick to a run: the duration. */
  lemma {:induction false} RunTicksSnoc(d: nat, pauses: seq<bool>, p: bool)
    ensures RunTicks(d, pauses + [p]) == TickDuration(RunTicks(d, pauses), p)
  {
    if pauses == [] {
      assert pauses + [p] == [p];
    } else {
      assert (pauses + [p])[1..] == pauses[1..] + [p];
      RunTicksSnoc(TickDuration(d, pauses[0]), pauses[1..], p);
    }
  }

  /** Appending one tick to a run: the output. */
  lemma {:induction false} RunEventsSnoc(d: nat, pauses: seq<bool>, p: bool)
    ensures RunEvents(d, pauses + [p]) == RunEvents(d, pauses) + TickEvents(RunTicks(d, pauses), p)
  {
    if pauses == [] {
      assert pauses + [p] == [p];
    } else {
      assert (pauses + [p])[1..] == pauses[1..] + [p];
      RunEventsSnoc(TickDuration(d, pauses[0]), pauses[1..], p);
    }
  }

  /** Appending one tick that finds the loop running to a run whose ticks all did. */
  lemma {:induction false} LiveSnoc(d: nat, pauses: seq<bool>, p: bool)
    requires Live(d, pauses) && RunTicks(d, pauses) > 0
    ensures Live(d, pauses + [p])
  {
    if pauses == [] {
      assert pauses + [p] == [p];
    } else {
      assert (pauses + [p])[1..] == pauses[1..] + [p];
      LiveSnoc(TickDuration(d, pauses[0]), pauses[1..], p);
    }
  }

  /** Ticks that all found the loop running never take more than the duration's worth of steps. */
  lemma {:induction false} LiveTicksBounded(d: nat, pauses: seq<bool>)
    requires d % TIMER_STEP_MS == 0 && Live(d, pauses)
    ensures TIMER_STEP_MS * CountUnpaused(pauses) <= d
  {
    if pauses != [] {
      LiveTicksBounded(TickDuration(d, pauses[0]), pauses[1..]);
    }
  }

  /**
    However pauses are interleaved, a run whose ticks all found the loop
    running reaches zero after exactly `d / TIMER_STEP_MS` unpaused ticks.
   */
  lemma {:induction false} CompletionTicks(d: nat, pauses: seq<bool>)
    requires d % TIMER_STEP_MS == 0 && Live(d, pauses) && RunTicks(d, pauses) == 0
    ensures CountUnpaused(pauses) == d / TIMER_STEP_MS
  {
    LiveTicksBounded(d, pauses);
    PausedTicksDoNotCount(d, pauses);
    AfterTicksSaturates(d, CountUnpaused(pauses));
  }
}
