/**
  Toggle detection in the main read loop.

  Each completed `read_line` appends what it read to one buffer; the timer is
  toggled, and the buffer emptied, only when the buffer is then exactly the
  toggle character. Between two completed reads the buffer can also be
  emptied by a read that timed out; `Feed` and `Toggles` describe reads that
  complete one after another, and the timeouts are part of `Program.Step`.
 */
module Input {

  /** The character that pauses and resumes the countdown. */
  const TOGGLE_CHAR: char := '\n'

  /** The buffer after one completed read, and whether it toggled the timer. */
  datatype ReadOutcome = ReadOutcome(buf: string, toggled: bool)

  /** One completed read of `line` into `buf`. */
  function AfterRead(buf: string, line: string): (r: ReadOutcome)
    ensures r.toggled ==> r.buf == []
    ensures !r.toggled ==> r.buf == buf + line && buf <= r.buf
  {
    var appended := buf + line;
    if appended == [TOGGLE_CHAR] then ReadOutcome([], true) else ReadOutcome(appended, false)
  }

  /** The buffer between reads: it is never the bare toggle character, which is cleared at once. */
  predicate Settled(buf: string)
  {
    buf != [TOGGLE_CHAR]
  }

  /** A buffer that no later completed read can bring back to the bare toggle character. */
  predicate Poisoned(buf: string)
  {
    buf != [] && buf != [TOGGLE_CHAR]
  }

  /** The buffer after the reads `lines`, in order. */
  function Feed(buf: string, lines: seq<string>): string
    decreases |lines|
  {
    if lines == [] then buf else Feed(AfterRead(buf, lines[0]).buf, lines[1..])
  }

  /** How many of the reads `lines` toggle the timer. */
  function Toggles(buf: string, lines: seq<string>): nat
    decreases |lines|
  {
    if lines == [] then 0
    else (if AfterRead(buf, lines[0]).toggled then 1 else 0) + Toggles(AfterRead(buf, lines[0]).buf, lines[1..])
  }

  /** Every read leaves a settled buffer. */
  lemma {:induction false} ReadSettles(buf: string, line: string)
    ensures Settled(AfterRead(buf, line).buf)
  {
  }

  /**
    From a settled buffer, a read toggles exactly when the buffer is empty and
    the line read is the bare toggle character.
   */
  lemma {:induction false} ToggleOnlyOnBareNewline(buf: string, line: string)
    requires Settled(buf)
    ensures AfterRead(buf, line).toggled <==> buf == [] && line == [TOGGLE_CHAR]
  {
    if AfterRead(buf, line).toggled {
      assert |buf| + |line| == 1;
    }
  }

  /** A read that does not toggle and reads something leaves the buffer poisoned. */
  lemma {:induction false} NonMatchingLinePoisons(buf: string, line: string)
    requires Settled(buf)
    requires !AfterRead(buf, line).toggled && buf + line != []
    ensures Poisoned(AfterRead(buf, line).buf)
  {
  }

  /** Once poisoned, the buffer only grows and no later read toggles. */
  lemma {:induction false} PoisonedNeverToggles(buf: string, lines: seq<string>)
    requires Poisoned(buf)
    ensures Toggles(buf, lines) == 0
    ensures Poisoned(Feed(buf, lines)) && buf <= Feed(buf, lines)
    decreases |lines|
  {
    if lines != [] {
      var next := AfterRead(buf, lines[0]);
      assert next.buf[..|buf|] == buf;
      PoisonedNeverToggles(next.buf, lines[1..]);
    }
  }

  /** From an empty buffer, reads of the bare toggle character toggle every time. */
  lemma {:induction false} BareNewlinesAlwaysToggle(lines: seq<string>)
    requires forall i :: 0 <= i < |lines| ==> lines[i] == [TOGGLE_CHAR]
    ensures Toggles([], lines) == |lines|
    ensures Feed([], lines) == []
  {
    if lines != [] {
      BareNewlinesAlwaysToggle(lines[1..]);
    }
  }

  /** A read into a poisoned buffer never toggles, and the buffer stays poisoned and only grows. */
  lemma {:induction false} PoisonedReadStays(buf: string, line: string)
    requires Poisoned(buf)
    ensures !AfterRead(buf, line).toggled
    ensures Poisoned(AfterRead(buf, line).buf) && buf <= AfterRead(buf, line).buf
  {
    assert |buf + line| == |buf| + |line|;
    assert (buf + line)[..|buf|] == buf;
  }
}
