/**
  The text the ticker writes for each event.

  The human-readable rendering of a duration comes from an external library;
  here it is a parameter `fmt` from milliseconds to text.
 */
module Display {
  import opened Countdown

  /** Prefix of every line: a carriage return in line mode, nothing otherwise. */
  function LineStart(lineMode: bool): string
  {
    if lineMode then "\r" else ""
  }

  /** Suffix of every update: nothing in line mode, a newline otherwise. */
  function LineEnd(lineMode: bool): string
  {
    if lineMode then "" else "\n"
  }

  /** A run of `n` spaces. */
  function Spaces(n: nat): (r: string)
    ensures |r| == n && forall i :: 0 <= i < n ==> r[i] == ' '
  {
    if n == 0 then "" else " " + Spaces(n - 1)
  }

  /** Right alignment of `s` in a field of `width` characters (the `:>width` format spec). */
  function PadLeft(s: string, width: nat): (r: string)
    ensures |r| == if |s| < width then width else |s|
    ensures r[|r| - |s|..] == s
    ensures forall i :: 0 <= i < |r| - |s| ==> r[i] == ' '
  {
    if |s| < width then Spaces(width - |s|) + s else s
  }

  /** The text of one event, given the timer's line prefix and suffix. */
  function Render(e: Event, lineStart: string, lineEnd: string, fmt: nat -> string): string
  {
    match e
    case Update(ms) => lineStart + fmt(ms) + PadLeft(lineEnd, 3)
    case Finished => lineStart + "done" + "\n"
  }

  /** Everything written for the events of `log`, in order. */
  function Transcript(log: seq<Event>, lineStart: string, lineEnd: string, fmt: nat -> string): string
  {
    if log == [] then "" else Render(log[0], lineStart, lineEnd, fmt) + Transcript(log[1..], lineStart, lineEnd, fmt)
  }

  /**
    In line mode an update returns to the start of the line and leaves three
    spaces after the time; otherwise it is followed by two spaces and a
    newline. The final notice is "done" on its own line in either mode.
   */
  lemma {:induction false} RenderByMode(lineMode: bool, ms: nat, fmt: nat -> string)
    ensures lineMode ==> Render(Update(ms), LineStart(lineMode), LineEnd(lineMode), fmt) == "\r" + fmt(ms) + "   "
    ensures !lineMode ==> Render(Update(ms), LineStart(lineMode), LineEnd(lineMode), fmt) == fmt(ms) + "  \n"
    ensures lineMode ==> Render(Finished, LineStart(lineMode), LineEnd(lineMode), fmt) == "\rdone\n"
    ensures !lineMode ==> Render(Finished, LineStart(lineMode), LineEnd(lineMode), fmt) == "done\n"
  {
    assert Spaces(2) == "  ";
    assert Spaces(3) == "   ";
  }

  /** The transcript of two logs one after the other is the two transcripts one after the other. */
  lemma {:induction false} TranscriptAppend(a: seq<Event>, b: seq<Event>, lineStart: string, lineEnd: string, fmt: nat -> string)
    ensures Transcript(a + b, lineStart, lineEnd, fmt)
         == Transcript(a, lineStart, lineEnd, fmt) + Transcript(b, lineStart, lineEnd, fmt)
  {
    if a == [] {
      assert a + b == b;
    } else {
      assert (a + b)[1..] == a[1..] + b;
      TranscriptAppend(a[1..], b, lineStart, lineEnd, fmt);
    }
  }

  /** Whatever was written before it, the final notice ends the text: `done` on a line of its own. */
  lemma {:induction false} FinishedLast(log: seq<Event>, lineStart: string, lineEnd: string, fmt: nat -> string)
    ensures Transcript(log + [Finished], lineStart, lineEnd, fmt)
         == Transcript(log, lineStart, lineEnd, fmt) + lineStart + "done\n"
  {
    TranscriptAppend(log, [Finished], lineStart, lineEnd, fmt);
    assert Transcript([Finished], lineStart, lineEnd, fmt) == lineStart + "done" + "\n" + "";
  }
}
