/** Line reassembly: a locked buffer that hands out one line per critical section. */
module LogParser {
  import opened LineSplit
  import opened Prelude
  import opened Sequences

  /**
   * The line handler as the lock sees it: given every line handed out so far, the
   * current one last, does it return without an error?
   */
  type Verdict = seq<Line> -> bool

  /** What the mutex protects: the buffer, and the lines handed to the handler so far. */
  datatype Memory = Memory(buf: seq<Byte>, handed: seq<Line>)

  datatype Outcome = Finished | Continue | Failed

  /** One critical section: write the data, then hand out at most one line. */
  function Section(m: Memory, data: seq<Byte>, verdict: Verdict): (Memory, Outcome) {
    var buf := m.buf + data;
    if HasNewline(buf) then
      var end := FirstNewline(buf) + 1;
      var handed := m.handed + [buf[..end]];
      (Memory(buf[end..], handed), if verdict(handed) then Continue else Failed)
    else
      (Memory(buf, m.handed), Finished)
  }

  /** How many of the lines `ls` the handler accepts before the first error, after `handed`. */
  function Accepted(handed: seq<Line>, ls: seq<Line>, verdict: Verdict): (n: nat)
    ensures n <= |ls|
    decreases |ls|
  {
    if ls == [] || !verdict(handed + [ls[0]]) then 0
    else 1 + Accepted(handed + [ls[0]], ls[1..], verdict)
  }

  /** An undisturbed call hands out every complete line, or all up to the first the handler rejects. */
  function Call(m: Memory, data: seq<Byte>, verdict: Verdict): (Memory, bool) {
    var s := m.buf + data;
    var n := Accepted(m.handed, Lines(s), verdict);
    if n == |Lines(s)| then (Memory(Rest(s), m.handed + Lines(s)), true)
    else (Memory(Flatten(Lines(s)[n + 1..]) + Rest(s), m.handed + Lines(s)[..n + 1]), false)
  }

  class BaseLogParser {
    var buf: seq<Byte>
    var handed: seq<Line>
    const verdict: Verdict

    constructor (verdict: Verdict)
      ensures buf == [] && handed == [] && this.verdict == verdict
    {
      buf, handed, this.verdict := [], [], verdict;
    }

    function Contents(): Memory
      reads this
    {
      Memory(buf, handed)
    }

    /** The code between Lock and Unlock. */
    method CriticalSection(data: Option<seq<Byte>>) returns (outcome: Outcome)
      modifies this
      ensures (Contents(), outcome) == Section(old(Contents()), if data.Some? then data.value else [], verdict)
    {
      if data.Some? {
        buf := buf + data.value;
      } else {
        assert buf + [] == buf;
      }
      var consumedData := false;
      if HasNewline(buf) {
        var end := FirstNewline(buf) + 1;
        handed, buf := handed + [buf[..end]], buf[end..];
        consumedData := true;
        if !verdict(handed) {
          return Failed;
        }
      }
      return if consumedData then Continue else Finished;
    }

    /** A call with no other call in between. */
    method HandleData(data: Option<seq<Byte>>) returns (ok: bool)
      modifies this
      ensures (Contents(), ok) == Call(old(Contents()), if data.Some? then data.value else [], verdict)
      decreases Newlines(buf) + if data.Some? then Newlines(data.value) else 0
    {
      ghost var bytes := if data.Some? then data.value else [];
      CallBySections(Contents(), bytes, verdict);
      SectionWork(Contents(), bytes, verdict);
      var outcome := CriticalSection(data);
      if outcome.Failed? {
        return false;
      }
      if outcome.Continue? {
        ok := HandleData(None);
        return;
      }
      return true;
    }
  }

  /** The closed form of a call agrees with its critical sections, one after the other. */
  lemma CallBySections(m: Memory, data: seq<Byte>, verdict: Verdict)
    ensures var (m', o) := Section(m, data, verdict);
            Call(m, data, verdict) == match o
              case Finished => (m', true)
              case Failed => (m', false)
              case Continue => Call(m', [], verdict)
  {
    var s := m.buf + data;
    if HasNewline(s) {
      CallCutsLine(m, data, verdict);
    } else {
      assert m.handed + [] == m.handed;
    }
  }

  lemma CallCutsLine(m: Memory, data: seq<Byte>, verdict: Verdict)
    requires HasNewline(m.buf + data)
    ensures var s := m.buf + data;
            var m' := Section(m, data, verdict).0;
            Call(m, data, verdict) == if verdict(m'.handed) then Call(m', [], verdict) else (m', false)
  {
    var s := m.buf + data;
    var line, tail := s[..FirstNewline(s) + 1], s[FirstNewline(s) + 1..];
    var handed := m.handed + [line];
    AppendNothing(tail);
    TakeAppend([line], Lines(tail));
    if verdict(handed) {
      HandedShift(m.handed, line, Lines(tail), Accepted(handed, Lines(tail), verdict));
    } else {
      SplitLossless(tail);
    }
  }

  lemma HandedShift(handed: seq<Line>, line: Line, ls: seq<Line>, n: nat)
    requires n <= |ls|
    ensures handed + ([line] + ls) == handed + [line] + ls
    ensures n < |ls| ==> handed + ([line] + ls)[..n + 2] == handed + [line] + ls[..n + 1]
    ensures n < |ls| ==> ([line] + ls)[n + 2..] == ls[n + 1..]
    ensures ([line] + ls)[1..] == ls
  {
  }

  /** Every section that leads to another one takes a newline out of the buffer. */
  lemma SectionWork(m: Memory, data: seq<Byte>, verdict: Verdict)
    ensures var (m', o) := Section(m, data, verdict);
            && Newlines(m.buf) + Newlines(data) == Newlines(m'.buf) + (if o.Finished? then 0 else 1)
            && (o.Finished? ==> !HasNewline(m'.buf))
  {
    var s := m.buf + data;
    NewlinesAppend(m.buf, data);
    if HasNewline(s) {
      CutLine(s);
    }
  }

  // ---- Chunk independence

  ghost predicate NeverFails(verdict: Verdict) {
    forall handed :: verdict(handed)
  }

  /** Calls made one after the other, the first of `chunks` first. */
  function Calls(m: Memory, chunks: seq<seq<Byte>>, verdict: Verdict): Memory
    decreases |chunks|
  {
    if chunks == [] then m else Calls(Call(m, chunks[0], verdict).0, chunks[1..], verdict)
  }

  lemma {:induction false} AcceptsAll(handed: seq<Line>, ls: seq<Line>, verdict: Verdict)
    requires NeverFails(verdict)
    ensures Accepted(handed, ls, verdict) == |ls|
    decreases |ls|
  {
    if ls != [] {
      AcceptsAll(handed + [ls[0]], ls[1..], verdict);
    }
  }

  /** What one call does when the handler never fails: hand out the split of old and new data. */
  function SplitCall(m: Memory, data: seq<Byte>): Memory {
    Memory(Rest(m.buf + data), m.handed + Lines(m.buf + data))
  }

  lemma CallSplits(m: Memory, data: seq<Byte>, verdict: Verdict)
    requires NeverFails(verdict)
    ensures Call(m, data, verdict) == (SplitCall(m, data), true)
  {
    AcceptsAll(m.handed, Lines(m.buf + data), verdict);
  }

  lemma SplitCallTwice(m: Memory, a: seq<Byte>, b: seq<Byte>)
    ensures SplitCall(SplitCall(m, a), b) == SplitCall(m, a + b)
  {
    var s := m.buf + a;
    SplitAppend(s, b);
    Assoc(m.buf, a, b);
    Assoc(m.handed, Lines(s), Lines(Rest(s) + b));
  }

  lemma NoData(m: Memory, verdict: Verdict)
    requires !HasNewline(m.buf)
    ensures Call(m, [], verdict) == (m, true)
  {
    assert m.buf + [] == m.buf;
    assert m.handed + [] == m.handed;
  }

  /** However a stream is cut into chunks, the handed lines and the buffer are those of one call. */
  lemma {:induction false} ChunkIndependence(m: Memory, chunks: seq<seq<Byte>>, verdict: Verdict)
    requires NeverFails(verdict) && !HasNewline(m.buf)
    ensures Calls(m, chunks, verdict) == Call(m, Flatten(chunks), verdict).0
    decreases |chunks|
  {
    if chunks == [] {
      NoData(m, verdict);
    } else {
      var m', tail := SplitCall(m, chunks[0]), Flatten(chunks[1..]);
      CallSplits(m, chunks[0], verdict);
      SplitShape(m.buf + chunks[0]);
      ChunkIndependence(m', chunks[1..], verdict);
      CallSplits(m', tail, verdict);
      SplitCallTwice(m, chunks[0], tail);
      CallSplits(m, chunks[0] + tail, verdict);
    }
  }
}
