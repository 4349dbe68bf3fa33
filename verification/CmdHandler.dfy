/** Child processes: the goroutines that read their output and wait for their end. */
module CmdHandler {
  import opened LineSplit
  import opened LogParser
  import opened Prelude

  const READ_SIZE := 256

  /** One result of reading the output pipe: up to READ_SIZE bytes, and whether there was an error (or the end). */
  datatype ReadResult = ReadResult(data: seq<Byte>, err: bool)

  /** The chunks passed on: what was read up to and including the first error, without empty reads. */
  function Received(results: seq<ReadResult>): seq<seq<Byte>> {
    if results == [] then []
    else (if results[0].data == [] then [] else [results[0].data])
         + if results[0].err then [] else Received(results[1..])
  }

  /** What the parser still has to do after the first result is what the remaining results ask of it. */
  lemma ReceivedStep(m: Memory, results: seq<ReadResult>, verdict: Verdict)
    requires results != []
    ensures var m' := if results[0].data == [] then m else Call(m, results[0].data, verdict).0;
            Calls(m, Received(results), verdict)
            == if results[0].err then m' else Calls(m', Received(results[1..]), verdict)
  {
    var tail := if results[0].err then [] else Received(results[1..]);
    if results[0].data == [] {
      assert Received(results) == tail;
    } else {
      assert Received(results)[1..] == tail;
    }
  }

  /** The reader goroutine. It reuses one buffer; errors of the parser are logged and ignored. */
  method ReadOutput(parser: BaseLogParser, results: seq<ReadResult>)
    requires forall i :: 0 <= i < |results| ==> |results[i].data| <= READ_SIZE
    modifies parser
    ensures parser.Contents() == Calls(old(parser.Contents()), Received(results), parser.verdict)
  {
    var buf := new Byte[READ_SIZE];
    var i := 0;
    assert results[0..] == results;
    while i < |results|
      invariant 0 <= i <= |results|
      invariant Calls(parser.Contents(), Received(results[i..]), parser.verdict)
             == Calls(old(parser.Contents()), Received(results), parser.verdict)
    {
      ReceivedStep(parser.Contents(), results[i..], parser.verdict);
      assert results[i..][1..] == results[i + 1..];
      var n := |results[i].data|;
      Fill(buf, results[i].data);
      if n > 0 {
        var _ := parser.HandleData(Some(buf[..n]));
      }
      if results[i].err {
        return;
      }
      i := i + 1;
    }
  }

  /** Reading into the front of the buffer; what is behind it is left over from earlier reads. */
  method Fill(buf: array<Byte>, data: seq<Byte>)
    requires |data| <= buf.Length
    modifies buf
    ensures buf[..] == data + old(buf[..])[|data|..]
  {
    forall k | 0 <= k < |data| {
      buf[k] := data[k];
    }
  }

  /** What a reader leaves in a parser does not depend on where the reads cut the stream. */
  lemma ReadSizesDoNotMatter(m: Memory, results: seq<ReadResult>, verdict: Verdict)
    requires NeverFails(verdict) && !HasNewline(m.buf)
    ensures Calls(m, Received(results), verdict) == SplitCall(m, Flatten(Received(results)))
  {
    ChunkIndependence(m, Received(results), verdict);
    CallSplits(m, Flatten(Received(results)), verdict);
  }
}
