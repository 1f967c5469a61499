/** The loops that move bytes from one channel to the next, and what they amount to as steps of the
    protocol when no other thread moves meanwhile. */
module IoThreads {
  import opened Memory
  import opened UartProtocol
  import opened UartProgress

  /** The sink a writer thread was given; its writes succeed. */
  class Sink {
    var written: seq<byte>

    method WriteAll(bytes: seq<byte>)
      modifies this
      ensures written == old(written) + bytes
    {
      written := written + bytes;
    }
  }

  /** What the output thread does once told to exit: forward whatever is still queued. */
  method FlushQueued(deviceRx: Channel<byte>, uartTx: Channel<byte>)
    requires deviceRx != uartTx
    modifies deviceRx, uartTx
    ensures deviceRx.queue == []
    ensures uartTx.queue == old(uartTx.queue) + old(deviceRx.queue)
  {
    while deviceRx.queue != []
      invariant uartTx.queue + deviceRx.queue == old(uartTx.queue) + old(deviceRx.queue)
      decreases |deviceRx.queue|
    {
      var b := deviceRx.TryRecv();
      uartTx.Send(b.value);
    }
  }

  function Concat(parts: seq<seq<byte>>): seq<byte> {
    if parts == [] then [] else parts[0] + Concat(parts[1..])
  }

  /** The writer thread. While it runs, at moments of its own choosing, the sender adds the bytes of
      `later`, part by part, and then goes away; the loop ends on an empty channel without a sender. */
  method WriterToChan(rx: Channel<byte>, writer: Sink, later: seq<seq<byte>>)
    modifies rx, writer
    ensures rx.queue == []
    ensures writer.written == old(writer.written) + old(rx.queue) + Concat(later)
  {
    var k := 0;
    while rx.queue != [] || k < |later|
      invariant 0 <= k <= |later|
      invariant writer.written + rx.queue + Concat(later[k..])
             == old(writer.written) + old(rx.queue) + Concat(later)
      decreases |later| - k, |rx.queue|
    {
      if {
        case k < |later| =>
          ghost var before := writer.written + rx.queue;
          rx.SendAll(later[k]);
          assert later[k..][1..] == later[k + 1..];
          assert before + Concat(later[k..]) == before + later[k] + Concat(later[k + 1..]);
          k := k + 1;
        case rx.queue != [] =>
          ghost var before := writer.written + rx.queue;
          var b := rx.TryRecv();
          writer.WriteAll([b.value]);
          assert writer.written + rx.queue == before;
      }
    }
  }

  function FlushSteps(n: nat): seq<Action> {
    if n == 0 then [] else [Output(Drain), Output(DrainSend)] + FlushSteps(n - 1)
  }

  function WriteSteps(n: nat): seq<Action> {
    if n == 0 then [] else [Writer(TakeOutput), Writer(WriteOut)] + WriteSteps(n - 1)
  }

  /** Two steps first, then the rest. */
  lemma {:induction false} TwoSteps(s: Proto, a: Action, b: Action, rest: seq<Action>)
    requires Enabled(s, a) && Enabled(Next(s, a), b)
    ensures RunFrom(s, [a, b] + rest) == RunFrom(Next(Next(s, a), b), rest)
  {
    assert ([a, b] + rest)[1..] == [b] + rest;
    assert ([b] + rest)[1..] == rest;
  }

  /** The flush loop is the protocol's draining steps: all queued bytes move, in order, and each is
      counted as drained. */
  lemma {:induction false} FlushInSteps(s: Proto)
    requires s.output == Draining
    ensures RunFrom(s, FlushSteps(|s.ch.deviceTx|))
         == Some(s.(ch := s.ch.(deviceTx := [], uartTx := s.ch.uartTx + s.ch.deviceTx),
                    log := s.log.(drained := s.log.drained + |s.ch.deviceTx|)))
    decreases |s.ch.deviceTx|
  {
    var q := s.ch.deviceTx;
    if q == [] {
      assert s.ch.uartTx + q == s.ch.uartTx;
    } else {
      TwoSteps(s, Output(Drain), Output(DrainSend), FlushSteps(|q| - 1));
      var t := Next(Next(s, Output(Drain)), Output(DrainSend));
      FlushInSteps(t);
      assert t.ch.uartTx + t.ch.deviceTx == s.ch.uartTx + q;
    }
  }

  /** The writer loop is the protocol's writer steps: everything sent comes out, in order. */
  lemma {:induction false} WriterInSteps(s: Proto)
    requires s.writer == Receiving
    ensures RunFrom(s, WriteSteps(|s.ch.uartTx|))
         == Some(s.(ch := s.ch.(uartTx := []), log := s.log.(delivered := s.log.delivered + s.ch.uartTx)))
    decreases |s.ch.uartTx|
  {
    var q := s.ch.uartTx;
    if q == [] {
      assert s.log.delivered + q == s.log.delivered;
    } else {
      TwoSteps(s, Writer(TakeOutput), Writer(WriteOut), WriteSteps(|q| - 1));
      var t := Next(Next(s, Writer(TakeOutput)), Writer(WriteOut));
      WriterInSteps(t);
      assert t.log.delivered + t.ch.uartTx == s.log.delivered + q;
    }
  }
}
