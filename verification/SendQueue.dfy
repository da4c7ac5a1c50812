/** The outgoing message queue of a connection: the fields that `m_write_lock` guards,
    and the pieces of code that run while it is held. */
module SendQueue {
  import opened Messages

  const SIZE_MODULUS: int := 0x1_0000_0000_0000_0000

  /** size_t, whose sums and differences wrap around. */
  type Size = n: int | 0 <= n < SIZE_MODULUS

  function Wrap(n: int): Size { n % SIZE_MODULUS }

  lemma WrapSmall(n: int)
    requires 0 <= n < SIZE_MODULUS
    ensures Wrap(n) == n
  {
  }

  /** Wrapping early or late makes no difference. */
  lemma WrapAdds(a: int, b: int)
    ensures Wrap(Wrap(a) + b) == Wrap(a + b)
  {
    var q := a / SIZE_MODULUS;
    assert a == Wrap(a) + q * SIZE_MODULUS;
    WrapShift(Wrap(a) + b, q);
  }

  lemma WrapShift(n: int, q: int)
    ensures Wrap(n + q * SIZE_MODULUS) == Wrap(n)
  {
  }

  /** The value of the guarded fields. */
  datatype Writer = Writer(
    queue: seq<Message>,          // m_send_queue
    buffered: Size,               // m_send_buffer_size
    writing: bool,                // m_write_flag
    current: seq<Message>,        // m_current_msgs
    buffers: seq<seq<Byte>>)      // m_send_buffer

  const EMPTY := Writer([], 0, false, [], [])

  /** The messages that one write takes: everything up to the first terminal message. */
  function Batch(queue: seq<Message>): seq<Message> {
    if queue == [] then []
    else if queue[0].terminal then [queue[0]]
    else [queue[0]] + Batch(queue[1..])
  }

  /** A batch is the longest prefix of the queue in which only the last message may be terminal. */
  lemma {:induction false} BatchShape(queue: seq<Message>)
    ensures var b := Batch(queue);
            && |b| <= |queue| && b == queue[..|b|]
            && (queue != [] ==> b != [])
            && TerminalOnlyLast(b)
            && (|b| < |queue| ==> b[|b| - 1].terminal)
  {
    if queue != [] && !queue[0].terminal {
      BatchShape(queue[1..]);
    }
  }

  lemma {:induction false} BatchWhole(queue: seq<Message>)
    requires NoTerminal(queue)
    ensures Batch(queue) == queue
  {
    if queue != [] {
      BatchWhole(queue[1..]);
    }
  }

  /** A batch ends at the first terminal message, whatever follows it. */
  lemma {:induction false} BatchStops(a: seq<Message>, b: seq<Message>)
    requires a != [] && TerminalOnlyLast(a) && a[|a| - 1].terminal
    ensures Batch(a + b) == a
  {
    if |a| > 1 {
      assert a[0] == a[..|a| - 1][0] && !a[0].terminal;
      assert (a + b)[1..] == a[1..] + b;
      BatchStops(a[1..], b);
    }
  }

  function Push(w: Writer, msg: Message): Writer {
    w.(queue := w.queue + [msg], buffered := Wrap(w.buffered + |msg.payload|))
  }

  function Remove(w: Writer, n: nat): Writer
    requires n <= |w.queue|
  {
    w.(queue := w.queue[n..], buffered := Wrap(w.buffered - PayloadBytes(w.queue[..n])))
  }

  /** The locked section of write_frame. */
  function Begin(w: Writer): Writer {
    var b := Batch(w.queue);
    BatchShape(w.queue);
    if w.writing || w.current + b == [] then w
    else Remove(w, |b|).(writing := true, current := w.current + b)
  }

  function Fill(w: Writer): Writer {
    w.(buffers := w.buffers + Buffers(w.current))
  }

  function Clear(w: Writer): Writer {
    w.(current := [], buffers := [])
  }

  /** The size counter is the payload volume of the queue, modulo the width of the counter. */
  predicate SizeOk(w: Writer) {
    w.buffered == Wrap(PayloadBytes(w.queue))
  }

  /** A volume that fits in the counter is counted exactly. */
  lemma CountedExactly(w: Writer)
    requires SizeOk(w) && PayloadBytes(w.queue) < SIZE_MODULUS
    ensures w.buffered == PayloadBytes(w.queue)
  {
    WrapSmall(PayloadBytes(w.queue));
  }

  lemma PushKeepsSize(w: Writer, msg: Message)
    requires SizeOk(w)
    ensures SizeOk(Push(w, msg))
  {
    hide Wrap;
    PayloadBytesConcat(w.queue, [msg]);
    assert [msg][1..] == [];
    WrapAdds(PayloadBytes(w.queue), |msg.payload|);
  }

  lemma RemoveKeepsSize(w: Writer, n: nat)
    requires n <= |w.queue| && SizeOk(w)
    ensures SizeOk(Remove(w, n))
  {
    hide Wrap;
    assert w.queue[..n] + w.queue[n..] == w.queue;
    PayloadBytesConcat(w.queue[..n], w.queue[n..]);
    var taken: int := PayloadBytes(w.queue[..n]);
    WrapAdds(PayloadBytes(w.queue), -taken);
  }

  lemma RemoveNothing(w: Writer)
    ensures Remove(w, 0) == w
  {
    WrapSmall(w.buffered);
    assert w.queue[0..] == w.queue;
  }

  lemma RemoveTwice(w: Writer, a: nat, b: nat)
    requires a + b <= |w.queue|
    ensures Remove(Remove(w, a), b) == Remove(w, a + b)
  {
    hide Wrap;
    var q := w.queue;
    var first, second := q[..a], q[a..][..b];
    assert q[..a + b] == first + second && q[a..][b..] == q[a + b..];
    PayloadBytesConcat(first, second);
    var last: int := PayloadBytes(second);
    WrapAdds(w.buffered - PayloadBytes(first), -last);
  }

  /** The batch moved from the queue to the current messages, as the loop of write_frame does. */
  function Pulled(w: Writer): Writer {
    var b := Batch(w.queue);
    BatchShape(w.queue);
    Remove(w, |b|).(current := w.current + b)
  }

  /** One message moved. */
  function PulledOne(w: Writer): Writer
    requires w.queue != []
  {
    Remove(w, 1).(current := w.current + [w.queue[0]])
  }

  /** One turn of the loop. */
  lemma PulledStep(w: Writer)
    ensures Pulled(w) == if w.queue == [] then w
                         else if w.queue[0].terminal then PulledOne(w)
                         else Pulled(PulledOne(w))
  {
    hide Wrap, PayloadBytes, Remove;
    if w.queue == [] {
      RemoveNothing(w);
      assert w.current + [] == w.current;
    } else if !w.queue[0].terminal {
      var b := Batch(w.queue[1..]);
      BatchShape(w.queue[1..]);
      RemoveTwice(w, 1, |b|);
      assert w.current + ([w.queue[0]] + b) == w.current + [w.queue[0]] + b;
      RestOfQueue(w);
    }
  }

  lemma RestOfQueue(w: Writer)
    requires w.queue != []
    ensures PulledOne(w).queue == w.queue[1..]
    ensures forall n: nat | n <= |w.queue| - 1 ::
              Remove(PulledOne(w), n) == Remove(Remove(w, 1), n).(current := w.current + [w.queue[0]])
  {
    hide Wrap, PayloadBytes;
  }

  /** The fields themselves, and the methods that change them in place. */
  class Connection {
    var sendQueue: seq<Message>
    var sendBufferSize: Size
    var writeFlag: bool
    var currentMsgs: seq<Message>
    var sendBuffer: seq<seq<Byte>>

    function Value(): Writer
      reads this
    {
      Writer(sendQueue, sendBufferSize, writeFlag, currentMsgs, sendBuffer)
    }

    constructor ()
      ensures Value() == EMPTY
    {
      sendQueue, sendBufferSize, writeFlag, currentMsgs, sendBuffer := [], 0, false, [], [];
    }

    /** A null message is ignored. */
    method WritePush(msg: Option<Message>)
      modifies this
      ensures Value() == if msg == None then old(Value()) else Push(old(Value()), msg.value)
    {
      hide Wrap;
      if msg == None { return; }
      sendBufferSize := Wrap(sendBufferSize + |msg.value.payload|);
      sendQueue := sendQueue + [msg.value];
    }

    method WritePop() returns (msg: Option<Message>)
      modifies this`sendQueue, this`sendBufferSize
      ensures old(sendQueue) == [] ==> msg == None && Value() == old(Value())
      ensures old(sendQueue) != [] ==>
                msg == Some(old(sendQueue)[0]) && Value() == Remove(old(Value()), 1)
    {
      hide Wrap;
      if sendQueue == [] { return None; }
      var front := sendQueue[0];
      assert PayloadBytes(sendQueue[..1]) == |front.payload| by { assert sendQueue[..1][1..] == []; }
      sendBufferSize := Wrap(sendBufferSize - |front.payload|);
      sendQueue := sendQueue[1..];
      msg := Some(front);
    }

    /** The loop of write_frame: move a batch from the queue to m_current_msgs. */
    method PullBatch()
      modifies this`sendQueue, this`sendBufferSize, this`currentMsgs
      ensures |Batch(old(sendQueue))| <= |old(sendQueue)|
      ensures Value() == Remove(old(Value()), |Batch(old(sendQueue))|).(
                           current := old(currentMsgs) + Batch(old(sendQueue)))
    {
      ghost var target := Pulled(Value());
      BatchShape(sendQueue);
      PulledStep(Value());
      assert target == Remove(Value(), |Batch(sendQueue)|).(current := currentMsgs + Batch(sendQueue));
      hide Batch, PayloadBytes, Wrap, Pulled;
      var next := WritePop();
      while next.Some?
        invariant next.None? ==> Value() == target
        invariant next.Some? ==>
                    target == var v := Value().(current := currentMsgs + [next.value]);
                              if next.value.terminal then v else Pulled(v)
        decreases |sendQueue|, next.Some?
      {
        currentMsgs := currentMsgs + [next.value];
        if !next.value.terminal {
          PulledStep(Value());
          next := WritePop();
        } else {
          next := None;
        }
      }
    }

    /** The locked section of write_frame; `own` says whether this call now owns the write. */
    method BeginWrite() returns (own: bool)
      modifies this`sendQueue, this`sendBufferSize, this`currentMsgs, this`writeFlag
      ensures Value() == Begin(old(Value()))
      ensures own == (!old(writeFlag) && writeFlag)
    {
      if writeFlag { return false; }
      PullBatch();
      if currentMsgs == [] { return false; }
      writeFlag := true;
      own := true;
    }

    /** The unlocked part of write_frame: one header and one payload buffer per message. */
    method FillSendBuffer()
      modifies this`sendBuffer
      ensures Value() == Fill(old(Value()))
    {
      var i := 0;
      while i < |currentMsgs|
        invariant 0 <= i <= |currentMsgs|
        invariant sendBuffer == old(sendBuffer) + Buffers(currentMsgs[..i])
      {
        assert currentMsgs[..i + 1] == currentMsgs[..i] + [currentMsgs[i]];
        BuffersConcat(currentMsgs[..i], [currentMsgs[i]]);
        assert [currentMsgs[i]][1..] == [];
        sendBuffer := sendBuffer + [currentMsgs[i].header];
        sendBuffer := sendBuffer + [currentMsgs[i].payload];
        i := i + 1;
      }
      assert currentMsgs[..i] == currentMsgs;
    }

    /** The start of handle_write_frame: m_current_msgs.back() must exist. */
    method FinishWrite() returns (terminal: bool)
      requires currentMsgs != []
      modifies this`sendBuffer, this`currentMsgs
      ensures Value() == Clear(old(Value()))
      ensures terminal == old(currentMsgs)[|old(currentMsgs)| - 1].terminal
    {
      terminal := currentMsgs[|currentMsgs| - 1].terminal;
      sendBuffer := [];
      currentMsgs := [];
    }

    /** The locked section of handle_write_frame. */
    method ReleaseWrite() returns (needsWriting: bool)
      modifies this`writeFlag
      ensures Value() == old(Value()).(writing := false)
      ensures needsWriting == (sendQueue != [])
    {
      writeFlag := false;
      needsWriting := sendQueue != [];
    }
  }

}
