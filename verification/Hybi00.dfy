/** The Hybi-00 processor: text frames that start with 0x00 and end with 0xFF, decoded by a
    resumable state machine that the connection's read loop drives. */
module Hybi00 {
  import opened Messages
  import Utf8

  const HDR: Byte := 0x00
  const FTR: Byte := 0xFF

  datatype State = Header | Payload | Ready | FatalError

  datatype Error =
    | InvalidArguments | InvalidOpcode | InvalidPayload
    | NoIncomingBuffers | ProtocolViolation

  /** m_state and the payload of m_msg_ptr. */
  datatype Decoder = Decoder(state: State, msg: Option<seq<Byte>>)

  const START := Decoder(Header, None)

  predicate Valid(d: Decoder) {
    d.state in {Payload, Ready} <==> d.msg.Some?
  }

  /** Between two calls of the read loop. */
  predicate Reading(d: Decoder) {
    Valid(d) && d.state in {Header, Payload}
  }

  /** Index of the first 0xFF, or the length. */
  function Find(bytes: seq<Byte>): (k: nat)
    ensures k <= |bytes|
  {
    if bytes == [] || bytes[0] == FTR then 0 else 1 + Find(bytes[1..])
  }

  lemma {:induction false} FindIsFirst(bytes: seq<Byte>)
    ensures forall i | 0 <= i < Find(bytes) :: bytes[i] != FTR
    ensures Find(bytes) < |bytes| ==> bytes[Find(bytes)] == FTR
  {
    if bytes != [] && bytes[0] != FTR {
      FindIsFirst(bytes[1..]);
    }
  }

  datatype Outcome = Outcome(d: Decoder, used: nat, ec: Option<Error>)

  function ConsumePayload(msg: seq<Byte>, bytes: seq<Byte>): Outcome {
    var k := Find(bytes);
    if k < |bytes| then Outcome(Decoder(Ready, Some(msg + bytes[..k])), k + 1, None)
    else Outcome(Decoder(Payload, Some(msg + bytes)), k, None)
  }

  /** What consume does. A message buffer may be unavailable when a header byte arrives. */
  function ConsumeBytes(d: Decoder, bytes: seq<Byte>, available: bool): (o: Outcome)
    requires Valid(d)
    ensures Valid(o.d) && o.used <= |bytes|
    ensures o.ec.Some? <==> bytes != [] && d.state == Header && (bytes[0] != HDR || !available)
    ensures o.ec.Some? ==> o.d.state == FatalError
    ensures bytes != [] && Reading(d) && o.ec.None? ==> o.used > 0
    ensures Reading(d) && o.ec.None? && o.d.state != Ready ==> o.used == |bytes| && Reading(o.d)
  {
    match d.state
    case Header =>
      if bytes == [] then Outcome(d, 0, None)
      else if bytes[0] != HDR then Outcome(d.(state := FatalError), 0, Some(ProtocolViolation))
      else if !available then Outcome(d.(state := FatalError), 1, Some(NoIncomingBuffers))
      else
        var o := ConsumePayload([], bytes[1..]);
        o.(used := 1 + o.used)
    case Payload => ConsumePayload(d.msg.value, bytes)
    case _ => Outcome(d, 0, None)
  }

  datatype Delivery = Delivery(d: Decoder, msgs: seq<seq<Byte>>, ec: Option<Error>)

  /** The read loop of handle_read_frame over one buffer, with buffers available. */
  function ReadLoop(d: Decoder, bytes: seq<Byte>): Delivery
    requires Reading(d)
    decreases |bytes|
  {
    if bytes == [] then Delivery(d, [], None)
    else
      var o := ConsumeBytes(d, bytes, true);
      if o.ec.Some? then Delivery(o.d, [], o.ec)
      else if o.d.state == Ready then
        var rest := ReadLoop(START, bytes[o.used..]);
        rest.(msgs := [o.d.msg.value] + rest.msgs)
      else ReadLoop(o.d, bytes[o.used..])
  }

  function Prepend(msgs: seq<seq<Byte>>, r: Delivery): Delivery {
    r.(msgs := msgs + r.msgs)
  }

  lemma PrependNothing(r: Delivery)
    ensures Prepend([], r) == r
  {
    assert [] + r.msgs == r.msgs;
  }

  lemma NothingToRead(d: Decoder, msgs: seq<seq<Byte>>)
    requires Reading(d)
    ensures Prepend(msgs, ReadLoop(d, [])) == Delivery(d, msgs, None)
  {
    assert msgs + [] == msgs;
  }

  lemma ReadLoopStep(d: Decoder, buf: seq<Byte>, p: nat, msgs: seq<seq<Byte>>)
    requires Reading(d) && p < |buf|
    ensures var o := ConsumeBytes(d, buf[p..], true);
            Prepend(msgs, ReadLoop(d, buf[p..])) ==
            if o.ec.Some? then Delivery(o.d, msgs, o.ec)
            else if o.d.state == Ready then Prepend(msgs + [o.d.msg.value], ReadLoop(START, buf[p + o.used..]))
            else Prepend(msgs, ReadLoop(o.d, buf[p + o.used..]))
  {
    hide ConsumeBytes;
    var o := ConsumeBytes(d, buf[p..], true);
    assert buf[p..][o.used..] == buf[p + o.used..];
    if o.ec.Some? {
      assert msgs + [] == msgs;
    } else if o.d.state == Ready {
      var rest := ReadLoop(START, buf[p + o.used..]);
      assert msgs + ([o.d.msg.value] + rest.msgs) == msgs + [o.d.msg.value] + rest.msgs;
    }
  }

  /** The same, over the buffers of successive reads; no read follows an error. */
  function ReadChunks(d: Decoder, chunks: seq<seq<Byte>>): Delivery
    requires Reading(d)
    decreases |chunks|
  {
    if chunks == [] then Delivery(d, [], None)
    else
      var first := ReadLoop(d, chunks[0]);
      ReadLoopReading(d, chunks[0]);
      if first.ec.Some? then first
      else
        var rest := ReadChunks(first.d, chunks[1..]);
        rest.(msgs := first.msgs + rest.msgs)
  }

  lemma {:induction false} ReadLoopReading(d: Decoder, bytes: seq<Byte>)
    requires Reading(d)
    ensures ReadLoop(d, bytes).ec.None? ==> Reading(ReadLoop(d, bytes).d)
    decreases |bytes|
  {
    if bytes != [] {
      var o := ConsumeBytes(d, bytes, true);
      if o.ec.None? {
        ReadLoopReading(if o.d.state == Ready then START else o.d, bytes[o.used..]);
      }
    }
  }

  lemma AtTheEnd(msg: seq<Byte>, buf: seq<Byte>, p: nat)
    requires p < |buf|
    ensures var k := p + Find(buf[p..]);
            && buf[p..][..k - p] == buf[p..k]
            && (k < |buf| ==> ConsumePayload(msg, buf[p..]) == Outcome(Decoder(Ready, Some(msg + buf[p..k])), k + 1 - p, None))
            && (k == |buf| ==> var d := Decoder(Payload, Some(msg + buf[p..k]));
                               && ConsumePayload(msg, buf[p..]) == Outcome(d, k - p, None)
                               && ConsumePayload(d.msg.value, buf[k..]) == Outcome(d, 0, None))
  {
    if p + Find(buf[p..]) == |buf| {
      assert buf[p..|buf|] == buf[p..];
      assert msg + buf[p..] + [] == msg + buf[p..];
    }
  }

  // ---- one byte at a time ----

  function ByteStep(d: Decoder, b: Byte): Delivery
    requires Reading(d)
  {
    if d.state == Header then
      if b == HDR then Delivery(Decoder(Payload, Some([])), [], None)
      else Delivery(d.(state := FatalError), [], Some(ProtocolViolation))
    else if b == FTR then Delivery(START, [d.msg.value], None)
    else Delivery(Decoder(Payload, Some(d.msg.value + [b])), [], None)
  }

  function ByByte(d: Decoder, bytes: seq<Byte>): Delivery
    requires Reading(d)
    decreases |bytes|
  {
    if bytes == [] then Delivery(d, [], None)
    else
      var s := ByteStep(d, bytes[0]);
      if s.ec.Some? then s
      else
        var rest := ByByte(s.d, bytes[1..]);
        rest.(msgs := s.msgs + rest.msgs)
  }

  lemma {:induction false} PayloadByByte(msg: seq<Byte>, bytes: seq<Byte>)
    ensures var k := Find(bytes);
            ByByte(Decoder(Payload, Some(msg)), bytes) ==
            if k < |bytes| then
              var rest := ByByte(START, bytes[k + 1..]);
              rest.(msgs := [msg + bytes[..k]] + rest.msgs)
            else Delivery(Decoder(Payload, Some(msg + bytes)), [], None)
    decreases |bytes|
  {
    if bytes == [] {
      assert msg + bytes == msg;
    } else if bytes[0] == FTR {
      assert msg + bytes[..0] == msg;
    } else {
      PayloadByByte(msg + [bytes[0]], bytes[1..]);
      var k := Find(bytes);
      assert msg + [bytes[0]] + bytes[1..][..k - 1] == msg + bytes[..k];
      assert msg + [bytes[0]] + bytes[1..] == msg + bytes;
      assert k < |bytes| ==> bytes[1..][k..] == bytes[k + 1..];
    }
  }

  /** Scanning for the terminator a buffer at a time agrees with reading byte by byte. */
  lemma {:induction false} ReadLoopByByte(d: Decoder, bytes: seq<Byte>)
    requires Reading(d)
    ensures ReadLoop(d, bytes) == ByByte(d, bytes)
    decreases |bytes|
  {
    if bytes != [] {
      var o := ConsumeBytes(d, bytes, true);
      if d.state == Header {
        if bytes[0] == HDR {
          var tail := bytes[1..];
          PayloadByByte([], tail);
          if Find(tail) < |tail| {
            assert bytes[o.used..] == tail[Find(tail) + 1..];
            ReadLoopByByte(START, bytes[o.used..]);
          }
        }
      } else {
        PayloadByByte(d.msg.value, bytes);
        if o.d.state == Ready { ReadLoopByByte(START, bytes[o.used..]); }
      }
    }
  }

  lemma {:induction false} ByByteConcat(d: Decoder, a: seq<Byte>, b: seq<Byte>)
    requires Reading(d)
    ensures ByByte(d, a).ec.None? ==> Reading(ByByte(d, a).d)
    ensures var first := ByByte(d, a);
            ByByte(d, a + b) ==
            if first.ec.Some? then first
            else var rest := ByByte(first.d, b); rest.(msgs := first.msgs + rest.msgs)
    decreases |a|
  {
    if a == [] {
      assert a + b == b;
    } else {
      assert (a + b)[1..] == a[1..] + b;
      var s := ByteStep(d, a[0]);
      hide ByteStep;
      if s.ec.None? {
        ByByteConcat(s.d, a[1..], b);
        var more := ByByte(s.d, a[1..]);
        if more.ec.None? {
          var rest := ByByte(more.d, b);
          assert s.msgs + (more.msgs + rest.msgs) == (s.msgs + more.msgs) + rest.msgs;
        }
      }
    }
  }

  /** What is delivered does not depend on how the bytes are split into reads. */
  lemma {:induction false} ChunkingIsInvisible(d: Decoder, chunks: seq<seq<Byte>>)
    requires Reading(d)
    ensures ReadChunks(d, chunks) == ReadLoop(d, Flatten(chunks))
    decreases |chunks|
  {
    if chunks != [] {
      var first := ReadLoop(d, chunks[0]);
      ReadLoopReading(d, chunks[0]);
      ReadLoopByByte(d, chunks[0]);
      ReadLoopByByte(d, Flatten(chunks));
      ByByteConcat(d, chunks[0], Flatten(chunks[1..]));
      if first.ec.None? {
        ChunkingIsInvisible(first.d, chunks[1..]);
        ReadLoopByByte(first.d, Flatten(chunks[1..]));
      }
    }
  }

  // ---- encoding ----

  function Frame(text: seq<Byte>): seq<Byte> { [HDR] + text + [FTR] }

  function Frames(texts: seq<seq<Byte>>): seq<Byte> {
    if texts == [] then [] else Frame(texts[0]) + Frames(texts[1..])
  }

  lemma FindEnd(text: seq<Byte>, rest: seq<Byte>)
    requires FTR !in text
    ensures Find(text + [FTR] + rest) == |text|
  {
    var s := text + [FTR] + rest;
    FindIsFirst(s);
    assert s[|text|] == FTR;
    assert forall i | 0 <= i < |text| :: s[i] == text[i];
  }

  lemma ReadFrame(text: seq<Byte>, rest: seq<Byte>)
    requires FTR !in text
    ensures var r := ReadLoop(START, rest);
            ReadLoop(START, Frame(text) + rest) == r.(msgs := [text] + r.msgs)
  {
    var tail := text + [FTR] + rest;
    var bytes := Frame(text) + rest;
    assert bytes == [HDR] + tail && bytes[1..] == tail;
    FindEnd(text, rest);
    assert tail[..|text|] == text && [] + text == text;
    assert bytes[|text| + 2..] == rest;
  }

  lemma {:induction false} ReadFrames(texts: seq<seq<Byte>>)
    requires forall i | 0 <= i < |texts| :: FTR !in texts[i]
    ensures ReadLoop(START, Frames(texts)) == Delivery(START, texts, None)
  {
    if texts != [] {
      ReadFrames(texts[1..]);
      ReadFrame(texts[0], Frames(texts[1..]));
      assert [texts[0]] + texts[1..] == texts;
    }
  }

  /** Decoding inverts encoding: the frames of any list of valid texts, split into reads in
      any way, deliver exactly that list. */
  lemma RoundTrip(texts: seq<seq<Byte>>, chunks: seq<seq<Byte>>)
    requires forall i | 0 <= i < |texts| :: Utf8.Accepts(texts[i])
    requires Flatten(chunks) == Frames(texts)
    ensures ReadChunks(START, chunks) == Delivery(START, texts, None)
  {
    forall i | 0 <= i < |texts|
      ensures FTR !in texts[i]
    {
      Utf8.AcceptedBytes(Utf8.START, texts[i]);
    }
    ReadFrames(texts);
    ChunkingIsInvisible(START, chunks);
  }

  /** The validation is what makes this work: an unchecked payload survives framing exactly
      when it contains no 0xFF. */
  lemma OnlyWithoutTerminator(text: seq<Byte>)
    ensures ReadLoop(START, Frame(text)) == Delivery(START, [text], None) <==> FTR !in text
  {
    if FTR !in text {
      ReadFrame(text, []);
      assert Frame(text) + [] == Frame(text);
    } else {
      var o := ConsumeBytes(START, Frame(text), true);
      var tail := text + [FTR];
      assert Frame(text)[1..] == tail;
      var i :| 0 <= i < |text| && text[i] == FTR;
      assert tail[i] == FTR;
      FindIsFirst(tail);
      assert |o.d.msg.value| < |text|;
      assert ReadLoop(START, Frame(text)).msgs[0] == o.d.msg.value;
    }
  }

  /** A frame is a zero byte, the text, and a byte 0xFF. */
  lemma FrameOctets(text: seq<Byte>)
    ensures Frame(text) == [0x00] + text + [0xFF]
  {
  }

  /** Frames followed by a byte that starts none: the texts are delivered, then the protocol is
      violated, and what follows that byte does not matter. */
  lemma FramesThenGarbage(texts: seq<seq<Byte>>, b: Byte, rest: seq<Byte>)
    requires b != 0 && forall i | 0 <= i < |texts| :: FTR !in texts[i]
    ensures ReadLoop(START, Frames(texts) + [b] + rest)
         == Delivery(Decoder(FatalError, None), texts, Some(ProtocolViolation))
    decreases |texts|
  {
    if texts == [] {
      assert Frames(texts) + [b] + rest == [b] + rest;
    } else {
      var tail := Frames(texts[1..]) + [b] + rest;
      assert Frames(texts) + [b] + rest == Frame(texts[0]) + tail;
      ReadFrame(texts[0], tail);
      FramesThenGarbage(texts[1..], b, rest);
      assert [texts[0]] + texts[1..] == texts;
    }
  }

  /** A byte that starts no frame is not consumed, the first byte of a frame for which there is
      no message buffer is; either way the decoder has failed. */
  lemma NoBuffer(bytes: seq<Byte>)
    requires bytes != []
    ensures bytes[0] == 0 ==>
              ConsumeBytes(START, bytes, false) == Outcome(Decoder(FatalError, None), 1, Some(NoIncomingBuffers))
    ensures bytes[0] != 0 ==> forall available ::
              ConsumeBytes(START, bytes, available) == Outcome(Decoder(FatalError, None), 0, Some(ProtocolViolation))
  {
  }

  /** A decoder that has failed consumes nothing and reports nothing, so a read loop entered
      in that state could not advance; handle_read_frame stops reading after the error. */
  lemma FailedDecoderIsStuck(d: Decoder, bytes: seq<Byte>, available: bool)
    requires Valid(d) && d.state == FatalError
    ensures ConsumeBytes(d, bytes, available) == Outcome(d, 0, None)
  {
  }

  // ---- the processor object ----

  class MessageBuffer {
    var opcode: nat
    var header: seq<Byte>
    var payload: seq<Byte>
    var prepared: bool

    constructor (opcode: nat, payload: seq<Byte>)
      ensures this.opcode == opcode && this.payload == payload && header == [] && !prepared
    {
      this.opcode, this.payload, header, prepared := opcode, payload, [], false;
    }
  }

  const TEXT := 1

  class Processor {
    var state: State
    var msg: Option<seq<Byte>>

    function Value(): Decoder
      reads this
    {
      Decoder(state, msg)
    }

    constructor ()
      ensures Value() == START
    {
      state, msg := Header, None;
    }

    /** One call consumes at most up to the end of the current frame. */
    method Consume(buf: seq<Byte>, available: bool) returns (p: nat, ec: Option<Error>)
      requires Valid(Value())
      modifies this
      ensures Outcome(Value(), p, ec) == ConsumeBytes(old(Value()), buf, available)
    {
      hide Find;
      p, ec := 0, None;
      ghost var start := Value();
      while p < |buf|
        invariant p <= |buf| && Valid(Value())
        invariant ec.Some? ==> state == FatalError
        invariant var o := ConsumeBytes(Value(), buf[p..], available);
                  ConsumeBytes(start, buf, available) ==
                  Outcome(o.d, p + o.used, if ec.Some? then ec else o.ec)
        decreases |buf| - p, ec.None?
      {
        if state == Header {
          if buf[p] == HDR {
            p := p + 1;
            if !available {
              ec, state := Some(NoIncomingBuffers), FatalError;
            } else {
              msg, state := Some([]), Payload;
            }
          } else {
            ec, state := Some(ProtocolViolation), FatalError;
          }
        } else if state == Payload {
          var k := p + Find(buf[p..]);
          AtTheEnd(msg.value, buf, p);
          msg := Some(msg.value + buf[p..k]);
          p := k;
          if k != |buf| {
            p := p + 1;
            state := Ready;
          }
        } else {
          break;
        }
      }
      assert state == Payload ==> msg.value + [] == msg.value;
    }

    method GetMessage() returns (ret: Option<seq<Byte>>)
      modifies this
      ensures ret == old(msg) && Value() == START
    {
      ret := msg;
      msg, state := None, Header;
    }

    /** The read loop of the connection, calling this processor; the messages are those given
        to the message handler, in order. */
    method HandleRead(buf: seq<Byte>) returns (msgs: seq<seq<Byte>>, ec: Option<Error>)
      requires Reading(Value())
      modifies this
      ensures Delivery(Value(), msgs, ec) == ReadLoop(old(Value()), buf)
      ensures ec.None? ==> Reading(Value())
    {
      hide ConsumeBytes, Find, ReadLoop, Prepend;
      var p: nat := 0;
      msgs, ec := [], None;
      ghost var whole := ReadLoop(Value(), buf);
      assert buf[0..] == buf;
      PrependNothing(whole);
      while p < |buf|
        invariant p <= |buf| && Reading(Value()) && ec.None?
        invariant whole == Prepend(msgs, ReadLoop(Value(), buf[p..]))
      {
        ReadLoopStep(Value(), buf, p, msgs);
        var used;
        used, ec := Consume(buf[p..], true);
        p := p + used;
        if ec.Some? { return; }
        if state == Ready {
          var m := GetMessage();
          msgs := msgs + [m.value];
        }
      }
      assert buf[p..] == [];
      NothingToRead(Value(), msgs);
    }
  }

  /** Successive reads of a connection, up to the first error. */
  method HandleReads(processor: Processor, chunks: seq<seq<Byte>>)
    returns (msgs: seq<seq<Byte>>, ec: Option<Error>)
    requires Reading(processor.Value())
    modifies processor
    ensures Delivery(processor.Value(), msgs, ec) == ReadLoop(old(processor.Value()), Flatten(chunks))
  {
    hide ReadLoop, ReadChunks, Prepend;
    ChunkingIsInvisible(processor.Value(), chunks);
    ghost var whole := ReadChunks(processor.Value(), chunks);
    msgs, ec := [], None;
    assert chunks[0..] == chunks;
    PrependNothing(whole);
    var i := 0;
    while i < |chunks|
      invariant 0 <= i <= |chunks| && Reading(processor.Value()) && ec.None?
      invariant whole == Prepend(msgs, ReadChunks(processor.Value(), chunks[i..]))
    {
      ReadChunksStep(processor.Value(), chunks, i, msgs);
      var more;
      more, ec := processor.HandleRead(chunks[i]);
      msgs := msgs + more;
      if ec.Some? { return; }
      i := i + 1;
    }
    assert chunks[i..] == [];
    NoMoreReads(processor.Value(), msgs);
  }

  lemma NoMoreReads(d: Decoder, msgs: seq<seq<Byte>>)
    requires Reading(d)
    ensures Prepend(msgs, ReadChunks(d, [])) == Delivery(d, msgs, None)
  {
    assert msgs + [] == msgs;
  }

  lemma ReadChunksStep(d: Decoder, chunks: seq<seq<Byte>>, i: nat, msgs: seq<seq<Byte>>)
    requires Reading(d) && i < |chunks|
    ensures var first, all := ReadLoop(d, chunks[i]), Prepend(msgs, ReadChunks(d, chunks[i..]));
            if first.ec.Some? then all == first.(msgs := msgs + first.msgs)
            else Reading(first.d) && all == Prepend(msgs + first.msgs, ReadChunks(first.d, chunks[i + 1..]))
  {
    hide ReadLoop;
    ReadLoopReading(d, chunks[i]);
    var first, later := ReadLoop(d, chunks[i]), chunks[i + 1..];
    assert chunks[i..][1..] == later;
    if first.ec.None? {
      var rest := ReadChunks(first.d, later);
      hide ReadChunks;
      assert msgs + (first.msgs + rest.msgs) == msgs + first.msgs + rest.msgs;
    }
  }

  /** Fills the outgoing message, or says why the message cannot be sent. */
  method PrepareDataFrame(input: MessageBuffer?, out: MessageBuffer?) returns (ec: Option<Error>)
    modifies out
    ensures ec == if input == null || out == null then Some(InvalidArguments)
                  else if old(input.opcode) != TEXT then Some(InvalidOpcode)
                  else if !Utf8.Accepts(old(input.payload)) then Some(InvalidPayload)
                  else None
    ensures ec.None? ==>
              && out.prepared && out.opcode == old(out.opcode)
              && out.header == [HDR] && out.header + out.payload == Frame(old(input.payload))
    ensures ec.Some? ==> out == null || unchanged(out)
  {
    if input == null || out == null { return Some(InvalidArguments); }
    if input.opcode != TEXT { return Some(InvalidOpcode); }
    var i := input.payload;
    var valid := Utf8.Validate(i);
    if !valid { return Some(InvalidPayload); }
    out.header := [HDR];
    out.payload := i;
    out.payload := out.payload + [FTR];
    out.prepared := true;
    assert [HDR] + i + [FTR] == [HDR] + (i + [FTR]);
    ec := None;
  }
}
