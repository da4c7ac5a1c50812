/** Bytes and outgoing messages, shared by the send pipeline and the connection lifecycle. */
module Messages {

  type Byte = b: int | 0 <= b < 256

  datatype Option<+T> = None | Some(value: T)

  /** A prepared message: frame header, payload, and the flag that says that the
      transport must be closed once the message has been written. */
  datatype Message = Message(header: seq<Byte>, payload: seq<Byte>, terminal: bool)

  /** The two transport buffers that one message contributes to a write. */
  function Buffers(msgs: seq<Message>): seq<seq<Byte>> {
    if msgs == [] then [] else [msgs[0].header, msgs[0].payload] + Buffers(msgs[1..])
  }

  /** Pieces joined: the buffers of a scatter/gather write, the reads of a connection. */
  function Flatten(bufs: seq<seq<Byte>>): seq<Byte> {
    if bufs == [] then [] else bufs[0] + Flatten(bufs[1..])
  }

  function WireBytes(msgs: seq<Message>): seq<Byte> {
    if msgs == [] then [] else msgs[0].header + msgs[0].payload + WireBytes(msgs[1..])
  }

  function PayloadBytes(msgs: seq<Message>): nat {
    if msgs == [] then 0 else |msgs[0].payload| + PayloadBytes(msgs[1..])
  }

  predicate NoTerminal(msgs: seq<Message>) {
    forall i | 0 <= i < |msgs| :: !msgs[i].terminal
  }

  predicate TerminalOnlyLast(msgs: seq<Message>) {
    forall i | 0 <= i < |msgs| - 1 :: !msgs[i].terminal
  }

  lemma {:induction false} BuffersConcat(a: seq<Message>, b: seq<Message>)
    ensures Buffers(a + b) == Buffers(a) + Buffers(b)
  {
    if a == [] {
      assert a + b == b;
    } else {
      assert (a + b)[1..] == a[1..] + b;
      BuffersConcat(a[1..], b);
    }
  }

  lemma {:induction false} WireBytesConcat(a: seq<Message>, b: seq<Message>)
    ensures WireBytes(a + b) == WireBytes(a) + WireBytes(b)
  {
    if a == [] {
      assert a + b == b;
    } else {
      assert (a + b)[1..] == a[1..] + b;
      WireBytesConcat(a[1..], b);
    }
  }

  lemma {:induction false} PayloadBytesConcat(a: seq<Message>, b: seq<Message>)
    ensures PayloadBytes(a + b) == PayloadBytes(a) + PayloadBytes(b)
  {
    if a == [] {
      assert a + b == b;
    } else {
      assert (a + b)[1..] == a[1..] + b;
      PayloadBytesConcat(a[1..], b);
    }
  }

  /** Handing the buffers to the transport sends each header, then its payload. */
  lemma {:induction false} FlattenBuffers(msgs: seq<Message>)
    ensures Flatten(Buffers(msgs)) == WireBytes(msgs)
  {
    if msgs != [] {
      var h, p, rest := msgs[0].header, msgs[0].payload, Buffers(msgs[1..]);
      FlattenBuffers(msgs[1..]);
      assert ([h, p] + rest)[1..] == [p] + rest && ([p] + rest)[1..] == rest;
      assert Flatten([p] + rest) == p + Flatten(rest);
      assert h + (p + Flatten(rest)) == h + p + Flatten(rest);
    }
  }

  lemma TerminalOnlyLastAppend(a: seq<Message>, b: seq<Message>)
    requires NoTerminal(a) && b != [] && TerminalOnlyLast(b)
    ensures TerminalOnlyLast(a + b) && (a + b)[|a + b| - 1] == b[|b| - 1]
  {
  }

  lemma {:induction false} FlattenConcat(a: seq<seq<Byte>>, b: seq<seq<Byte>>)
    ensures Flatten(a + b) == Flatten(a) + Flatten(b)
  {
    if a == [] {
      assert a + b == b;
    } else {
      assert (a + b)[1..] == a[1..] + b;
      FlattenConcat(a[1..], b);
    }
  }

  lemma FlattenOne(piece: seq<Byte>)
    ensures Flatten([piece]) == piece
  {
    var one := [piece];
    assert Flatten(one) == piece + Flatten(one[1..]);
  }

  lemma FlattenSplit(pieces: seq<seq<Byte>>, i: nat)
    requires i <= |pieces|
    ensures Flatten(pieces) == Flatten(pieces[..i]) + Flatten(pieces[i..])
  {
    hide Flatten;
    assert pieces == pieces[..i] + pieces[i..];
    FlattenConcat(pieces[..i], pieces[i..]);
  }

  lemma FlattenSnoc(pieces: seq<seq<Byte>>, i: nat)
    requires i < |pieces|
    ensures Flatten(pieces[..i + 1]) == Flatten(pieces[..i]) + pieces[i]
    ensures Flatten(pieces) == Flatten(pieces[..i + 1]) + Flatten(pieces[i + 1..])
  {
    hide Flatten;
    assert pieces[..i + 1] == pieces[..i] + [pieces[i]];
    FlattenConcat(pieces[..i], [pieces[i]]);
    FlattenOne(pieces[i]);
    FlattenSplit(pieces, i + 1);
  }

  /** The bytes of a text of ASCII characters. */
  function Ascii(text: string): (bytes: seq<Byte>)
    ensures |bytes| == |text|
  {
    seq(|text|, i requires 0 <= i < |text| => text[i] as nat % 256)
  }
}
