/** The sending side and the receiving side together: text messages prepared for Hybi-00,
    pushed by any threads, written in batches, and read back from the bytes on the wire. */
module EndToEnd {
  import opened Messages
  import Hybi00
  import Lifecycle
  import LifecycleProofs
  import Pipeline
  import Utf8

  /** A prepared message that carries a text the processor accepts. */
  predicate CarriesText(m: Message, text: seq<Byte>) {
    Utf8.Accepts(text) && m.header + m.payload == Hybi00.Frame(text) && !m.terminal
  }

  predicate Carries(msgs: seq<Message>, texts: seq<seq<Byte>>) {
    |msgs| == |texts| && forall i | 0 <= i < |msgs| :: CarriesText(msgs[i], texts[i])
  }

  lemma {:induction false} WireOfFrames(msgs: seq<Message>, texts: seq<seq<Byte>>)
    requires Carries(msgs, texts)
    ensures WireBytes(msgs) == Hybi00.Frames(texts)
  {
    hide Utf8.Accepts, Hybi00.Frame;
    if msgs != [] {
      assert CarriesText(msgs[0], texts[0]);
      WireOfFrames(msgs[1..], texts[1..]);
    }
  }

  /** Reading part of some frames delivers the first few of their texts, and no error. */
  lemma PartOfFrames(texts: seq<seq<Byte>>, chunks: seq<seq<Byte>>, later: seq<Byte>)
    requires forall i | 0 <= i < |texts| :: Utf8.Accepts(texts[i])
    requires Flatten(chunks) + later == Hybi00.Frames(texts)
    ensures var r := Hybi00.ReadChunks(Hybi00.START, chunks); r.ec.None? && r.msgs <= texts
  {
    hide Utf8.Accepts;
    var whole, part := Hybi00.Frames(texts), Flatten(chunks);
    assert Flatten([whole]) == whole + Flatten([whole][1..]) == whole;
    Hybi00.RoundTrip(texts, [whole]);
    Hybi00.ChunkingIsInvisible(Hybi00.START, [whole]);
    Hybi00.ChunkingIsInvisible(Hybi00.START, chunks);
    Hybi00.ReadLoopByByte(Hybi00.START, whole);
    Hybi00.ReadLoopByByte(Hybi00.START, part);
    Hybi00.ByByteConcat(Hybi00.START, part, later);
  }

  /** At any point of any interleaving, a peer that has read any part of what was given to the
      transport, in chunks of any size, has been delivered a prefix of the texts in the order
      they were pushed. */
  lemma AlwaysAPrefix(threads: nat, es: seq<Pipeline.Event>, texts: seq<seq<Byte>>,
                      chunks: seq<seq<Byte>>, later: seq<Byte>)
    requires Pipeline.ValidRun(Pipeline.Init(threads), es)
    requires Carries(Pipeline.Run(Pipeline.Init(threads), es).pushed, texts)
    requires Flatten(chunks) + later == Pipeline.Run(Pipeline.Init(threads), es).wire
    ensures var r := Hybi00.ReadChunks(Hybi00.START, chunks); r.ec.None? && r.msgs <= texts
  {
    hide Utf8.Accepts, Hybi00.Frame;
    var s := Pipeline.Run(Pipeline.Init(threads), es);
    Pipeline.EveryRun(threads, es);
    var handed := Pipeline.Handed(s);
    var n := |handed|;
    assert handed == s.pushed[..n];
    assert Carries(handed, texts[..n]) by {
      forall i | 0 <= i < n
        ensures CarriesText(handed[i], texts[..n][i])
      {
        assert CarriesText(s.pushed[i], texts[i]);
      }
    }
    WireOfFrames(handed, texts[..n]);
    assert forall i | 0 <= i < n :: Utf8.Accepts(texts[..n][i]) by {
      forall i | 0 <= i < n
        ensures Utf8.Accepts(texts[..n][i])
      {
        assert CarriesText(handed[i], texts[..n][i]);
      }
    }
    PartOfFrames(texts[..n], chunks, later);
  }

  /** When a run without transport errors has come to rest and the peer has read everything,
      it has been delivered exactly the texts pushed. */
  lemma EverythingDelivered(threads: nat, es: seq<Pipeline.Event>, texts: seq<seq<Byte>>, chunks: seq<seq<Byte>>)
    requires Pipeline.ValidRun(Pipeline.Init(threads), es) && Pipeline.Clean(es)
    requires var s := Pipeline.Run(Pipeline.Init(threads), es);
             Pipeline.Quiescent(s) && Carries(s.pushed, texts) && Flatten(chunks) == s.wire
    ensures Hybi00.ReadChunks(Hybi00.START, chunks) == Hybi00.Delivery(Hybi00.START, texts, None)
  {
    hide Utf8.Accepts, Hybi00.Frame;
    var s := Pipeline.Run(Pipeline.Init(threads), es);
    Pipeline.CleanRunsWriteEverything(threads, es);
    WireOfFrames(s.pushed, texts);
    forall i | 0 <= i < |texts|
      ensures Utf8.Accepts(texts[i])
    {
      assert CarriesText(s.pushed[i], texts[i]);
    }
    Hybi00.RoundTrip(texts, chunks);
  }

  // ---- the close handshake on the wire ----

  function MessagesOf(frames: seq<Lifecycle.Frame>): seq<Message> {
    seq(|frames|, i requires 0 <= i < |frames| => frames[i].msg)
  }

  /** When the pipeline is given the frames of a session, in any interleaving of its threads:
      what is on the wire is a prefix of those frames, in it nothing but close frames follows a
      close frame, and an acknowledgement, if there is one, is the last frame of all, although
      a session may push another close frame after it. */
  lemma CloseOnTheWire(c: Lifecycle.Config, es: seq<Lifecycle.Event>, threads: nat, steps: seq<Pipeline.Event>)
    requires Lifecycle.ValidRun(c, Lifecycle.INIT, es)
    requires Pipeline.ValidRun(Pipeline.Init(threads), steps)
    requires Pipeline.Run(Pipeline.Init(threads), steps).pushed
          == MessagesOf(Lifecycle.Run(c, Lifecycle.INIT, es).log.pushed)
    ensures var p, s := Lifecycle.Run(c, Lifecycle.INIT, es).log.pushed, Pipeline.Run(Pipeline.Init(threads), steps);
            var n := |Pipeline.Handed(s)|;
            && n <= |p| && s.wire == WireBytes(MessagesOf(p[..n]))
            && LifecycleProofs.NothingAfterClose(p[..n])
            && (forall i | 0 <= i < n && p[i].CloseFrame? && p[i].ack :: i == n - 1)
  {
    hide Pipeline.Step, Lifecycle.Step;
    var l := Lifecycle.Run(c, Lifecycle.INIT, es).log;
    var p := l.pushed;
    var s := Pipeline.Run(Pipeline.Init(threads), steps);
    LifecycleProofs.FromStart(c, es);
    Pipeline.EveryRun(threads, steps);
    var handed := Pipeline.Handed(s);
    var n := |handed|;
    assert handed == s.pushed[..n] == MessagesOf(p[..n]);
    forall i | 0 <= i < n && p[i].CloseFrame? && p[i].ack
      ensures i == n - 1
    {
      assert LifecycleProofs.Answered(c, l.received, p[i]) && handed[i] == p[i].msg;
    }
  }
}
