/** The send pipeline as a step machine. Every section that runs under m_write_lock is one
    atomic step; everything a thread does between two sections is a state of its own, so a
    run is any interleaving of any number of threads.

    send, ping, pong and send_close_frame all end alike: push under the lock, note whether a
    write is needed, release the lock, and then dispatch write_frame if it is. */
module Pipeline {
  import opened Messages
  import opened SendQueue

  /** What a thread is in the middle of. */
  datatype Thread =
    | Idle
    | Owes(needsWriting: bool)                // left the lock, has not dispatched yet
    | Owning                                  // write_frame took a batch, async_write not called
    | Finishing(terminal: bool, failed: bool) // handle_write_frame cleared the batch

  datatype System = System(
    w: Writer,
    threads: seq<Thread>,
    dispatched: nat,          // write_frame runs waiting in the transport
    outstanding: nat,         // async_write calls whose handler has not run
    ended: bool,              // the write path called terminate
    undefined: bool,          // back() was taken of an empty batch
    pushed: seq<Message>,     // everything ever pushed
    written: seq<Message>,    // batches whose completion handler has run
    wire: seq<Byte>)          // bytes handed to the transport

  datatype Event =
    | PushMessage(t: nat, msg: Message)
    | Dispatch(t: nat)
    | RunWriteFrame(t: nat)
    | CallTransport(t: nat)
    | Complete(t: nat, failed: bool)
    | Release(t: nat)

  function Init(threads: nat): System {
    System(EMPTY, seq(threads, _ => Idle), 0, 0, false, false, [], [], [])
  }

  predicate Enabled(s: System, e: Event) {
    && e.t < |s.threads|
    && match e
       case PushMessage(t, _) => s.threads[t] == Idle
       case Dispatch(t) => s.threads[t].Owes?
       case RunWriteFrame(t) => s.threads[t] == Idle && s.dispatched > 0
       case CallTransport(t) => s.threads[t] == Owning
       case Complete(t, _) => s.threads[t] == Idle && s.outstanding > 0
       case Release(t) => s.threads[t].Finishing?
  }

  function Step(s: System, e: Event): System
    requires Enabled(s, e)
  {
    match e
    case PushMessage(t, msg) =>
      var w := Push(s.w, msg);
      s.(w := w, pushed := s.pushed + [msg],
         threads := s.threads[t := Owes(!w.writing && w.queue != [])])
    case Dispatch(t) =>
      s.(threads := s.threads[t := Idle],
         dispatched := s.dispatched + (if s.threads[t].needsWriting then 1 else 0))
    case RunWriteFrame(t) =>
      var own := !s.w.writing && Begin(s.w).writing;
      s.(w := Begin(s.w), dispatched := s.dispatched - 1,
         threads := s.threads[t := if own then Owning else Idle])
    case CallTransport(t) =>
      var w := Fill(s.w);
      s.(w := w, wire := s.wire + Flatten(w.buffers), outstanding := s.outstanding + 1,
         threads := s.threads[t := Idle])
    case Complete(t, failed) =>
      if s.w.current == [] then s.(undefined := true, outstanding := s.outstanding - 1)
      else
        var terminal := s.w.current[|s.w.current| - 1].terminal;
        s.(w := Clear(s.w), written := s.written + s.w.current, outstanding := s.outstanding - 1,
           threads := s.threads[t := Finishing(terminal, failed)])
    case Release(t) =>
      if s.threads[t].failed || s.threads[t].terminal then
        s.(ended := true, threads := s.threads[t := Idle])
      else
        s.(w := s.w.(writing := false), threads := s.threads[t := Owes(s.w.queue != [])])
  }

  predicate ValidRun(s: System, es: seq<Event>)
    decreases |es|
  {
    es == [] || (Enabled(s, es[0]) && ValidRun(Step(s, es[0]), es[1..]))
  }

  function Run(s: System, es: seq<Event>): System
    requires ValidRun(s, es)
    decreases |es|
  {
    if es == [] then s else Run(Step(s, es[0]), es[1..])
  }

  /** The messages whose bytes have been given to the transport. */
  function Handed(s: System): seq<Message> {
    if s.outstanding > 0 then s.written + s.w.current else s.written
  }

  // ---- counting threads ----

  function Weight(t: Thread, owning: nat, finishing: nat, owes: nat, left: nat): nat {
    match t
    case Idle => 0
    case Owes(needs) => if needs then owes else left
    case Owning => owning
    case Finishing(_, _) => finishing
  }

  function Sum(ts: seq<Thread>, owning: nat, finishing: nat, owes: nat, left: nat): nat {
    if ts == [] then 0
    else Weight(ts[0], owning, finishing, owes, left) + Sum(ts[1..], owning, finishing, owes, left)
  }

  function OwningThreads(ts: seq<Thread>): nat { Sum(ts, 1, 0, 0, 0) }
  function FinishingThreads(ts: seq<Thread>): nat { Sum(ts, 0, 1, 0, 0) }
  function OwingThreads(ts: seq<Thread>): nat { Sum(ts, 0, 0, 1, 0) }

  lemma {:induction false} SumUpdate(ts: seq<Thread>, i: nat, t: Thread, a: nat, b: nat, c: nat, d: nat)
    requires i < |ts|
    ensures Sum(ts[i := t], a, b, c, d) == Sum(ts, a, b, c, d) - Weight(ts[i], a, b, c, d) + Weight(t, a, b, c, d)
    ensures Sum(ts, a, b, c, d) >= Weight(ts[i], a, b, c, d)
  {
    if i == 0 {
      assert ts[0 := t][1..] == ts[1..];
    } else {
      assert ts[i := t][1..] == ts[1..][i - 1 := t];
      SumUpdate(ts[1..], i - 1, t, a, b, c, d);
    }
  }

  lemma {:induction false} SumPositive(ts: seq<Thread>, a: nat, b: nat, c: nat, d: nat) returns (i: nat)
    requires Sum(ts, a, b, c, d) > 0
    ensures i < |ts| && Weight(ts[i], a, b, c, d) > 0
  {
    if Weight(ts[0], a, b, c, d) > 0 { return 0; }
    i := SumPositive(ts[1..], a, b, c, d);
    i := i + 1;
  }

  lemma {:induction false} SumOfIdle(n: nat, a: nat, b: nat, c: nat, d: nat)
    ensures Sum(seq(n, _ => Idle), a, b, c, d) == 0
  {
    if n > 0 {
      assert seq(n, _ => Idle)[1..] == seq(n - 1, _ => Idle);
      SumOfIdle(n - 1, a, b, c, d);
    }
  }

  // ---- what every step keeps ----

  /** Every message pushed is in exactly one place, in push order. */
  predicate Conserved(s: System) {
    s.written + s.w.current + s.w.queue == s.pushed
  }

  predicate OnTheWire(s: System) {
    && s.wire == WireBytes(Handed(s))
    && s.w.buffers == (if s.outstanding > 0 then Buffers(s.w.current) else [])
  }

  /** The write flag has one owner: a thread, an outstanding write, or nobody once writing ended. */
  predicate OneOwner(s: System) {
    && OwningThreads(s.threads) + FinishingThreads(s.threads) + s.outstanding + (if s.ended then 1 else 0)
       == (if s.w.writing then 1 else 0)
    && (s.w.current != [] <==> OwningThreads(s.threads) + s.outstanding == 1)
    && !s.undefined
  }

  /** Terminal messages stand only at the very end of what was taken from the queue. */
  predicate TerminalLast(s: System) {
    && (!s.w.writing || s.w.current != [] ==> NoTerminal(s.written))
    && TerminalOnlyLast(s.written)
    && TerminalOnlyLast(s.w.current)
    && (forall t | 0 <= t < |s.threads| && s.threads[t].Finishing? ::
          s.written != [] && s.threads[t].terminal == s.written[|s.written| - 1].terminal)
  }

  predicate NoLostWakeup(s: System) {
    s.w.queue != [] && !s.w.writing ==> s.dispatched > 0 || OwingThreads(s.threads) > 0
  }

  predicate Inv(s: System) {
    Conserved(s) && SizeOk(s.w) && OnTheWire(s) && OneOwner(s) && TerminalLast(s) && NoLostWakeup(s)
  }

  lemma InitInv(n: nat)
    ensures Inv(Init(n))
  {
    SumOfIdle(n, 1, 0, 0, 0);
    SumOfIdle(n, 0, 1, 0, 0);
    SumOfIdle(n, 0, 0, 1, 0);
  }

  lemma ThreadMoves(s: System, i: nat, t: Thread)
    requires i < |s.threads|
    ensures OwningThreads(s.threads[i := t]) ==
            OwningThreads(s.threads) - Weight(s.threads[i], 1, 0, 0, 0) + Weight(t, 1, 0, 0, 0)
    ensures FinishingThreads(s.threads[i := t]) ==
            FinishingThreads(s.threads) - Weight(s.threads[i], 0, 1, 0, 0) + Weight(t, 0, 1, 0, 0)
    ensures OwingThreads(s.threads[i := t]) ==
            OwingThreads(s.threads) - Weight(s.threads[i], 0, 0, 1, 0) + Weight(t, 0, 0, 1, 0)
  {
    SumUpdate(s.threads, i, t, 1, 0, 0, 0);
    SumUpdate(s.threads, i, t, 0, 1, 0, 0);
    SumUpdate(s.threads, i, t, 0, 0, 1, 0);
  }

  lemma PushKeepsInv(s: System, t: nat, msg: Message)
    requires Inv(s) && Enabled(s, PushMessage(t, msg))
    ensures Inv(Step(s, PushMessage(t, msg)))
  {
    ThreadMoves(s, t, Step(s, PushMessage(t, msg)).threads[t]);
    PushKeepsSize(s.w, msg);
    assert s.written + s.w.current + (s.w.queue + [msg]) == s.written + s.w.current + s.w.queue + [msg];
  }

  lemma DispatchKeepsInv(s: System, t: nat)
    requires Inv(s) && Enabled(s, Dispatch(t))
    ensures Inv(Step(s, Dispatch(t)))
  {
    ThreadMoves(s, t, Idle);
  }

  lemma RunWriteFrameKeepsInv(s: System, t: nat)
    requires Inv(s) && Enabled(s, RunWriteFrame(t))
    ensures Inv(Step(s, RunWriteFrame(t)))
  {
    var b := Batch(s.w.queue);
    BatchShape(s.w.queue);
    if s.w.writing || b == [] {
      assert Begin(s.w) == s.w;
      ThreadMoves(s, t, Idle);
    } else {
      BatchTaken(s.w, b);
      OwnKeepsInv(s, t, b);
    }
  }

  lemma OwnKeepsInv(s: System, t: nat, b: seq<Message>)
    requires Inv(s) && Enabled(s, RunWriteFrame(t)) && !s.w.writing
    requires b != [] && |b| <= |s.w.queue| && b == s.w.queue[..|b|] && TerminalOnlyLast(b)
    ensures Inv(s.(w := Remove(s.w, |b|).(writing := true, current := b), dispatched := s.dispatched - 1,
                   threads := s.threads[t := Owning]))
  {
    var s' := s.(w := Remove(s.w, |b|).(writing := true, current := b), dispatched := s.dispatched - 1,
                   threads := s.threads[t := Owning]);
    ThreadMoves(s, t, Owning);
    RemoveKeepsSize(s.w, |b|);
    assert SizeOk(s'.w);
    assert Conserved(s');
    assert OneOwner(s');
    assert OnTheWire(s');
    assert TerminalLast(s');
    assert NoLostWakeup(s');
  }

  lemma BatchTaken(w: Writer, b: seq<Message>)
    requires !w.writing && w.current == [] && b == Batch(w.queue) && b != []
    ensures |b| <= |w.queue| && b == w.queue[..|b|] && TerminalOnlyLast(b)
    ensures Begin(w) == Remove(w, |b|).(writing := true, current := b)
  {
    BatchShape(w.queue);
    assert w.current + b == b;
  }

  lemma CallTransportKeepsInv(s: System, t: nat)
    requires Inv(s) && Enabled(s, CallTransport(t))
    ensures Inv(Step(s, CallTransport(t)))
  {
    ThreadMoves(s, t, Idle);
    assert [] + Buffers(s.w.current) == Buffers(s.w.current);
    FlattenBuffers(s.w.current);
    WireBytesConcat(s.written, s.w.current);
  }

  lemma CompleteKeepsInv(s: System, t: nat, failed: bool)
    requires Inv(s) && Enabled(s, Complete(t, failed))
    ensures Inv(Step(s, Complete(t, failed)))
  {
    CompleteKeepsOwner(s, t, failed);
    CompleteKeepsMessages(s, t, failed);
    NobodyFinishing(s);
    CompleteKeepsOrder(s, t, failed);
    CompleteKeepsWakeup(s, t, failed);
    hide Conserved, OnTheWire, OneOwner, TerminalLast, NoLostWakeup;
  }

  lemma CompleteKeepsOwner(s: System, t: nat, failed: bool)
    requires OneOwner(s) && Enabled(s, Complete(t, failed))
    ensures OneOwner(Step(s, Complete(t, failed)))
    ensures s.w.current != [] && s.w.writing && s.outstanding == 1 && FinishingThreads(s.threads) == 0
  {
    ThreadMoves(s, t, Step(s, Complete(t, failed)).threads[t]);
    hide Sum;
  }

  lemma CompleteKeepsMessages(s: System, t: nat, failed: bool)
    requires Conserved(s) && OnTheWire(s) && SizeOk(s.w) && Enabled(s, Complete(t, failed))
    requires s.w.current != [] && s.outstanding == 1
    ensures var s' := Step(s, Complete(t, failed)); Conserved(s') && OnTheWire(s') && SizeOk(s'.w)
  {
    hide WireBytes, PayloadBytes, Wrap, Buffers;
    assert s.written + s.w.current + [] + s.w.queue == s.written + s.w.current + s.w.queue;
  }

  lemma CompleteKeepsWakeup(s: System, t: nat, failed: bool)
    requires s.w.current != [] && s.w.writing && Enabled(s, Complete(t, failed))
    ensures NoLostWakeup(Step(s, Complete(t, failed)))
  {
  }

  lemma CompleteKeepsOrder(s: System, t: nat, failed: bool)
    requires Enabled(s, Complete(t, failed)) && TerminalLast(s) && s.w.current != [] && s.w.writing
    requires forall i | 0 <= i < |s.threads| :: !s.threads[i].Finishing?
    ensures TerminalLast(Step(s, Complete(t, failed)))
  {
    TerminalOnlyLastAppend(s.written, s.w.current);
  }

  lemma NobodyFinishing(s: System)
    requires FinishingThreads(s.threads) == 0
    ensures forall i | 0 <= i < |s.threads| :: !s.threads[i].Finishing?
  {
    forall i | 0 <= i < |s.threads|
      ensures !s.threads[i].Finishing?
    {
      SumUpdate(s.threads, i, Idle, 0, 1, 0, 0);
    }
  }

  lemma ReleaseKeepsInv(s: System, t: nat)
    requires Inv(s) && Enabled(s, Release(t))
    ensures Inv(Step(s, Release(t)))
  {
    ThreadMoves(s, t, Step(s, Release(t)).threads[t]);
  }

  lemma StepKeepsInv(s: System, e: Event)
    requires Inv(s) && Enabled(s, e)
    ensures Inv(Step(s, e))
  {
    match e
    case PushMessage(t, msg) => PushKeepsInv(s, t, msg);
    case Dispatch(t) => DispatchKeepsInv(s, t);
    case RunWriteFrame(t) => RunWriteFrameKeepsInv(s, t);
    case CallTransport(t) => CallTransportKeepsInv(s, t);
    case Complete(t, failed) => CompleteKeepsInv(s, t, failed);
    case Release(t) => ReleaseKeepsInv(s, t);
  }

  /** A thread that leaves the lock dispatches write_frame exactly if it leaves a queue that
      nobody is writing. */
  lemma WakesExactly(s: System, e: Event)
    requires Enabled(s, e) && (e.PushMessage? || e.Release?)
    ensures var s' := Step(s, e);
            s'.threads[e.t].Owes? ==> (s'.threads[e.t].needsWriting <==> !s'.w.writing && s'.w.queue != [])
    ensures e.PushMessage? ==> Step(s, e).threads[e.t].Owes?
    ensures e.Release? ==>
              (Step(s, e).threads[e.t].Owes? <==> !s.threads[e.t].failed && !s.threads[e.t].terminal)
  {
  }

  // ---- whole runs ----

  lemma {:induction false} RunKeepsInv(s: System, es: seq<Event>)
    requires Inv(s) && ValidRun(s, es)
    ensures Inv(Run(s, es))
    decreases |es|
  {
    if es != [] {
      StepKeepsInv(s, es[0]);
      RunKeepsInv(Step(s, es[0]), es[1..]);
    }
  }

  /** In every run, under every interleaving: what the wire got, then the batch being
      written, then the queue are together exactly what was pushed, in order; the wire holds
      each handed message's header then payload; the size counter is right; at most one write
      is outstanding; and the completion handler always finds a batch. */
  lemma EveryRun(threads: nat, es: seq<Event>)
    requires ValidRun(Init(threads), es)
    ensures var s := Run(Init(threads), es);
            && s.written + s.w.current + s.w.queue == s.pushed
            && s.wire == WireBytes(Handed(s))
            && s.w.buffered == Wrap(PayloadBytes(s.w.queue))
            && (PayloadBytes(s.w.queue) < SIZE_MODULUS ==> s.w.buffered == PayloadBytes(s.w.queue))
            && s.outstanding <= 1 && !s.undefined
            && (s.outstanding == 1 ==> s.w.writing && s.w.current != [])
            && TerminalOnlyLast(Handed(s))
  {
    InitInv(threads);
    RunKeepsInv(Init(threads), es);
    hide Wrap;
    var s := Run(Init(threads), es);
    hide Run;
    if s.outstanding > 0 { TerminalOnlyLastAppend(s.written, s.w.current); }
    if PayloadBytes(s.w.queue) < SIZE_MODULUS { CountedExactly(s.w); }
  }

  /** Nobody is doing anything and nothing is going to. */
  predicate Quiescent(s: System) {
    && s.dispatched == 0 && s.outstanding == 0
    && (forall t | 0 <= t < |s.threads| :: s.threads[t] == Idle)
  }

  lemma {:induction false} IdleSum(ts: seq<Thread>, a: nat, b: nat, c: nat, d: nat)
    requires forall t | 0 <= t < |ts| :: ts[t] == Idle
    ensures Sum(ts, a, b, c, d) == 0
  {
    if ts != [] { IdleSum(ts[1..], a, b, c, d); }
  }

  /** No lost wakeup: a run that has come to rest has written every message that was pushed,
      unless a terminal message or a transport error ended writing. */
  lemma NothingLeftBehind(threads: nat, es: seq<Event>)
    requires ValidRun(Init(threads), es) && Quiescent(Run(Init(threads), es))
    ensures var s := Run(Init(threads), es);
            s.ended || (s.w.queue == [] && s.written == s.pushed && s.wire == WireBytes(s.pushed))
  {
    InitInv(threads);
    RunKeepsInv(Init(threads), es);
    AtRest(Run(Init(threads), es));
  }

  lemma AtRest(s: System)
    requires Inv(s) && Quiescent(s)
    ensures s.w.current == [] && s.written + s.w.queue == s.pushed && s.wire == WireBytes(s.written)
    ensures TerminalOnlyLast(s.written)
    ensures !s.ended ==> NoTerminal(s.written) && s.w.queue == [] && s.written == s.pushed
  {
    hide SizeOk, WireBytes, Buffers;
    IdleSum(s.threads, 1, 0, 0, 0);
    IdleSum(s.threads, 0, 1, 0, 0);
    IdleSum(s.threads, 0, 0, 1, 0);
    assert s.written + [] + s.w.queue == s.written + s.w.queue;
    assert s.written + [] == s.written;
  }

  predicate Clean(es: seq<Event>) {
    forall i | 0 <= i < |es| ::
      (es[i].PushMessage? ==> !es[i].msg.terminal) && (es[i].Complete? ==> !es[i].failed)
  }

  predicate Unended(s: System) {
    && !s.ended && NoTerminal(s.pushed)
    && (forall t | 0 <= t < |s.threads| && s.threads[t].Finishing? ::
          !s.threads[t].terminal && !s.threads[t].failed)
  }

  lemma CleanStep(s: System, e: Event)
    requires Inv(s) && Unended(s) && Enabled(s, e) && Clean([e])
    ensures Unended(Step(s, e))
  {
    hide SizeOk, OnTheWire, OneOwner, TerminalLast, NoLostWakeup, Flatten, Buffers, Batch;
    assert e == [e][0];
    if e.Complete? && s.w.current != [] { LastPushed(s); }
  }

  /** The last message of the current batch is one that was pushed. */
  lemma LastPushed(s: System)
    requires Conserved(s) && s.w.current != []
    ensures s.w.current[|s.w.current| - 1] in s.pushed
  {
    var n, m := |s.written|, |s.w.current|;
    assert s.pushed[n + m - 1] == (s.written + s.w.current)[n + m - 1] == s.w.current[m - 1];
  }

  lemma {:induction false} CleanRun(s: System, es: seq<Event>)
    requires Inv(s) && Unended(s) && ValidRun(s, es) && Clean(es)
    ensures Unended(Run(s, es))
    decreases |es|
  {
    if es != [] {
      CleanStep(s, es[0]);
      StepKeepsInv(s, es[0]);
      CleanRun(Step(s, es[0]), es[1..]);
    }
  }

  /** Without terminal messages and transport errors, a run at rest has written everything. */
  lemma CleanRunsWriteEverything(threads: nat, es: seq<Event>)
    requires ValidRun(Init(threads), es) && Clean(es) && Quiescent(Run(Init(threads), es))
    ensures var s := Run(Init(threads), es);
            s.w.queue == [] && s.written == s.pushed && s.wire == WireBytes(s.pushed)
  {
    InitInv(threads);
    CleanRun(Init(threads), es);
    NothingLeftBehind(threads, es);
  }

  // ---- exactly what is written ----

  predicate NoFailure(es: seq<Event>) {
    forall i | 0 <= i < |es| && es[i].Complete? :: !es[i].failed
  }

  /** If writing has ended, a terminal message ended it. */
  predicate EndedByTerminal(s: System) {
    && (forall t | 0 <= t < |s.threads| && s.threads[t].Finishing? :: !s.threads[t].failed)
    && (s.ended ==> s.written != [] && s.written[|s.written| - 1].terminal)
  }

  lemma EndedByTerminalStep(s: System, e: Event)
    requires Inv(s) && EndedByTerminal(s) && Enabled(s, e) && NoFailure([e])
    ensures EndedByTerminal(Step(s, e))
  {
    hide Conserved, SizeOk, OnTheWire, NoLostWakeup, NoTerminal, TerminalOnlyLast;
    assert e == [e][0];
    if s.ended { NobodyBusyAfterEnd(s); }
  }

  lemma NobodyBusyAfterEnd(s: System)
    requires Inv(s) && s.ended
    ensures s.outstanding == 0
  {
  }

  lemma {:induction false} EndedByTerminalRun(s: System, es: seq<Event>)
    requires Inv(s) && EndedByTerminal(s) && ValidRun(s, es) && NoFailure(es)
    ensures EndedByTerminal(Run(s, es))
    decreases |es|
  {
    hide Inv, Step, EndedByTerminal;
    if es != [] {
      assert es[0] == [es[0]][0];
      EndedByTerminalStep(s, es[0]);
      StepKeepsInv(s, es[0]);
      EndedByTerminalRun(Step(s, es[0]), es[1..]);
    }
  }

  /** If no write fails, a run at rest has written everything up to and including the first
      terminal message pushed, and nothing else. */
  lemma WritesOneBatch(threads: nat, es: seq<Event>)
    requires ValidRun(Init(threads), es) && NoFailure(es) && Quiescent(Run(Init(threads), es))
    ensures var s := Run(Init(threads), es);
            && s.written == Batch(s.pushed) && s.wire == WireBytes(Batch(s.pushed))
            && (s.ended <==> s.written != [] && s.written[|s.written| - 1].terminal)
  {
    var s := Run(Init(threads), es);
    InitInv(threads);
    RunKeepsInv(Init(threads), es);
    EndedByTerminalRun(Init(threads), es);
    hide Run, Inv;
    AtRest(s);
    if s.ended {
      BatchStops(s.written, s.w.queue);
    } else {
      BatchWhole(s.written);
    }
  }

  // ---- a terminal message is the last one handed to the transport ----

  predicate Over(s: System) {
    Handed(s) != [] && Handed(s)[|Handed(s)| - 1].terminal
  }

  lemma OverStep(s: System, e: Event)
    requires Inv(s) && Over(s) && Enabled(s, e)
    ensures Handed(Step(s, e)) == Handed(s) && Step(s, e).wire == s.wire
  {
    hide Conserved, SizeOk, OnTheWire, NoLostWakeup, Flatten, Buffers, Batch, PayloadBytes;
    if e.CallTransport? {
      SumUpdate(s.threads, e.t, Idle, 1, 0, 0, 0);
    }
  }

  lemma {:induction false} OverRun(s: System, es: seq<Event>)
    requires Inv(s) && Over(s) && ValidRun(s, es)
    ensures Handed(Run(s, es)) == Handed(s) && Run(s, es).wire == s.wire
    decreases |es|
  {
    if es != [] {
      OverStep(s, es[0]);
      StepKeepsInv(s, es[0]);
      OverRun(Step(s, es[0]), es[1..]);
    }
  }

  /** Once a terminal message has been handed to the transport, no continuation of the run
      ever hands it another byte. */
  lemma TerminalIsFinal(threads: nat, es: seq<Event>, i: nat, more: seq<Event>)
    requires ValidRun(Init(threads), es)
    requires ValidRun(Run(Init(threads), es), more)
    requires i < |Handed(Run(Init(threads), es))| && Handed(Run(Init(threads), es))[i].terminal
    ensures var s, s' := Run(Init(threads), es), Run(Run(Init(threads), es), more);
            i == |Handed(s)| - 1 && Handed(s') == Handed(s) && s'.wire == s.wire
  {
    EveryRun(threads, es);
    InitInv(threads);
    RunKeepsInv(Init(threads), es);
    OverRun(Run(Init(threads), es), more);
  }

  // ---- a failed write is the last one ----

  /** Writing has ended, or a thread that saw its write fail is about to end it. */
  predicate Failing(s: System) {
    s.ended || exists t | 0 <= t < |s.threads| :: s.threads[t].Finishing? && s.threads[t].failed
  }

  /** Whoever is going to end writing still owns the write flag. */
  lemma FailingOwnsTheFlag(s: System)
    requires OneOwner(s) && Failing(s)
    ensures s.w.writing && s.outstanding == 0 && s.w.current == []
    ensures forall t | 0 <= t < |s.threads| :: s.threads[t] != Owning
  {
    if !s.ended {
      var t :| 0 <= t < |s.threads| && s.threads[t].Finishing? && s.threads[t].failed;
      SumUpdate(s.threads, t, Idle, 0, 1, 0, 0);
    }
    forall t | 0 <= t < |s.threads|
      ensures s.threads[t] != Owning
    {
      SumUpdate(s.threads, t, Idle, 1, 0, 0, 0);
    }
  }

  lemma FailingStep(s: System, e: Event)
    requires OneOwner(s) && Failing(s) && Enabled(s, e)
    ensures var s' := Step(s, e); Failing(s') && s'.wire == s.wire && Handed(s') == Handed(s)
  {
    FailingOwnsTheFlag(s);
    hide OneOwner, Sum, Batch, Buffers, Flatten;
    if !s.ended {
      var t :| 0 <= t < |s.threads| && s.threads[t].Finishing? && s.threads[t].failed;
      assert t != e.t ==> Step(s, e).threads[t] == s.threads[t];
    }
  }

  lemma {:induction false} FailingRun(s: System, es: seq<Event>)
    requires Inv(s) && Failing(s) && ValidRun(s, es)
    ensures var s' := Run(s, es); Failing(s') && s'.wire == s.wire && Handed(s') == Handed(s)
    decreases |es|
  {
    if es != [] {
      StepKeepsInv(s, es[0]);
      FailingStep(s, es[0]);
      hide Inv, Step, Failing, Handed;
      FailingRun(Step(s, es[0]), es[1..]);
    }
  }

  /** A failed write ends writing: from its completion on no run hands the transport another
      message or another byte, whatever is pushed, and once the run is at rest the write path
      has ended the connection. */
  lemma FailureIsFinal(threads: nat, es: seq<Event>, t: nat, more: seq<Event>)
    requires ValidRun(Init(threads), es) && Enabled(Run(Init(threads), es), Complete(t, true))
    requires ValidRun(Step(Run(Init(threads), es), Complete(t, true)), more)
    ensures var s := Run(Init(threads), es);
            var s' := Run(Step(s, Complete(t, true)), more);
            && s'.wire == s.wire && Handed(s') == Handed(s)
            && (Quiescent(s') ==> s'.ended)
  {
    var s := Run(Init(threads), es);
    InitInv(threads);
    RunKeepsInv(Init(threads), es);
    StepKeepsInv(s, Complete(t, true));
    FailureNoted(s, t);
    var s1 := Step(s, Complete(t, true));
    hide Step, Inv, Handed;
    FailingRun(s1, more);
    RestsEnded(Run(s1, more));
  }

  lemma RestsEnded(s: System)
    requires Failing(s)
    ensures Quiescent(s) ==> s.ended
  {
  }

  lemma FailureNoted(s: System, t: nat)
    requires OneOwner(s) && Enabled(s, Complete(t, true))
    ensures var s' := Step(s, Complete(t, true)); Failing(s') && s'.wire == s.wire && Handed(s') == Handed(s)
  {
    CompleteKeepsOwner(s, t, true);
    assert Step(s, Complete(t, true)).threads[t].failed;
  }

  // ---- termination ----

  function Measure(s: System): nat {
    5 * |s.w.queue| + 4 * s.outstanding + s.dispatched + Sum(s.threads, 5, 3, 2, 1)
  }

  lemma StepDecreases(s: System, e: Event)
    requires Inv(s) && Enabled(s, e) && !e.PushMessage?
    ensures Measure(Step(s, e)) < Measure(s) && |Step(s, e).threads| == |s.threads|
  {
    hide Conserved, SizeOk, OnTheWire, TerminalLast, NoLostWakeup;
    SumUpdate(s.threads, e.t, Step(s, e).threads[e.t], 5, 3, 2, 1);
    if e.RunWriteFrame? { BatchIsTaken(s.w); }
  }

  lemma BatchIsTaken(w: Writer)
    ensures !w.writing && Begin(w).writing && w.current == [] ==> |Begin(w).queue| < |w.queue|
    ensures !(!w.writing && Begin(w).writing) ==> Begin(w) == w
  {
    BatchShape(w.queue);
  }

  /** With no further pushes the pipeline comes to rest after a bounded number of steps. */
  lemma {:induction false} RunsAreFinite(s: System, es: seq<Event>)
    requires Inv(s) && ValidRun(s, es)
    requires forall i | 0 <= i < |es| :: !es[i].PushMessage?
    ensures |es| + Measure(Run(s, es)) <= Measure(s)
    decreases |es|
  {
    if es != [] {
      StepDecreases(s, es[0]);
      StepKeepsInv(s, es[0]);
      RunsAreFinite(Step(s, es[0]), es[1..]);
    }
  }

  /** ... and it is never stuck before that: one thread is enough to go on. */
  lemma Progress(s: System) returns (e: Event)
    requires |s.threads| > 0 && !Quiescent(s)
    ensures Enabled(s, e) && !e.PushMessage?
  {
    if t :| 0 <= t < |s.threads| && s.threads[t] != Idle {
      match s.threads[t]
      case Owes(_) => e := Dispatch(t);
      case Owning => e := CallTransport(t);
      case Finishing(_, _) => e := Release(t);
    } else if s.dispatched > 0 {
      e := RunWriteFrame(0);
    } else {
      e := Complete(0, false);
    }
  }

  /** So from every reachable state the messages already pushed can be driven to rest. */
  lemma {:induction false} ComesToRest(s: System) returns (es: seq<Event>)
    requires Inv(s) && |s.threads| > 0
    ensures ValidRun(s, es) && Quiescent(Run(s, es)) && |es| <= Measure(s)
    ensures forall i | 0 <= i < |es| :: !es[i].PushMessage?
    decreases Measure(s)
  {
    hide Inv, Measure, Step, Enabled;
    if Quiescent(s) { return []; }
    var e := Progress(s);
    StepDecreases(s, e);
    StepKeepsInv(s, e);
    var rest := ComesToRest(Step(s, e));
    es := [e] + rest;
    assert es[1..] == rest;
  }
}
