/** What a session does for its user and its peer, said apart from the steps that do it: which
    frames the calls made in a run push, which handler a termination runs, which events end the
    session, and what the close frames of this endpoint carry. Codes are given as numbers. */
module SessionEffects {
  import opened Messages
  import opened Lifecycle
  import opened LifecycleProofs
  import Close
  import Utf8

  // ---- what is asked for is what is pushed ----

  /** The frame that a call of send, ping or pong on this session asks for. */
  function Asked(s: Session, call: Call): seq<Frame> {
    if s.state != Open then []
    else match call
      case Send(Some(m)) => [Data(m)]
      case SendPing(Some(m)) => [Ping(m)]
      case SendPong(Some(m)) => [Pong(m)]
      case _ => []
  }

  /** The frames that the calls of a callback ask for, in order. */
  function AskedBy(c: Config, s: Session, calls: seq<Call>): seq<Frame>
    decreases |calls|
  {
    if calls == [] then [] else Asked(s, calls[0]) + AskedBy(c, Perform(c, s, calls[0]).0, calls[1..])
  }

  /** A data, ping or pong handler runs on an open session only; a ping is answered if its
      handler says so. */
  function AskedByItem(c: Config, s: Session, i: Item): seq<Frame> {
    if s.state != Open then []
    else match i
      case DataItem(calls) => AskedBy(c, s, calls)
      case ControlItem(PingOp, _, calls, reply, out) =>
        AskedBy(c, s, calls) + (if reply then Asked(Callback(c, s, calls), SendPong(out)) else [])
      case ControlItem(PongOp, _, calls, _, _) => AskedBy(c, s, calls)
      case _ => []
  }

  function AskedByItems(c: Config, s: Session, items: seq<Item>): seq<Frame>
    decreases |items|
  {
    if items == [] || items[0].ErrorItem? then []
    else AskedByItem(c, s, items[0]) + AskedByItems(c, OneItem(c, s, items[0]), items[1..])
  }

  /** The session as the open handler finds it. */
  function Opened(s: Session): Session {
    s.(istate := ProcessConnection, state := Open, log := s.log.(opens := s.log.opens + 1))
  }

  function AskedByEvent(c: Config, s: Session, e: Event): seq<Frame> {
    match e
    case Api(call) => Asked(s, call)
    case FrameRead(NoError, items) => if s.istate == ProcessConnection then AskedByItems(c, s, items) else []
    case ResponseWritten(NoError, true, calls, items) =>
      if s.state == Connecting && s.istate == ProcessHttpRequest then
        AskedBy(c, Opened(s), calls) + AskedByItems(c, Callback(c, Opened(s), calls), items)
      else []
    case _ => []
  }

  function AskedInRun(c: Config, s: Session, es: seq<Event>): seq<Frame>
    requires ValidRun(c, s, es)
    decreases |es|
  {
    if es == [] then [] else AskedByEvent(c, s, es[0]) + AskedInRun(c, Step(c, s, es[0]), es[1..])
  }

  /** The frames that are not close frames. */
  function Plain(frames: seq<Frame>): seq<Frame> {
    if frames == [] then []
    else (if frames[0].CloseFrame? then [] else [frames[0]]) + Plain(frames[1..])
  }

  lemma {:induction false} PlainConcat(a: seq<Frame>, b: seq<Frame>)
    ensures Plain(a + b) == Plain(a) + Plain(b)
  {
    if a == [] {
      assert a + b == b;
    } else {
      assert (a + b)[1..] == a[1..] + b;
      PlainConcat(a[1..], b);
    }
  }

  /** From s to s', exactly the given frames have been pushed, close frames apart. */
  predicate Grew(s: Session, s': Session, frames: seq<Frame>) {
    Plain(s'.log.pushed) == Plain(s.log.pushed) + frames
  }

  lemma GrewTwice(s: Session, t: Session, u: Session, a: seq<Frame>, b: seq<Frame>)
    requires Grew(s, t, a) && Grew(t, u, b)
    ensures Grew(s, u, a + b)
  {
    assert Plain(s.log.pushed) + a + b == Plain(s.log.pushed) + (a + b);
  }

  lemma GrewByNothing(s: Session, s': Session)
    requires s'.log.pushed == s.log.pushed
    ensures Grew(s, s', [])
  {
    assert Plain(s.log.pushed) + [] == Plain(s.log.pushed);
  }

  lemma GrewByOne(s: Session, s': Session, f: Frame)
    requires s'.log.pushed == s.log.pushed + [f]
    ensures Grew(s, s', if f.CloseFrame? then [] else [f])
  {
    PlainConcat(s.log.pushed, [f]);
    assert [f][1..] == [];
    assert Plain([f]) == if f.CloseFrame? then [] else [f];
  }

  lemma CloseGrows(c: Config, s: Session, code: nat, reason: seq<Byte>, ack: bool, terminal: bool, out: Option<Message>)
    ensures Grew(s, SendCloseFrame(c, s, code, reason, ack, terminal, out).0, [])
  {
    hide Grew, Plain, ChooseClose;
    var s' := SendCloseFrame(c, s, code, reason, ack, terminal, out).0;
    if out == None {
      GrewByNothing(s, s');
    } else {
      GrewByOne(s, s', s'.log.pushed[|s.log.pushed|]);
    }
  }

  lemma PerformGrows(c: Config, s: Session, call: Call)
    ensures Grew(s, Perform(c, s, call).0, Asked(s, call))
  {
    hide Grew, Plain, SendCloseFrame;
    GrewByNothing(s, Perform(c, s, call).0.(log := s.log));
    var s' := Perform(c, s, call).0;
    match call
    case TerminateWith(_) => GrewByNothing(s, s');
    case HttpResponse(_) => GrewByNothing(s, s');
    case CloseWith(code, reason, out) =>
      if s.state == Open {
        var tr := if |reason| > Close.CLOSE_REASON_SIZE then reason[..Close.CLOSE_REASON_SIZE] else reason;
        CloseGrows(c, s, code, tr, false, Close.Terminal(code), out);
      } else {
        GrewByNothing(s, s');
      }
    case _ =>
      if s.state == Open && call.out.Some? {
        GrewByOne(s, s', Asked(s, call)[0]);
      } else {
        GrewByNothing(s, s');
      }
  }

  lemma {:induction false} CallbackGrows(c: Config, s: Session, calls: seq<Call>)
    ensures Grew(s, Callback(c, s, calls), AskedBy(c, s, calls))
    decreases |calls|
  {
    hide Grew, Perform, Asked;
    if calls == [] {
      GrewByNothing(s, s);
    } else {
      var t := Perform(c, s, calls[0]).0;
      PerformGrows(c, s, calls[0]);
      CallbackGrows(c, t, calls[1..]);
      GrewTwice(s, t, Callback(c, t, calls[1..]), Asked(s, calls[0]), AskedBy(c, t, calls[1..]));
    }
  }

  lemma ProcessCloseGrows(c: Config, s: Session, payload: seq<Byte>, out: Option<Message>)
    ensures Grew(s, ProcessClose(c, s, payload, out), [])
  {
    hide SendCloseFrame, Close.ExtractCode, Close.ExtractReason, Plain;
    var s1 := Noted(s, payload);
    var s2 := s1.(remoteReason := Close.ExtractReason(payload).0);
    CloseGrows(c, s1, Close.PROTOCOL_ERROR, INVALID_CODE_REASON, true, true, out);
    CloseGrows(c, s2, Close.PROTOCOL_ERROR, INVALID_REASON_REASON, true, true, out);
    CloseGrows(c, s2, Close.BLANK, [], true, true, out);
    GrewByNothing(s, s);
  }

  lemma ItemGrows(c: Config, s: Session, i: Item)
    ensures Grew(s, OneItem(c, s, i), AskedByItem(c, s, i))
  {
    hide Grew, Perform, Callback, ProcessClose, Asked, AskedBy;
    GrewByNothing(s, s);
    match i
    case DataItem(calls) => CallbackGrows(c, s, calls);
    case ControlItem(op, payload, calls, reply, out) =>
      CallbackGrows(c, s, calls);
      ProcessCloseGrows(c, s, payload, out);
      var t := Callback(c, s, calls);
      PerformGrows(c, t, SendPong(out));
      GrewTwice(s, t, Perform(c, t, SendPong(out)).0, AskedBy(c, s, calls), Asked(t, SendPong(out)));
      assert AskedBy(c, s, calls) + [] == AskedBy(c, s, calls);
    case _ =>
  }

  lemma ErrorItemGrows(c: Config, s: Session, items: seq<Item>)
    requires items != [] && items[0].ErrorItem?
    ensures Grew(s, ReadItems(c, s, items), [])
  {
    hide Perform, Plain;
    var i := items[0];
    PerformGrows(c, s, CloseWith(i.code, i.reason, i.out));
    GrewByNothing(s, s);
  }

  lemma {:induction false} ItemsGrow(c: Config, s: Session, items: seq<Item>)
    ensures Grew(s, ReadItems(c, s, items), AskedByItems(c, s, items))
    decreases |items|
  {
    hide Grew, Perform, Callback, ProcessControlFrame, AskedByItem;
    if items == [] {
      GrewByNothing(s, s);
    } else if items[0].ErrorItem? {
      ErrorItemGrows(c, s, items);
    } else {
      var t := OneItem(c, s, items[0]);
      ItemGrows(c, s, items[0]);
      ItemsGrow(c, t, items[1..]);
      GrewTwice(s, t, ReadItems(c, t, items[1..]), AskedByItem(c, s, items[0]), AskedByItems(c, t, items[1..]));
    }
  }

  /** Calls on a session that is not open ask for nothing, and leave it not open. */
  lemma {:induction false} NothingAsked(c: Config, s: Session, calls: seq<Call>)
    requires s.state != Open
    ensures AskedBy(c, s, calls) == [] && Callback(c, s, calls).state != Open
    decreases |calls|
  {
    if calls != [] {
      hide Callback;
      NothingAsked(c, Perform(c, s, calls[0]).0, calls[1..]);
    }
  }

  lemma FrameReadGrows(c: Config, s: Session, ec: Error, items: seq<Item>)
    ensures Grew(s, HandleReadFrame(c, s, ec, items), AskedByEvent(c, s, FrameRead(ec, items)))
  {
    hide Grew, ReadItems, AskedByItems;
    ItemsGrow(c, s, items);
    GrewByNothing(s, HandleReadFrame(c, s, Other, items));
    GrewByNothing(s, s);
    if ec != NoError || s.istate != ProcessConnection {
      GrewByNothing(s, HandleReadFrame(c, s, ec, items));
    }
  }

  lemma ResponseGrows(c: Config, s: Session, calls: seq<Call>, items: seq<Item>)
    requires s.state == Connecting && s.istate == ProcessHttpRequest
    ensures Grew(s, HandleWriteHttpResponse(c, s, NoError, true, calls, items),
                 AskedByEvent(c, s, ResponseWritten(NoError, true, calls, items)))
  {
    hide Grew, ReadItems, AskedByItems, Callback, AskedBy;
    var t := Opened(s);
    var u := Callback(c, t, calls);
    var v := ReadItems(c, u, items);
    GrewByNothing(s, t);
    CallbackGrows(c, t, calls);
    CallbackStays(c, t, calls);
    ItemsGrow(c, u, items);
    GrewTwice(s, t, u, [], AskedBy(c, t, calls));
    assert [] + AskedBy(c, t, calls) == AskedBy(c, t, calls);
    GrewTwice(s, u, v, AskedBy(c, t, calls), AskedByItems(c, u, items));
  }

  /** Calls do not change the internal state. */
  lemma {:induction false} CallbackStays(c: Config, s: Session, calls: seq<Call>)
    ensures Callback(c, s, calls).istate == s.istate
    decreases |calls|
  {
    if calls != [] { CallbackStays(c, Perform(c, s, calls[0]).0, calls[1..]); }
  }

  lemma HandshakeGrows(c: Config, s: Session, ec: Error, r: Request)
    ensures Grew(s, HandleReadHandshake(c, s, ec, r), [])
  {
    hide Grew, Callback;
    GrewByNothing(s, s);
    if r.Complete? && ec == NoError && s.state == Connecting && s.istate == ReadHttpRequest {
      var t := s.(istate := ProcessHttpRequest, isHttp := s.isHttp || r.http);
      var u := Callback(c, t, r.calls);
      GrewByNothing(s, t);
      CallbackGrows(c, t, r.calls);
      NothingAsked(c, t, r.calls);
      GrewTwice(s, t, u, [], []);
      GrewByNothing(u, u.(ec := r.ec));
      GrewTwice(s, u, u.(ec := r.ec), [], []);
    } else {
      GrewByNothing(s, HandleReadHandshake(c, s, ec, r));
    }
  }

  lemma ShutDownGrows(c: Config, s: Session, calls: seq<Call>)
    requires Inv(c, s) && s.log.shutdowns != []
    ensures Grew(s, Step(c, s, ShutDown(calls)), [])
  {
    hide Inv;
    StartedMeansClosed(c, s);
    var t := HandleTerminate(s);
    TerminationPushesNothing(s);
    hide Grew, Callback, HandleTerminate;
    GrewByNothing(s, t);
    CallbackGrows(c, t, calls);
    NothingAsked(c, t, calls);
    GrewTwice(s, t, Callback(c, t, calls), [], []);
  }

  lemma TerminationPushesNothing(s: Session)
    requires s.log.shutdowns != []
    ensures HandleTerminate(s).state == s.state && HandleTerminate(s).log.pushed == s.log.pushed
  {
  }

  lemma StartedMeansClosed(c: Config, s: Session)
    requires Inv(c, s) && s.log.shutdowns != []
    ensures s.state == Closed
  {
    hide FramesOk, HasClose;
  }

  lemma StepGrows(c: Config, s: Session, e: Event)
    requires Inv(c, s) && Enabled(s, e)
    ensures Grew(s, Step(c, s, e), AskedByEvent(c, s, e))
  {
    hide Grew, Perform, Asked, Callback, ReadItems, AskedBy, AskedByItems, Inv;
    match e
    case Api(call) => PerformGrows(c, s, call);
    case FrameRead(ec, items) => FrameReadGrows(c, s, ec, items);
    case ResponseWritten(ec, switching, calls, items) =>
      if ec == NoError && switching && s.state == Connecting && s.istate == ProcessHttpRequest {
        ResponseGrows(c, s, calls, items);
      } else {
        GrewByNothing(s, Step(c, s, e));
      }
    case HandshakeRead(ec, r) => HandshakeGrows(c, s, ec, r);
    case ShutDown(calls) => ShutDownGrows(c, s, calls);
    case _ => GrewByNothing(s, Step(c, s, e));
  }

  lemma {:induction false} RunGrows(c: Config, s: Session, es: seq<Event>)
    requires Inv(c, s) && ValidRun(c, s, es)
    ensures Grew(s, Run(c, s, es), AskedInRun(c, s, es))
    decreases |es|
  {
    hide Grew, Step, AskedByEvent, Inv;
    if es == [] {
      GrewByNothing(s, s);
    } else {
      var t := Step(c, s, es[0]);
      StepOnward(c, s, es[0]);
      StepGrows(c, s, es[0]);
      RunGrows(c, t, es[1..]);
      GrewTwice(s, t, Run(c, t, es[1..]), AskedByEvent(c, s, es[0]), AskedInRun(c, t, es[1..]));
    }
  }

  /** In every run, the data, ping and pong frames pushed are exactly those that were asked for
      on an open session: by calls of the application, made from outside or in handlers that
      had to run, and by pings to be answered; in the order in which they were asked for. */
  lemma PushedAsAsked(c: Config, es: seq<Event>)
    requires ValidRun(c, INIT, es)
    ensures Plain(Run(c, INIT, es).log.pushed) == AskedInRun(c, INIT, es)
  {
    FromStart(c, []);
    hide Inv, ValidRun, Run, AskedInRun;
    RunGrows(c, INIT, es);
    assert [] + AskedInRun(c, INIT, es) == AskedInRun(c, INIT, es);
  }

  // ---- what a call reports ----

  /** send, ping, pong and close report an invalid state exactly when the session is not open,
      and then change nothing; on an open session they succeed exactly if the message can be
      prepared, and a failed send, ping or pong changes nothing either. */
  lemma CallReports(c: Config, s: Session, call: Call)
    requires call.Send? || call.SendPing? || call.SendPong? || call.CloseWith?
    ensures var (s', ec) := Perform(c, s, call);
            && (ec == InvalidState <==> s.state != Open)
            && (ec == NoError <==> s.state == Open && call.out.Some?)
            && (ec == Other <==> s.state == Open && call.out == None)
            && (s.state != Open || (call.out == None && !call.CloseWith?) ==> s' == s)
            && (call.out == None ==> s'.log == s.log && s'.state == s.state)
  {
  }

  /** Sending any messages one after another on an open session. */
  lemma {:induction false} SendAll(c: Config, s: Session, ms: seq<Message>)
    requires s.state == Open
    ensures var calls := seq(|ms|, i requires 0 <= i < |ms| => Send(Some(ms[i])));
            var frames := seq(|ms|, i requires 0 <= i < |ms| => Data(ms[i]));
            Callback(c, s, calls) == s.(log := s.log.(pushed := s.log.pushed + frames))
    decreases |ms|
  {
    var calls := seq(|ms|, i requires 0 <= i < |ms| => Send(Some(ms[i])));
    var frames := seq(|ms|, i requires 0 <= i < |ms| => Data(ms[i]));
    if ms == [] {
      assert s.log.pushed + frames == s.log.pushed;
    } else {
      var t := Perform(c, s, calls[0]).0;
      assert t == s.(log := s.log.(pushed := s.log.pushed + [Data(ms[0])]));
      SendAll(c, t, ms[1..]);
      assert calls[1..] == seq(|ms[1..]|, i requires 0 <= i < |ms[1..]| => Send(Some(ms[1..][i])));
      assert s.log.pushed + [Data(ms[0])] + seq(|ms[1..]|, i requires 0 <= i < |ms[1..]| => Data(ms[1..][i]))
          == s.log.pushed + frames;
    }
  }

  // ---- close frames of our own ----

  /** What close pushes on an open session: no code under silent close or for the blank code,
      otherwise the given code and at most 123 bytes of the reason; terminal for the codes after
      which nothing more can be said. Code and reason are noted even if it cannot be sent. */
  lemma OwnClose(c: Config, s: Session, code: nat, reason: seq<Byte>, out: Message)
    requires s.state == Open
    ensures var (s', ec) := Perform(c, s, CloseWith(code, reason, Some(out)));
            var n := |s.log.pushed|;
            && ec == NoError && s'.state == Closing && s'.wasClean == s.wasClean
            && |s'.log.pushed| == n + 1 && s'.log.pushed[..n] == s.log.pushed
            && s'.log.pushed[n].CloseFrame? && !s'.log.pushed[n].ack
            && s'.log.pushed[n].code == s'.localCode == (if c.silentClose || code == 0 then 1005 else code)
            && s'.log.pushed[n].reason == s'.localReason
            && s'.localReason == (if c.silentClose || code == 0 then [] else if |reason| > 123 then reason[..123] else reason)
            && s'.log.pushed[n].msg == out.(terminal := out.terminal || code in {1002, 1007, 1008, 1009, 1011})
            && Perform(c, s, CloseWith(code, reason, None)) ==
               (s.(localCode := s'.localCode, localReason := s'.localReason), Other)
  {
  }

  /** The texts that go with 1002 are the ones the code spells out. */
  lemma AnswerTexts()
    ensures INVALID_CODE_REASON == Ascii("Invalid close code")
    ensures INVALID_REASON_REASON == Ascii("Invalid close reason")
  {
  }

  // ---- how sessions end ----

  /** The error with which an event must end a session, if it must; closed sessions ignore the
      errors that are to be expected of them. */
  function FatalError(s: Session, e: Event): Option<Error> {
    match e
    case Started => if s.istate != UserInit then Some(InvalidState) else None
    case TransportReady(ec) =>
      if s.istate != TransportInit then Some(InvalidState) else if ec != NoError then Some(ec) else None
    case HandshakeRead(ec, r) =>
      if s.state == Closed && ec in {NoError, Eof} then None
      else if ec != NoError then Some(ec)
      else if s.state != Connecting || s.istate != ReadHttpRequest then Some(InvalidState)
      else if r == OutOfBounds then Some(Other)
      else None
    case ResponseWritten(ec, switching, _, _) =>
      if s.state == Closed && ec in {NoError, Eof} then None
      else if ec != NoError then Some(ec)
      else if s.state != Connecting || s.istate != ProcessHttpRequest then Some(InvalidState)
      else if switching then None
      else if s.isHttp then Some(HttpConnectionEnded)
      else if s.ec != NoError then Some(s.ec)
      else None
    case FrameRead(ec, _) =>
      if s.state == Closed && ec in {Eof, InvalidState} then None
      else if ec != NoError then Some(ec)
      else if s.istate != ProcessConnection && s.state != Closed then Some(InvalidState)
      else None
    case FrameWritten(ec, _) => if ec != NoError then Some(ec) else None
    case TimerExpired => Some(HandshakeTimeout)
    case Api(TerminateWith(ec)) => if ec != NoError then Some(ec) else None
    case _ => None
  }

  /** The session closed with an error: abnormal closure is recorded, and shutting down is
      started unless it was before. */
  predicate EndedBy(s: Session, s': Session, ec: Error) {
    && s'.state == Closed && s'.ec == ec && s'.localCode == 1006 && s'.localReason == []
    && s'.log == if s.state == Closed then s.log else ShutDownStarted(s)
  }

  function ShutDownStarted(s: Session): History {
    s.log.(shutdowns := s.log.shutdowns + [if s.state == Connecting then FailedStatus else ClosedStatus],
           started := s.log.started + 1)
  }

  lemma TerminateEnds(s: Session, ec: Error)
    requires ec != NoError
    ensures EndedBy(s, Terminate(s, ec), ec)
  {
  }

  /** Read errors, write errors, timeouts and events in the wrong state end the session. */
  lemma FatalEvents(c: Config, s: Session, e: Event)
    requires FatalError(s, e).Some? && Enabled(s, e)
    ensures EndedBy(s, Step(c, s, e), FatalError(s, e).value)
  {
    hide Callback, ReadItems, EndedBy, Terminate;
    var ec := FatalError(s, e).value;
    match e
    case ResponseWritten(_, _, _, _) =>
      TerminateEnds(s, ec);
      TerminateEnds(s.(ec := HttpConnectionEnded), HttpConnectionEnded);
      SameLog(s, s.(ec := HttpConnectionEnded));
    case _ => TerminateEnds(s, ec);
  }

  lemma SameLog(s: Session, t: Session)
    requires t.state == s.state && t.log == s.log
    ensures forall s', ec :: EndedBy(t, s', ec) ==> EndedBy(s, s', ec)
  {
  }

  /** A closed session takes no notice of what is still under way when it closes. */
  lemma LateEvents(c: Config, s: Session, r: Request, switching: bool, calls: seq<Call>, items: seq<Item>)
    requires s.state == Closed
    ensures Step(c, s, HandshakeRead(NoError, r)) == s && Step(c, s, HandshakeRead(Eof, r)) == s
    ensures Step(c, s, ResponseWritten(NoError, switching, calls, items)) == s
    ensures Step(c, s, ResponseWritten(Eof, switching, calls, items)) == s
    ensures Step(c, s, FrameRead(Eof, items)) == s && Step(c, s, FrameRead(InvalidState, items)) == s
    ensures s.istate != ProcessConnection ==> Step(c, s, FrameRead(NoError, items)) == s
  {
    hide Callback, ReadItems;
  }

  /** A message written without error ends the session exactly if it is terminal, and leaves
      the codes as they are, as terminating without an error does. */
  lemma WriteCompletions(c: Config, s: Session, terminal: bool)
    ensures Step(c, s, FrameWritten(NoError, terminal)) ==
            if terminal && s.state != Closed then s.(state := Closed, log := ShutDownStarted(s)) else s
    ensures Step(c, s, Api(TerminateWith(NoError))) == Step(c, s, FrameWritten(NoError, true))
  {
  }

  lemma {:induction false} CallsRunNoHandler(c: Config, s: Session, calls: seq<Call>)
    requires s.state == Closed
    ensures Callback(c, s, calls).log == s.log
    decreases |calls|
  {
    if calls != [] { CallsRunNoHandler(c, Perform(c, s, calls[0]).0, calls[1..]); }
  }

  /** The handler of a termination. A session that was open or closing runs the close handler,
      one that never opened the fail handler, except that a plain HTTP exchange that has ended
      runs neither; and only that one handler, with what it calls. */
  lemma TerminationHandler(c: Config, s: Session, e: Event, calls: seq<Call>)
    requires Inv(c, s) && s.state != Closed && Enabled(s, e) && FatalError(s, e).Some?
    ensures var s1 := Step(c, s, e);
            && Enabled(s1, ShutDown(calls))
            && Step(c, s1, ShutDown(calls)) == Callback(c, Step(c, s1, ShutDown([])), calls)
            && var l := Step(c, s1, ShutDown(calls)).log;
               if s.state != Connecting then l.closes == 1 && l.fails == 0 && l.quiet == 0
               else if FatalError(s, e).value == HttpConnectionEnded then l.quiet == 1 && l.fails == 0 && l.closes == 0
               else l.fails == 1 && l.quiet == 0 && l.closes == 0
  {
    NothingRunYet(c, s);
    FatalEvents(c, s, e);
    HandlerRun(c, s, Step(c, s, e), FatalError(s, e).value, calls);
  }

  lemma HandlerRun(c: Config, s: Session, s1: Session, ec: Error, calls: seq<Call>)
    requires s.log.shutdowns == [] && s.log.closes == s.log.fails == s.log.quiet == 0
    requires s.state != Closed && s1.state == Closed && s1.ec == ec && s1.log == ShutDownStarted(s)
    ensures Enabled(s1, ShutDown(calls))
    ensures Step(c, s1, ShutDown(calls)) == Callback(c, Step(c, s1, ShutDown([])), calls)
    ensures var l := Step(c, s1, ShutDown(calls)).log;
            if s.state != Connecting then l.closes == 1 && l.fails == 0 && l.quiet == 0
            else if ec == HttpConnectionEnded then l.quiet == 1 && l.fails == 0 && l.closes == 0
            else l.fails == 1 && l.quiet == 0 && l.closes == 0
  {
    NoCalls(c, HandleTerminate(s1));
    hide Callback;
    CallsRunNoHandler(c, HandleTerminate(s1), calls);
  }

  lemma NoCalls(c: Config, s: Session)
    ensures Callback(c, s, []) == s
  {
  }

  lemma NothingRunYet(c: Config, s: Session)
    requires Inv(c, s) && s.state != Closed
    ensures s.log.shutdowns == [] && s.log.closes == s.log.fails == s.log.quiet == 0
  {
  }

  /** A connection whose request was answered without switching protocols: a plain HTTP
      exchange runs no handler, a refused WebSocket handshake runs the fail handler. */
  lemma RefusedHandshake(c: Config, s: Session, http: bool, ec: Error, calls: seq<Call>)
    requires Inv(c, s) && s.state == Connecting && s.istate == ReadHttpRequest && !s.isHttp
    requires ec != HttpConnectionEnded
    ensures var s1 := Step(c, s, HandshakeRead(NoError, Complete(http, [], ec)));
            var s2 := Step(c, s1, ResponseWritten(NoError, false, [], []));
            && s1.state == Connecting && s2.state == Closed && Enabled(s2, ShutDown(calls))
            && var l := Step(c, s2, ShutDown(calls)).log;
               l.closes == 0 && l.quiet == (if http then 1 else 0) && l.fails == (if http then 0 else 1)
  {
    NothingRunYet(c, s);
    var s2 := Refused(c, s, http, ec);
    hide Inv, Step, HandleReadHandshake, HandleWriteHttpResponse;
    HandlerRun(c, s, s2, s2.ec, calls);
  }

  lemma Refused(c: Config, s: Session, http: bool, ec: Error) returns (s2: Session)
    requires s.state == Connecting && s.istate == ReadHttpRequest && !s.isHttp && s.log.shutdowns == []
    requires ec != HttpConnectionEnded
    ensures var s1 := Step(c, s, HandshakeRead(NoError, Complete(http, [], ec)));
            s1.state == Connecting && s2 == Step(c, s1, ResponseWritten(NoError, false, [], []))
    ensures s2.state == Closed && s2.log == ShutDownStarted(s) && s2.ec == if http then HttpConnectionEnded else ec
  {
    s2 := Step(c, Step(c, s, HandshakeRead(NoError, Complete(http, [], ec))), ResponseWritten(NoError, false, [], []));
  }

  /** A request that is answered with an error at once runs the fail handler too. */
  lemma RejectedRequest(c: Config, s: Session, ec: Error, calls: seq<Call>)
    requires Inv(c, s) && s.state == Connecting && s.istate == ReadHttpRequest && !s.isHttp
    requires ec !in {NoError, HttpConnectionEnded}
    ensures var s1 := Step(c, s, HandshakeRead(NoError, Rejected(ec)));
            var s2 := Step(c, s1, ResponseWritten(NoError, false, [], []));
            && s1.state == Connecting && EndedBy(s, s2, ec) && Enabled(s2, ShutDown(calls))
            && var l := Step(c, s2, ShutDown(calls)).log;
               l.fails == 1 && l.closes == 0 && l.quiet == 0
  {
    NothingRunYet(c, s);
    var s2 := Step(c, Step(c, s, HandshakeRead(NoError, Rejected(ec))), ResponseWritten(NoError, false, [], []));
    assert EndedBy(s, s2, ec);
    hide Inv, Step, HandleReadHandshake, HandleWriteHttpResponse;
    HandlerRun(c, s, s2, ec, calls);
  }

  // ---- how sessions open ----

  predicate Terminates(calls: seq<Call>) { exists i :: 0 <= i < |calls| && calls[i].TerminateWith? }

  lemma CallOpensNothing(c: Config, s: Session, call: Call)
    ensures Perform(c, s, call).0.log.opens == s.log.opens
    ensures s.state == Connecting ==> Perform(c, s, call).0.state == if call.TerminateWith? then Closed else Connecting
    ensures s.state == Closed ==> Perform(c, s, call).0.state == Closed
  {
  }

  lemma {:induction false} CallsOpenNothing(c: Config, s: Session, calls: seq<Call>)
    ensures Callback(c, s, calls).log.opens == s.log.opens
    ensures s.state == Connecting ==> Callback(c, s, calls).state == if Terminates(calls) then Closed else Connecting
    ensures s.state == Closed ==> Callback(c, s, calls).state == Closed
    decreases |calls|
  {
    if calls != [] {
      hide Perform;
      CallOpensNothing(c, s, calls[0]);
      CallsOpenNothing(c, Perform(c, s, calls[0]).0, calls[1..]);
    }
  }

  lemma {:induction false} ReadsOpenNothing(c: Config, s: Session, items: seq<Item>)
    ensures ReadItems(c, s, items).log.opens == s.log.opens
    decreases |items|
  {
    if items != [] && !items[0].ErrorItem? {
      ItemOpensNothing(c, s, items[0]);
      hide OneItem, ProcessControlFrame, Callback;
      ReadsOpenNothing(c, OneItem(c, s, items[0]), items[1..]);
    }
  }

  lemma ItemOpensNothing(c: Config, s: Session, i: Item)
    ensures OneItem(c, s, i).log.opens == s.log.opens
  {
    hide Callback, Close.ExtractCode, Close.ExtractReason;
    if i.DataItem? || i.ControlItem? { CallsOpenNothing(c, s, i.calls); }
  }

  lemma RequestOpensNothing(c: Config, s: Session, ec: Error, r: Request)
    ensures HandleReadHandshake(c, s, ec, r).log.opens == s.log.opens
  {
    hide Callback;
    if r.Complete? { CallsOpenNothing(c, s.(istate := ProcessHttpRequest, isHttp := s.isHttp || r.http), r.calls); }
  }

  lemma ResponseOpens(c: Config, s: Session, ec: Error, switching: bool, calls: seq<Call>, items: seq<Item>)
    ensures HandleWriteHttpResponse(c, s, ec, switching, calls, items).log.opens == s.log.opens +
              if ec == NoError && switching && s.state == Connecting && s.istate == ProcessHttpRequest then 1 else 0
  {
    hide Callback, ReadItems;
    CallsOpenNothing(c, Opened(s), calls);
    ReadsOpenNothing(c, Callback(c, Opened(s), calls), items);
  }

  /** The open handler runs exactly when a response that switches protocols has been written for
      a request that was read, on a session that has not ended since. */
  lemma OpenHandler(c: Config, s: Session, e: Event)
    requires Enabled(s, e)
    ensures Step(c, s, e).log.opens == s.log.opens +
              if e.ResponseWritten? && e.ec == NoError && e.switching && s.state == Connecting && s.istate == ProcessHttpRequest
              then 1 else 0
  {
    hide Callback, ReadItems, Perform, HandleReadHandshake, HandleWriteHttpResponse;
    match e
    case Api(call) => CallOpensNothing(c, s, call);
    case FrameRead(_, items) => ReadsOpenNothing(c, s, items);
    case HandshakeRead(ec, r) => RequestOpensNothing(c, s, ec, r);
    case ResponseWritten(ec, switching, calls, items) => ResponseOpens(c, s, ec, switching, calls, items);
    case ShutDown(calls) => CallsOpenNothing(c, HandleTerminate(s), calls);
    case _ =>
  }

  /** Opening goes on past incomplete requests, and past a complete one exactly if none of the
      calls that its handlers make terminates; a switching response then opens the session. */
  lemma HandshakeOpens(c: Config, http: bool, calls: seq<Call>, ec: Error)
    ensures var s2 := Step(c, Step(c, INIT, Started), TransportReady(NoError));
            && Step(c, s2, HandshakeRead(NoError, Incomplete)) == s2
            && var s3 := Step(c, s2, HandshakeRead(NoError, Complete(http, calls, ec)));
               var s4 := Step(c, s3, ResponseWritten(NoError, true, [], []));
               if Terminates(calls) then s3.state == Closed && s4 == s3
               else s3.state == Connecting && s4.state == Open && s4.log.opens == 1
  {
    var t := INIT.(istate := ProcessHttpRequest, isHttp := http);
    CallsOpenNothing(c, t, calls);
    CallbackStays(c, t, calls);
    var s2 := Step(c, Step(c, INIT, Started), TransportReady(NoError));
    assert s2 == INIT.(istate := ReadHttpRequest);
    var u := Callback(c, t, calls);
    assert Step(c, s2, HandshakeRead(NoError, Complete(http, calls, ec))) == if ec == HttpConnectionEnded then u else u.(ec := ec);
  }

  /** A handler that defers the response leaves the error to the call that sends it. */
  lemma DeferredResponse(c: Config, s: Session, http: bool, ec: Error)
    requires s.state == Connecting && s.istate == ReadHttpRequest && !s.isHttp && ec != NoError
    ensures var s1 := Step(c, s, HandshakeRead(NoError, Complete(http, [], HttpConnectionEnded)));
            && s1.state == Connecting && s1.ec == s.ec
            && EndedBy(s, Step(c, Step(c, s1, Api(HttpResponse(ec))), ResponseWritten(NoError, false, [], [])),
                       if http then HttpConnectionEnded else ec)
  {
  }

  // ---- malformed input ----

  /** A malformed close payload, or bytes the processor refuses, drop the connection without
      another frame if the configuration says so. */
  lemma MalformedDrops(c: Config, s: Session, payload: seq<Byte>, i: Item, out: Option<Message>, more: seq<Item>)
    requires c.dropOnProtocolError && i.ErrorItem?
    ensures Malformed(payload) ==>
              var s' := ProcessClose(c, s, payload, out);
              && EndedBy(s.(log := s.log.(received := s.log.received + [payload])), s', Other)
              && s'.log.pushed == s.log.pushed
    ensures EndedBy(s, ReadItems(c, s, [i] + more), Other)
  {
    hide Close.ExtractCode, Close.ExtractReason;
  }

  /** If it does not, refused bytes are answered with a close frame of their own code, or end
      the session if it cannot be sent; nothing after them is looked at. */
  lemma RefusedBytes(c: Config, s: Session, code: nat, reason: seq<Byte>, out: Option<Message>, more: seq<Item>)
    requires !c.dropOnProtocolError
    ensures var s' := ReadItems(c, s, [ErrorItem(code, reason, out)] + more);
            var (closed, ec) := Perform(c, s, CloseWith(code, reason, out));
            if s.state == Open && out.Some? then s' == closed && s'.state == Closing
            else if s.state != Open then EndedBy(s, s', InvalidState)
            else EndedBy(closed, s', Other)
  {
  }

  /** A well-formed close payload on a closing session is taken for the answer to our own close
      frame, once; a further one changes nothing but what was received. */
  lemma AnswerToOurs(c: Config, s: Session, payload: seq<Byte>, out: Option<Message>)
    requires s.state == Closing && !Malformed(payload)
    ensures var s' := ProcessClose(c, s, payload, out);
            && s'.wasClean && s'.log.pushed == s.log.pushed && s'.localCode == s.localCode
            && s'.state == (if s.wasClean then Closing else Closed)
            && |s'.log.shutdowns| == |s.log.shutdowns| + (if s.wasClean then 0 else 1)
  {
    hide Close.ExtractCode, Close.ExtractReason;
  }

  /** What the read loop passes over: nothing usable, a control frame with another opcode, and
      on a session that is not open any data, ping or pong; on a closed one close frames too. */
  lemma PassedOver(c: Config, s: Session, i: Item, more: seq<Item>)
    requires !i.ErrorItem?
    requires || i.NullItem? || s.state == Closed || (i.ControlItem? && i.op == InvalidOp)
             || (s.state != Open && (i.ControlItem? ==> i.op != CloseOp))
    ensures ReadItems(c, s, [i] + more) == ReadItems(c, s, more)
  {
    assert ([i] + more)[1..] == more;
  }

  /** What can be asked about the close frame of the peer: its code even if that is not allowed,
      and its reason if the code is. */
  lemma RemoteRecorded(c: Config, s: Session, code: nat, reason: seq<Byte>, out: Option<Message>)
    requires code < 0x1_0000
    ensures var s' := ProcessClose(c, s, Close.Payload(code, reason), out);
            && s'.remoteCode == code
            && s'.remoteReason == (if Close.LegalOnWire(code) then reason else s.remoteReason)
            && s'.log.received == s.log.received + [Close.Payload(code, reason)]
  {
    Close.PayloadReadsBack(code, reason);
    Close.LegalCodes(code);
    RemoteNoted(c, s, Close.Payload(code, reason), out);
    hide ProcessClose, Close.Payload, Close.ExtractCode, Close.ExtractReason;
  }

  lemma RemoteNoted(c: Config, s: Session, payload: seq<Byte>, out: Option<Message>)
    ensures var s' := ProcessClose(c, s, payload, out);
            && s'.remoteCode == Close.ExtractCode(payload).0
            && s'.remoteReason == (if Close.ExtractCode(payload).1 == None then Close.ExtractReason(payload).0 else s.remoteReason)
            && s'.log.received == s.log.received + [payload]
  {
    hide Close.ExtractCode, Close.ExtractReason, SendCloseFrame, Terminate;
    var s1 := Noted(s, payload);
    var s2 := s1.(remoteReason := Close.ExtractReason(payload).0);
    KeepsRemote(c, s1, Close.PROTOCOL_ERROR, INVALID_CODE_REASON, out);
    KeepsRemote(c, s2, Close.PROTOCOL_ERROR, INVALID_REASON_REASON, out);
    KeepsRemote(c, s2, Close.BLANK, [], out);
    KeepsRemote(c, s2.(wasClean := true), Close.BLANK, [], out);
  }

  lemma KeepsRemote(c: Config, s: Session, code: nat, reason: seq<Byte>, out: Option<Message>)
    ensures SameRemote(s, SendCloseFrame(c, s, code, reason, true, true, out).0)
    ensures SameRemote(s, Terminate(s, Other)) && SameRemote(s, Terminate(s, NoError))
  {
  }

  predicate SameRemote(s: Session, s': Session) {
    s'.remoteCode == s.remoteCode && s'.remoteReason == s.remoteReason && s'.log.received == s.log.received
  }

  // ---- acknowledgements on the wire ----

  /** A close frame with a legal code and a valid reason is acknowledged with that code and
      that reason, one without a code with 1000. */
  lemma Acknowledged(c: Config, s: Session, code: nat, reason: seq<Byte>, out: Message)
    requires Inv(c, s) && s.state == Open && !c.silentClose && code < 0x1_0000
    requires Close.LegalOnWire(code) && Utf8.Accepts(reason)
    ensures var s' := Step(c, s, FrameRead(NoError, [ControlItem(CloseOp, Close.Payload(code, reason), [], false, Some(out))]));
            var n := |s.log.pushed|;
            |s'.log.pushed| == n + 1 && IsAck(s'.log.pushed[n]) &&
            s'.log.pushed[n].code == code && s'.log.pushed[n].reason == reason
    ensures var s' := Step(c, s, FrameRead(NoError, [ControlItem(CloseOp, [], [], false, Some(out))]));
            var n := |s.log.pushed|;
            |s'.log.pushed| == n + 1 && IsAck(s'.log.pushed[n]) &&
            s'.log.pushed[n].code == 1000 && s'.log.pushed[n].reason == []
  {
    Close.PayloadReadsBack(code, reason);
    Close.ShortPayloads(0);
    PeerCloses(c, s, Close.Payload(code, reason), out);
    PeerCloses(c, s, [], out);
    AnswerIsLegal(Close.Payload(code, reason));
    AnswerIsLegal([]);
    hide Step, Inv, Close.ExtractCode, Close.ExtractReason, Close.Payload;
  }

  /** A malformed one is answered with 1002. */
  lemma AnsweredWith1002(c: Config, s: Session, payload: seq<Byte>, out: Message)
    requires Inv(c, s) && s.state in {Open, Closing} && !c.silentClose && !c.dropOnProtocolError && Malformed(payload)
    ensures var s' := Step(c, s, FrameRead(NoError, [ControlItem(CloseOp, payload, [], false, Some(out))]));
            var n := |s.log.pushed|;
            |s'.log.pushed| == n + 1 && IsAck(s'.log.pushed[n]) &&
            s'.log.pushed[n].code == 1002 && s'.log.pushed[n].msg.terminal
  {
    ProcessingInv(c, s);
    CloseRead(c, s, payload, Some(out));
    hide Step, Inv, Close.ExtractCode, Close.ExtractReason;
  }

  lemma ProcessingInv(c: Config, s: Session)
    requires Inv(c, s) && s.state in {Open, Closing}
    ensures s.istate == ProcessConnection
  {
  }
}
