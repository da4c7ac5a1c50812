/** What holds of a connection in every run of its life. */
module LifecycleProofs {
  import opened Messages
  import opened Lifecycle
  import Close

  function Rank(state: SessionState): nat {
    match state case Connecting => 0 case Open => 1 case Closing => 2 case Closed => 3
  }

  predicate HasClose(pushed: seq<Frame>) {
    exists i | 0 <= i < |pushed| :: pushed[i].CloseFrame?
  }

  /** Section 5.5.1 of RFC 6455: nothing but another close frame follows a close frame. */
  predicate NothingAfterClose(pushed: seq<Frame>) {
    forall i, j | 0 <= i < j < |pushed| && pushed[i].CloseFrame? :: pushed[j].CloseFrame?
  }

  /** A close payload with an invalid code or an invalid reason. */
  predicate Malformed(payload: seq<Byte>) {
    Close.ExtractCode(payload).1.Some? || !Close.ExtractReason(payload).1
  }

  /** The code and reason that answer a received close payload. */
  function Answer(payload: seq<Byte>): (nat, seq<Byte>) {
    if Close.ExtractCode(payload).1.Some? then (Close.PROTOCOL_ERROR, INVALID_CODE_REASON)
    else if !Close.ExtractReason(payload).1 then (Close.PROTOCOL_ERROR, INVALID_REASON_REASON)
    else if payload == [] then (Close.NORMAL, [])
    else (Close.Ntohs(payload[0], payload[1]), Close.ExtractReason(payload).0)
  }

  predicate IsAck(f: Frame) { f.CloseFrame? && f.ack }

  /** An acknowledgement is terminal, and unless the endpoint closes silently it carries the
      answer to the last close payload that had been received when it was pushed. */
  predicate Answered(c: Config, received: seq<seq<Byte>>, f: Frame) {
    IsAck(f) ==>
      && 1 <= f.heard <= |received| && f.msg.terminal
      && (!c.silentClose ==> (f.code, f.reason) == Answer(received[f.heard - 1]) && Close.LegalOnWire(f.code))
      && (c.silentClose ==> f.code == Close.NO_STATUS && f.reason == [])
  }

  /** No two acknowledgements answer the same payload. */
  predicate AnsweredOnce(pushed: seq<Frame>) {
    forall i, j | 0 <= i < j < |pushed| && IsAck(pushed[i]) && IsAck(pushed[j]) :: pushed[i].heard < pushed[j].heard
  }

  /** A close frame after the first one acknowledges a malformed payload. */
  predicate Excused(c: Config, received: seq<seq<Byte>>, f: Frame) {
    IsAck(f) && 1 <= f.heard <= |received| && Malformed(received[f.heard - 1]) && !c.dropOnProtocolError
  }

  predicate OthersExcused(c: Config, received: seq<seq<Byte>>, pushed: seq<Frame>) {
    forall i, j | 0 <= i < j < |pushed| && pushed[i].CloseFrame? && pushed[j].CloseFrame? ::
      Excused(c, received, pushed[j])
  }

  function CloseFrames(pushed: seq<Frame>): nat {
    if pushed == [] then 0
    else CloseFrames(pushed[..|pushed| - 1]) + (if pushed[|pushed| - 1].CloseFrame? then 1 else 0)
  }

  function MalformedCount(received: seq<seq<Byte>>): nat {
    if received == [] then 0
    else MalformedCount(received[..|received| - 1]) + (if Malformed(received[|received| - 1]) then 1 else 0)
  }

  predicate CloseBound(c: Config, received: seq<seq<Byte>>, pushed: seq<Frame>) {
    && CloseFrames(pushed) <= 1 + (if c.dropOnProtocolError then 0 else MalformedCount(received))
    && (!HasClose(pushed) ==> CloseFrames(pushed) == 0)
  }

  /** What holds of the frames pushed, given the close payloads received. */
  predicate FramesOk(c: Config, received: seq<seq<Byte>>, pushed: seq<Frame>) {
    && NothingAfterClose(pushed)
    && (forall i | 0 <= i < |pushed| :: Answered(c, received, pushed[i]))
    && AnsweredOnce(pushed)
    && OthersExcused(c, received, pushed)
    && CloseBound(c, received, pushed)
  }

  /** Handlers and shutdowns add up. */
  predicate Counted(s: Session) {
    var l := s.log;
    && l.started == (if s.state == Closed then 1 else 0)
    && |l.shutdowns| + l.closes + l.fails + l.quiet == l.started
    && l.opens <= 1
    && (s.state == Connecting ==> l.opens == 0)
    && (s.state in {Open, Closing} ==> l.opens == 1)
    && (l.closes > 0 ==> l.opens == 1)
    && (l.fails + l.quiet > 0 ==> l.opens == 0)
    && (forall t | t in l.shutdowns :: t == ClosedStatus <==> l.opens == 1)
  }

  predicate Pushing(c: Config, s: Session) {
    var p := s.log.pushed;
    && FramesOk(c, s.log.received, p)
    && (s.state == Connecting ==> p == [])
    && (s.state == Open ==> !HasClose(p))
    && (s.state == Closing ==> HasClose(p))
    && (s.wasClean ==> s.log.received != [] && HasClose(p))
  }

  predicate Inv(c: Config, s: Session) {
    && (s.state in {Open, Closing} ==> s.istate == ProcessConnection)
    && (s.state == Connecting ==> s.istate != ProcessConnection)
    && Counted(s)
    && Pushing(c, s)
  }

  /** Acknowledgements pushed since n close payloads had been received answer later ones. */
  predicate AcksSince(n: nat, frames: seq<Frame>) {
    forall i | 0 <= i < |frames| && IsAck(frames[i]) :: n < frames[i].heard
  }

  /** What one step, and so any part of a run, may change. */
  predicate Onward(c: Config, s: Session, s': Session) {
    && Inv(c, s')
    && Rank(s.state) <= Rank(s'.state)
    && s.log.pushed <= s'.log.pushed
    && s.log.received <= s'.log.received
    && AcksSince(|s.log.received|, s'.log.pushed[|s.log.pushed|..])
    && s.log.opens <= s'.log.opens
    && (s.wasClean ==> s'.wasClean)
  }

  lemma {:induction false} OnwardTwice(c: Config, s: Session, t: Session, u: Session)
    requires Onward(c, s, t) && Onward(c, t, u)
    ensures Onward(c, s, u)
  {
    hide Inv;
    var p, q, r := s.log.pushed, t.log.pushed, u.log.pushed;
    forall i | 0 <= i < |r[|p|..]| && IsAck(r[|p|..][i])
      ensures |s.log.received| < r[|p|..][i].heard
    {
      if |p| + i < |q| {
        assert r[|p|..][i] == q[|p|..][i];
      } else {
        assert r[|p|..][i] == r[|q|..][|p| + i - |q|];
      }
    }
  }

  /** Steps that push and receive nothing. */
  lemma Quietly(c: Config, s: Session, s': Session)
    requires Inv(c, s') && s'.log.pushed == s.log.pushed && s'.log.received == s.log.received
    requires Rank(s.state) <= Rank(s'.state) && s.log.opens <= s'.log.opens && (s.wasClean ==> s'.wasClean)
    ensures Onward(c, s, s')
  {
    hide Inv;
  }

  lemma TerminateOnward(c: Config, s: Session, ec: Error)
    requires Inv(c, s)
    ensures Onward(c, s, Terminate(s, ec))
  {
    hide FramesOk, HasClose;
    Quietly(c, s, Terminate(s, ec));
  }

  lemma HandleTerminateOnward(c: Config, s: Session)
    requires Inv(c, s) && s.log.shutdowns != []
    ensures Onward(c, s, HandleTerminate(s))
  {
    hide FramesOk, HasClose;
    assert s.log.shutdowns[0] in s.log.shutdowns;
    Quietly(c, s, HandleTerminate(s));
  }

  lemma CountAppended(p: seq<Frame>, f: Frame)
    ensures CloseFrames(p + [f]) == CloseFrames(p) + (if f.CloseFrame? then 1 else 0)
    ensures HasClose(p + [f]) <==> HasClose(p) || f.CloseFrame?
  {
    assert (p + [f])[..|p|] == p;
    if HasClose(p) {
      var i :| 0 <= i < |p| && p[i].CloseFrame?;
      assert (p + [f])[i].CloseFrame?;
    }
    if f.CloseFrame? { assert (p + [f])[|p|].CloseFrame?; }
  }

  /** Pushing a frame: nothing but close frames after a close frame, an acknowledgement answers
      the last payload received, and a further close frame needs an excuse that raises the bound. */
  lemma AppendFrame(c: Config, r: seq<seq<Byte>>, p: seq<Frame>, f: Frame)
    requires FramesOk(c, r, p) && Answered(c, r, f) && (HasClose(p) ==> f.CloseFrame?)
    requires IsAck(f) ==> forall i | 0 <= i < |p| && IsAck(p[i]) :: p[i].heard < f.heard
    requires f.CloseFrame? && HasClose(p) ==>
               Excused(c, r, f) && CloseFrames(p) <= MalformedCount(r)
    ensures FramesOk(c, r, p + [f]) && (HasClose(p + [f]) <==> HasClose(p) || f.CloseFrame?)
  {
    CountAppended(p, f);
    hide Answered, Malformed, CloseFrames, MalformedCount, HasClose;
    var q := p + [f];
    FirstClose(p);
    assert NothingAfterClose(q);
    assert AnsweredOnce(q);
    assert OthersExcused(c, r, q);
  }

  lemma FirstClose(p: seq<Frame>)
    ensures forall i | 0 <= i < |p| && p[i].CloseFrame? :: HasClose(p)
  {
  }

  lemma CountReceived(r: seq<seq<Byte>>, payload: seq<Byte>)
    ensures MalformedCount(r + [payload]) == MalformedCount(r) + (if Malformed(payload) then 1 else 0)
  {
    hide Malformed;
    assert (r + [payload])[..|r|] == r;
  }

  lemma ReceiveKeepsFrames(c: Config, r: seq<seq<Byte>>, p: seq<Frame>, payload: seq<Byte>)
    requires FramesOk(c, r, p)
    ensures FramesOk(c, r + [payload], p)
    ensures forall i | 0 <= i < |p| && IsAck(p[i]) :: p[i].heard < |r + [payload]|
  {
    hide Malformed, Answer, Close.LegalOnWire, CloseFrames, MalformedCount, HasClose;
    CountReceived(r, payload);
    forall i | 0 <= i < |p|
      ensures Answered(c, r + [payload], p[i]) && (IsAck(p[i]) ==> p[i].heard < |r + [payload]|)
    {
      assert Answered(c, r, p[i]);
    }
    forall i, j | 0 <= i < j < |p| && p[i].CloseFrame? && p[j].CloseFrame?
      ensures Excused(c, r + [payload], p[j])
    {
      assert Excused(c, r, p[j]);
    }
  }

  /** The session after a close payload has been noted. */
  function Noted(s: Session, payload: seq<Byte>): Session {
    s.(remoteCode := Close.ExtractCode(payload).0, log := s.log.(received := s.log.received + [payload]))
  }

  lemma NotedOnward(c: Config, s: Session, payload: seq<Byte>)
    requires Inv(c, s)
    ensures Onward(c, s, Noted(s, payload))
  {
    hide FramesOk, HasClose, Close.ExtractCode;
    ReceiveKeepsFrames(c, s.log.received, s.log.pushed, payload);
  }

  /** A close frame that is not an acknowledgement is sent only when open. */
  lemma SendCloseOnward(c: Config, s: Session, code: nat, reason: seq<Byte>, terminal: bool, out: Option<Message>)
    requires Inv(c, s) && s.state == Open
    ensures Onward(c, s, SendCloseFrame(c, s, code, reason, false, terminal, out).0)
  {
    hide FramesOk, HasClose;
    var s' := SendCloseFrame(c, s, code, reason, false, terminal, out).0;
    if out.Some? {
      AppendFrame(c, s.log.received, s.log.pushed, s'.log.pushed[|s.log.pushed|]);
    } else {
      Quietly(c, s, s');
    }
  }

  /** An acknowledgement answers the payload just noted. */
  lemma SendAckOnward(c: Config, s: Session, t: Session, payload: seq<Byte>, code: nat, reason: seq<Byte>,
                      out: Option<Message>)
    requires Inv(c, s) && s.state in {Open, Closing} && (s.state == Closing ==> Malformed(payload) && !c.dropOnProtocolError)
    requires t == Noted(s, payload).(remoteReason := t.remoteReason)
    requires !c.silentClose ==> ChooseClose(c, t, code, reason, true) == Answer(payload)
    ensures Onward(c, s, SendCloseFrame(c, t, code, reason, true, true, out).0)
  {
    hide FramesOk, HasClose, Malformed, Answer, Close.LegalOnWire, CloseFrames, MalformedCount;
    var s' := SendCloseFrame(c, t, code, reason, true, true, out).0;
    var p, r := s.log.pushed, t.log.received;
    ReceiveKeepsFrames(c, s.log.received, p, payload);
    if out.Some? {
      AnswerIsLegal(payload);
      if s.state == Closing { BoundAfter(c, s, payload); }
      AppendFrame(c, r, p, s'.log.pushed[|p|]);
    }
  }

  lemma BoundAfter(c: Config, s: Session, payload: seq<Byte>)
    requires Inv(c, s) && Malformed(payload) && !c.dropOnProtocolError
    ensures CloseFrames(s.log.pushed) <= MalformedCount(s.log.received + [payload])
  {
    hide Malformed, CloseFrames, MalformedCount;
    CountReceived(s.log.received, payload);
  }

  lemma PerformOnward(c: Config, s: Session, call: Call)
    requires Inv(c, s)
    ensures Onward(c, s, Perform(c, s, call).0)
  {
    hide FramesOk, HasClose, Terminate, SendCloseFrame;
    Quietly(c, s, s);
    match call
    case TerminateWith(ec) => TerminateOnward(c, s, ec);
    case HttpResponse(ec) => Quietly(c, s, s.(ec := ec));
    case CloseWith(code, reason, out) =>
      if s.state == Open {
        var tr := if |reason| > Close.CLOSE_REASON_SIZE then reason[..Close.CLOSE_REASON_SIZE] else reason;
        SendCloseOnward(c, s, code, tr, Close.Terminal(code), out);
      }
    case _ =>
      if s.state == Open && call.out.Some? {
        var msg := call.out.value;
        AppendFrame(c, s.log.received, s.log.pushed,
                    match call case Send(_) => Data(msg) case SendPing(_) => Ping(msg) case _ => Pong(msg));
      }
  }

  lemma {:induction false} CallbackOnward(c: Config, s: Session, calls: seq<Call>)
    requires Inv(c, s)
    ensures Onward(c, s, Callback(c, s, calls))
    decreases |calls|
  {
    hide Perform, FramesOk, HasClose;
    if calls == [] {
      Quietly(c, s, s);
    } else {
      PerformOnward(c, s, calls[0]);
      hide Inv;
      CallbackOnward(c, Perform(c, s, calls[0]).0, calls[1..]);
      OnwardTwice(c, s, Perform(c, s, calls[0]).0, Callback(c, s, calls));
    }
  }

  /** The code of an acknowledgement is legal on the wire. */
  lemma AnswerIsLegal(payload: seq<Byte>)
    ensures Close.LegalOnWire(Answer(payload).0)
    ensures !Malformed(payload) ==>
              Answer(payload) ==
                if Close.ExtractCode(payload).0 == Close.NO_STATUS then (Close.NORMAL, [])
                else (Close.ExtractCode(payload).0, Close.ExtractReason(payload).0)
  {
    hide Close.ExtractReason;
    Close.ExtractCodeAccepts(payload);
  }

  lemma ProcessCloseOnward(c: Config, s: Session, payload: seq<Byte>, out: Option<Message>)
    requires Inv(c, s) && s.state in {Open, Closing}
    ensures Onward(c, s, ProcessClose(c, s, payload, out))
  {
    hide Close.LegalOnWire, Close.ExtractReason, SendCloseFrame, Terminate, FramesOk, HasClose;
    AnswerIsLegal(payload);
    NotedOnward(c, s, payload);
    var s1 := Noted(s, payload);
    if Close.ExtractCode(payload).1.Some? {
      TerminateOnward(c, s1, Other);
      OnwardTwice(c, s, s1, Terminate(s1, Other));
      if !c.dropOnProtocolError {
        SendAckOnward(c, s, s1, payload, Close.PROTOCOL_ERROR, INVALID_CODE_REASON, out);
      }
    } else {
      var (reason, reasonValid) := Close.ExtractReason(payload);
      var s2 := s1.(remoteReason := reason);
      Quietly(c, s1, s2);
      OnwardTwice(c, s, s1, s2);
      if !reasonValid {
        TerminateOnward(c, s2, Other);
        OnwardTwice(c, s, s2, Terminate(s2, Other));
        if !c.dropOnProtocolError {
          SendAckOnward(c, s, s2, payload, Close.PROTOCOL_ERROR, INVALID_REASON_REASON, out);
        }
      } else if s2.state == Open {
        SendAckOnward(c, s, s2, payload, Close.BLANK, [], out);
      } else if !s2.wasClean {
        var s3 := s2.(wasClean := true);
        Quietly(c, s2, s3);
        TerminateOnward(c, s3, NoError);
        OnwardTwice(c, s, s2, s3);
        OnwardTwice(c, s, s3, Terminate(s3, NoError));
      }
    }
  }

  lemma ControlOnward(c: Config, s: Session, i: Item)
    requires Inv(c, s) && s.state != Connecting && i.ControlItem?
    ensures Onward(c, s, ProcessControlFrame(c, s, i))
  {
    hide Callback, Perform, ProcessClose, FramesOk, HasClose;
    Quietly(c, s, s);
    if s.state == Closed || (i.op != CloseOp && s.state != Open) {
    } else if i.op == CloseOp {
      ProcessCloseOnward(c, s, i.payload, i.out);
    } else {
      var s1 := Callback(c, s, i.calls);
      CallbackOnward(c, s, i.calls);
      PerformOnward(c, s1, SendPong(i.out));
      OnwardTwice(c, s, s1, Perform(c, s1, SendPong(i.out)).0);
    }
  }

  /** What one turn of the read loop does, short of an error. */
  function OneItem(c: Config, s: Session, i: Item): Session {
    match i
    case DataItem(calls) => if s.state == Open then Callback(c, s, calls) else s
    case ControlItem(_, _, _, _, _) => ProcessControlFrame(c, s, i)
    case _ => s
  }

  lemma OneItemOnward(c: Config, s: Session, i: Item)
    requires Inv(c, s) && s.state != Connecting
    ensures Onward(c, s, OneItem(c, s, i)) && OneItem(c, s, i).state != Connecting
  {
    hide Callback, ProcessControlFrame, FramesOk, HasClose;
    Quietly(c, s, s);
    match i
    case DataItem(calls) => CallbackOnward(c, s, calls);
    case ControlItem(_, _, _, _, _) => ControlOnward(c, s, i);
    case _ =>
  }

  lemma ErrorItemOnward(c: Config, s: Session, i: Item)
    requires Inv(c, s) && i.ErrorItem?
    ensures Onward(c, s, ReadItems(c, s, [i]))
  {
    hide Perform, Terminate, Inv;
    TerminateOnward(c, s, Other);
    var call := CloseWith(i.code, i.reason, i.out);
    var (s', ec) := Perform(c, s, call);
    PerformOnward(c, s, call);
    TerminateOnward(c, s', ec);
    OnwardTwice(c, s, s', Terminate(s', ec));
  }

  lemma {:induction false} ReadOnward(c: Config, s: Session, items: seq<Item>)
    requires Inv(c, s) && s.state != Connecting
    ensures Onward(c, s, ReadItems(c, s, items))
    decreases |items|
  {
    hide Callback, Perform, ProcessControlFrame, Terminate, Inv;
    if items == [] {
      InvOnward(c, s);
    } else if items[0].ErrorItem? {
      ErrorItemOnward(c, s, items[0]);
    } else {
      var s1 := OneItem(c, s, items[0]);
      OneItemOnward(c, s, items[0]);
      ReadOnward(c, s1, items[1..]);
      OnwardTwice(c, s, s1, ReadItems(c, s1, items[1..]));
    }
  }

  lemma InvOnward(c: Config, s: Session)
    requires Inv(c, s)
    ensures Onward(c, s, s)
  {
    Quietly(c, s, s);
  }

  lemma FrameReadOnward(c: Config, s: Session, ec: Error, items: seq<Item>)
    requires Inv(c, s)
    ensures Onward(c, s, HandleReadFrame(c, s, ec, items))
  {
    hide ReadItems, Terminate, FramesOk, HasClose;
    Quietly(c, s, s);
    var ecm := if ec == NoError && s.istate != ProcessConnection then InvalidState else ec;
    if ecm == NoError { ReadOnward(c, s, items); }
    TerminateOnward(c, s, ecm);
  }

  lemma HandshakeReadOnward(c: Config, s: Session, ec: Error, r: Request)
    requires Inv(c, s)
    ensures Onward(c, s, HandleReadHandshake(c, s, ec, r))
  {
    hide Callback, Terminate, FramesOk, HasClose;
    Quietly(c, s, s);
    match HandshakeError(s, ReadHttpRequest, ec)
    case None =>
    case Some(ecm) =>
      if ecm != NoError {
        TerminateOnward(c, s, ecm);
      } else {
        TerminateOnward(c, s, Other);
        RequestOnward(c, s, r);
      }
  }

  lemma RequestOnward(c: Config, s: Session, r: Request)
    requires Inv(c, s) && s.state == Connecting && s.istate == ReadHttpRequest
    ensures r.Rejected? ==> Onward(c, s, WriteHttpResponseError(s, r.ec))
    ensures r.Complete? ==>
              var t := Callback(c, s.(istate := ProcessHttpRequest, isHttp := s.isHttp || r.http), r.calls);
              Onward(c, s, t) && Onward(c, s, t.(ec := r.ec))
  {
    hide Callback, Terminate, FramesOk, HasClose;
    if r.Rejected? {
      Quietly(c, s, WriteHttpResponseError(s, r.ec));
    }
    if r.Complete? {
      var s1 := s.(istate := ProcessHttpRequest, isHttp := s.isHttp || r.http);
      var t := Callback(c, s1, r.calls);
      Quietly(c, s, s1);
      CallbackOnward(c, s1, r.calls);
      OnwardTwice(c, s, s1, t);
      Quietly(c, t, t.(ec := r.ec));
      OnwardTwice(c, s, t, t.(ec := r.ec));
    }
  }

  lemma OpenedOnward(c: Config, s: Session, calls: seq<Call>, items: seq<Item>)
    requires Inv(c, s) && s.state == Connecting
    ensures var s1 := s.(istate := ProcessConnection, state := Open, log := s.log.(opens := s.log.opens + 1));
            && Inv(c, Callback(c, s1, calls))
            && Onward(c, s, HandleReadFrame(c, Callback(c, s1, calls), NoError, items))
  {
    hide Callback, HandleReadFrame, FramesOk;
    var s1 := s.(istate := ProcessConnection, state := Open, log := s.log.(opens := s.log.opens + 1));
    var t := Callback(c, s1, calls);
    Quietly(c, s, s1);
    CallbackOnward(c, s1, calls);
    hide Inv;
    FrameReadOnward(c, t, NoError, items);
    OnwardTwice(c, s, s1, t);
    OnwardTwice(c, s, t, HandleReadFrame(c, t, NoError, items));
  }

  lemma ResponseWrittenOnward(c: Config, s: Session, ec: Error, switching: bool, calls: seq<Call>, items: seq<Item>)
    requires Inv(c, s)
    ensures Onward(c, s, HandleWriteHttpResponse(c, s, ec, switching, calls, items))
  {
    hide Callback, Terminate, HandleReadFrame, FramesOk, HasClose;
    Quietly(c, s, s);
    match HandshakeError(s, ProcessHttpRequest, ec)
    case None =>
    case Some(ecm) =>
      if ecm != NoError {
        TerminateOnward(c, s, ecm);
      } else if !switching {
        var s1 := if s.isHttp then s.(ec := HttpConnectionEnded) else s;
        Quietly(c, s, s1);
        TerminateOnward(c, s1, s1.ec);
        OnwardTwice(c, s, s1, Terminate(s1, s1.ec));
      } else {
        OpenedOnward(c, s, calls, items);
      }
  }

  lemma StartOnward(c: Config, s: Session)
    requires Inv(c, s)
    ensures Onward(c, s, Start(s))
  {
    hide Terminate, FramesOk, HasClose;
    TerminateOnward(c, s, InvalidState);
    if s.istate == UserInit { Quietly(c, s, Start(s)); }
  }

  lemma TransportInitOnward(c: Config, s: Session, ec: Error)
    requires Inv(c, s)
    ensures Onward(c, s, HandleTransportInit(s, ec))
  {
    hide Terminate, FramesOk, HasClose;
    var ecm := if s.istate != TransportInit then InvalidState else ec;
    TerminateOnward(c, s, ecm);
    if ecm == NoError { Quietly(c, s, HandleTransportInit(s, ec)); }
  }

  lemma StepOnward(c: Config, s: Session, e: Event)
    requires Inv(c, s) && Enabled(s, e)
    ensures Onward(c, s, Step(c, s, e))
  {
    hide Callback, Terminate, HandleReadFrame, HandleReadHandshake, HandleWriteHttpResponse, Perform,
         HandleTerminate, Start, HandleTransportInit, Inv;
    match e
    case Started => StartOnward(c, s);
    case TransportReady(ec) => TransportInitOnward(c, s, ec);
    case HandshakeRead(ec, r) => HandshakeReadOnward(c, s, ec, r);
    case ResponseWritten(ec, switching, calls, items) => ResponseWrittenOnward(c, s, ec, switching, calls, items);
    case FrameRead(ec, items) => FrameReadOnward(c, s, ec, items);
    case FrameWritten(ec, terminal) =>
      InvOnward(c, s);
      TerminateOnward(c, s, ec);
    case TimerExpired => TerminateOnward(c, s, HandshakeTimeout);
    case Api(call) => PerformOnward(c, s, call);
    case ShutDown(calls) =>
      HandleTerminateOnward(c, s);
      CallbackOnward(c, HandleTerminate(s), calls);
      OnwardTwice(c, s, HandleTerminate(s), Callback(c, HandleTerminate(s), calls));
  }

  lemma {:induction false} RunOnward(c: Config, s: Session, es: seq<Event>)
    requires Inv(c, s) && ValidRun(c, s, es)
    ensures Onward(c, s, Run(c, s, es))
    decreases |es|
  {
    hide Step, Inv;
    if es == [] {
      InvOnward(c, s);
    } else {
      StepOnward(c, s, es[0]);
      RunOnward(c, Step(c, s, es[0]), es[1..]);
      OnwardTwice(c, s, Step(c, s, es[0]), Run(c, s, es));
    }
  }

  // ---- the results ----

  lemma FromStart(c: Config, es: seq<Event>)
    requires ValidRun(c, INIT, es)
    ensures Inv(c, Run(c, INIT, es))
  {
    RunOnward(c, INIT, es);
  }

  /** The session state only ever moves forward, and nothing that was pushed is taken back,
      from any point of any run to any later one. */
  lemma OnlyForward(c: Config, es: seq<Event>, more: seq<Event>)
    requires ValidRun(c, INIT, es) && ValidRun(c, Run(c, INIT, es), more)
    ensures var s, s' := Run(c, INIT, es), Run(c, Run(c, INIT, es), more);
            && Rank(s.state) <= Rank(s'.state)
            && s.log.pushed <= s'.log.pushed
            && (s'.state in {Open, Closing} ==> s'.istate == ProcessConnection)
  {
    FromStart(c, es);
    RunOnward(c, Run(c, INIT, es), more);
  }

  /** After the first close frame no data, ping or pong is ever pushed, in any continuation. */
  lemma SilentAfterClose(c: Config, es: seq<Event>, more: seq<Event>, i: nat, j: nat)
    requires ValidRun(c, INIT, es) && ValidRun(c, Run(c, INIT, es), more)
    requires var p := Run(c, INIT, es).log.pushed; i < |p| && p[i].CloseFrame?
    requires i < j < |Run(c, Run(c, INIT, es), more).log.pushed|
    ensures Run(c, Run(c, INIT, es), more).log.pushed[j].CloseFrame?
  {
    FromStart(c, es);
    var s := Run(c, INIT, es);
    RunOnward(c, s, more);
    assert Run(c, s, more).log.pushed[i] == s.log.pushed[i];
  }

  /** Handlers, over every run: at most one shutdown is started; open, close and fail run at
      most once each; close only after open; open and fail never both; and a terminated
      connection has run exactly one of close (if it was open) and fail (if it never was,
      except that a finished plain HTTP exchange runs neither). */
  lemma HandlersOnce(c: Config, es: seq<Event>)
    requires ValidRun(c, INIT, es)
    ensures var s := Run(c, INIT, es);
            var l := s.log;
            && l.started <= 1 && l.opens <= 1 && l.closes <= l.opens && l.fails + l.opens <= 1
            && (l.started == 1 <==> s.state == Closed)
            && (s.state == Closed && l.shutdowns == [] ==>
                  l.closes == l.opens && l.fails + l.quiet == 1 - l.opens)
  {
    FromStart(c, es);
  }

  /** Every close acknowledgement ever pushed is terminal, and with silent close off it echoes
      what was received: its code, which is legal on the wire, and its reason are those of the
      last close payload that had been received when it was pushed, or 1000 if that payload was
      empty, or 1002 with a reason if its code or its reason was invalid. */
  lemma AcksAreLegal(c: Config, es: seq<Event>, i: nat)
    requires ValidRun(c, INIT, es) && !c.silentClose
    requires var p := Run(c, INIT, es).log.pushed; i < |p| && IsAck(p[i])
    ensures var l := Run(c, INIT, es).log;
            var f := l.pushed[i];
            && f.msg.terminal && Close.LegalOnWire(f.code) && 1 <= f.heard <= |l.received|
            && var payload := l.received[f.heard - 1];
               var (code, ec) := Close.ExtractCode(payload);
               var (reason, valid) := Close.ExtractReason(payload);
               if ec.Some? then (f.code, f.reason) == (Close.PROTOCOL_ERROR, INVALID_CODE_REASON)
               else if !valid then (f.code, f.reason) == (Close.PROTOCOL_ERROR, INVALID_REASON_REASON)
               else if payload == [] then (f.code, f.reason) == (Close.NORMAL, [])
               else (f.code, f.reason) == (code, reason)
  {
    AllAnswered(c, es, i);
    var l := Run(c, INIT, es).log;
    hide Run, ValidRun, Close.LegalOnWire, Close.ExtractReason;
    AnswerIsLegal(l.received[l.pushed[i].heard - 1]);
  }

  lemma AllAnswered(c: Config, es: seq<Event>, i: nat)
    requires ValidRun(c, INIT, es) && i < |Run(c, INIT, es).log.pushed|
    ensures Answered(c, Run(c, INIT, es).log.received, Run(c, INIT, es).log.pushed[i])
  {
    hide Answered;
    FromStart(c, es);
  }

  /** The payload that an acknowledgement answers really is the one just received: cut a run at
      any point, and an acknowledgement pushed before the cut answers a payload received before
      it, one pushed after the cut a payload received after it; and no payload is answered twice. */
  lemma AcksAnswerInOrder(c: Config, es: seq<Event>, more: seq<Event>, i: nat)
    requires ValidRun(c, INIT, es) && ValidRun(c, Run(c, INIT, es), more)
    requires var p := Run(c, Run(c, INIT, es), more).log.pushed; i < |p| && IsAck(p[i])
    ensures var l, l' := Run(c, INIT, es).log, Run(c, Run(c, INIT, es), more).log;
            && l.received <= l'.received
            && 1 <= l'.pushed[i].heard <= |l'.received|
            && (i < |l.pushed| <==> l'.pushed[i].heard <= |l.received|)
            && forall j | 0 <= j < |l'.pushed| && j != i && IsAck(l'.pushed[j]) ::
                 l'.pushed[j].heard != l'.pushed[i].heard
  {
    FromStart(c, es);
    var s := Run(c, INIT, es);
    RunOnward(c, s, more);
    var s' := Run(c, s, more);
    hide Run, IsAck, Answer, Close.LegalOnWire;
    assert Answered(c, s'.log.received, s'.log.pushed[i]);
    if i < |s.log.pushed| {
      assert s.log.pushed[i] == s'.log.pushed[i];
      assert Answered(c, s.log.received, s.log.pushed[i]);
    } else {
      assert s'.log.pushed[i] == s'.log.pushed[|s.log.pushed|..][i - |s.log.pushed|];
    }
  }

  /** A connection that counts as cleanly closed has seen a close frame and pushed one. */
  lemma CleanMeansBoth(c: Config, es: seq<Event>)
    requires ValidRun(c, INIT, es) && Run(c, INIT, es).wasClean
    ensures Run(c, INIT, es).log.received != [] && HasClose(Run(c, INIT, es).log.pushed)
  {
    FromStart(c, es);
  }

  // ---- how many close frames ----

  /** Exactly when a received close payload makes the session push a close frame: when it is
      well formed and the session is open, or when it is malformed and the connection is not
      dropped for that; provided the answer can be prepared. What is pushed acknowledges it. */
  lemma ClosePushedIff(c: Config, s: Session, payload: seq<Byte>, out: Option<Message>)
    requires s.state in {Open, Closing}
    ensures var s' := ProcessClose(c, s, payload, out);
            if out.Some? && (if Malformed(payload) then !c.dropOnProtocolError else s.state == Open) then
              AckPushed(s, s')
            else s'.log.pushed == s.log.pushed
  {
    hide Close.ExtractCode, Close.ExtractReason, ChooseClose;
    hide AckPushed;
    var s1 := Noted(s, payload);
    var s2 := s1.(remoteReason := Close.ExtractReason(payload).0);
    AckIsPushed(c, s, s1, Close.PROTOCOL_ERROR, INVALID_CODE_REASON, out);
    AckIsPushed(c, s, s2, Close.PROTOCOL_ERROR, INVALID_REASON_REASON, out);
    AckIsPushed(c, s, s2, Close.BLANK, [], out);
    hide SendCloseFrame;
  }

  /** One acknowledgement more, heard right after one more close payload. */
  predicate AckPushed(s: Session, s': Session) {
    var p, q := s.log.pushed, s'.log.pushed;
    |q| == |p| + 1 && q[..|p|] == p && IsAck(q[|p|]) && q[|p|].heard == |s.log.received| + 1
  }

  lemma AckIsPushed(c: Config, s: Session, t: Session, code: nat, reason: seq<Byte>, out: Option<Message>)
    requires t.log.pushed == s.log.pushed && |t.log.received| == |s.log.received| + 1
    ensures var s' := SendCloseFrame(c, t, code, reason, true, true, out).0;
            if out.Some? then AckPushed(s, s') else s'.log.pushed == s.log.pushed
  {
    hide ChooseClose;
  }

  /** In any run, every close frame but the first acknowledges a malformed payload of its own,
      and there is none if malformed payloads drop the connection; so there are at most one
      more close frames than malformed payloads. */
  lemma CloseFramesBounded(c: Config, es: seq<Event>)
    requires ValidRun(c, INIT, es)
    ensures var l := Run(c, INIT, es).log;
            && CloseFrames(l.pushed) <= 1 + (if c.dropOnProtocolError then 0 else MalformedCount(l.received))
            && forall i, j | 0 <= i < j < |l.pushed| && l.pushed[i].CloseFrame? && l.pushed[j].CloseFrame? ::
                 Excused(c, l.received, l.pushed[j])
  {
    FromStart(c, es);
  }

  /** After a close call on an open session, a second close frame is pushed exactly when the
      peer answers with a malformed payload that does not drop the connection. */
  lemma SecondCloseFrame(c: Config, s: Session, code: nat, out: Message, payload: seq<Byte>)
    requires Inv(c, s) && s.state == Open
    ensures var s1 := Step(c, s, Api(CloseWith(code, [], Some(out))));
            var s2 := Step(c, s1, FrameRead(NoError, [ControlItem(CloseOp, payload, [], false, Some(out))]));
            && CloseFrames(s1.log.pushed) == 1
            && CloseFrames(s2.log.pushed) == if Malformed(payload) && !c.dropOnProtocolError then 2 else 1
  {
    hide Malformed, FramesOk, HasClose, ProcessClose, HandleReadFrame, CloseFrames;
    var s1 := Step(c, s, Api(CloseWith(code, [], Some(out))));
    CountAppended(s.log.pushed, s1.log.pushed[|s.log.pushed|]);
    NoneYet(c, s);
    var s0 := ProcessClose(c, s1, payload, Some(out));
    CloseRead(c, s1, payload, Some(out));
    ClosePushedIff(c, s1, payload, Some(out));
    if s0.log.pushed != s1.log.pushed {
      assert s0.log.pushed == s1.log.pushed + [s0.log.pushed[|s1.log.pushed|]];
      CountAppended(s1.log.pushed, s0.log.pushed[|s1.log.pushed|]);
    }
  }

  /** Reading nothing but a close frame is processing it. */
  lemma CloseRead(c: Config, s: Session, payload: seq<Byte>, out: Option<Message>)
    requires s.istate == ProcessConnection && s.state in {Open, Closing}
    ensures Step(c, s, FrameRead(NoError, [ControlItem(CloseOp, payload, [], false, out)]))
         == ProcessClose(c, s, payload, out)
  {
    hide ProcessClose;
    var i := ControlItem(CloseOp, payload, [], false, out);
    assert [i][1..] == [];
    var s0 := ProcessControlFrame(c, s, i);
    assert ReadItems(c, s, [i]) == ReadItems(c, s0, []) == s0;
  }

  lemma NoneYet(c: Config, s: Session)
    requires Inv(c, s) && s.state == Open
    ensures CloseFrames(s.log.pushed) == 0
  {
  }

  lemma RunOn(c: Config, s: Session, e: Event, es: seq<Event>)
    requires Enabled(s, e) && ValidRun(c, Step(c, s, e), es)
    ensures ValidRun(c, s, [e] + es) && Run(c, s, [e] + es) == Run(c, Step(c, s, e), es)
  {
    hide Step;
    assert ([e] + es)[1..] == es;
  }

  lemma OpeningSteps(c: Config) returns (s1: Session, s2: Session, s3: Session, s: Session)
    ensures Inv(c, INIT) && Step(c, INIT, Started) == s1 && Step(c, s1, TransportReady(NoError)) == s2
    ensures Step(c, s2, HandshakeRead(NoError, Complete(false, [], NoError))) == s3
    ensures s3 == INIT.(istate := ProcessHttpRequest)
    ensures Step(c, s3, ResponseWritten(NoError, true, [], [])) == s && s.state == Open
  {
    hide FramesOk, HasClose;
    FromStart(c, []);
    s1 := INIT.(istate := TransportInit);
    s2 := INIT.(istate := ReadHttpRequest);
    s3 := INIT.(istate := ProcessHttpRequest);
    s := Step(c, s3, ResponseWritten(NoError, true, [], []));
  }

  /** A run that opens the session. */
  lemma Opens(c: Config, more: seq<Event>) returns (es: seq<Event>, s: Session)
    requires var t := Step(c, INIT.(istate := ProcessHttpRequest), ResponseWritten(NoError, true, [], []));
             ValidRun(c, t, more)
    ensures s == Step(c, INIT.(istate := ProcessHttpRequest), ResponseWritten(NoError, true, [], []))
    ensures s.state == Open && Inv(c, s)
    ensures ValidRun(c, INIT, es) && Run(c, INIT, es) == Run(c, s, more)
  {
    hide Step, ValidRun, Run, Inv;
    var s1, s2, s3;
    s1, s2, s3, s := OpeningSteps(c);
    StepOnward(c, INIT, Started);
    StepOnward(c, s1, TransportReady(NoError));
    StepOnward(c, s2, HandshakeRead(NoError, Complete(false, [], NoError)));
    StepOnward(c, s3, ResponseWritten(NoError, true, [], []));
    es := more;
    RunOn(c, s3, ResponseWritten(NoError, true, [], []), es);
    es := [ResponseWritten(NoError, true, [], [])] + es;
    RunOn(c, s2, HandshakeRead(NoError, Complete(false, [], NoError)), es);
    es := [HandshakeRead(NoError, Complete(false, [], NoError))] + es;
    RunOn(c, s1, TransportReady(NoError), es);
    es := [TransportReady(NoError)] + es;
    RunOn(c, INIT, Started, es);
    es := [Started] + es;
  }

  /** Whether one close frame is all there ever is depends on the configuration alone: it is so
      in every run exactly if malformed payloads drop the connection. */
  lemma OneCloseFrameIff(c: Config, out: Message)
    ensures c.dropOnProtocolError <==>
            forall es | ValidRun(c, INIT, es) :: CloseFrames(Run(c, INIT, es).log.pushed) <= 1
  {
    if c.dropOnProtocolError {
      forall es | ValidRun(c, INIT, es)
        ensures CloseFrames(Run(c, INIT, es).log.pushed) <= 1
      {
        CloseFramesBounded(c, es);
      }
    } else {
      var es := TwoCloses(c, out);
    }
  }

  lemma TwoCloses(c: Config, out: Message) returns (es: seq<Event>)
    requires !c.dropOnProtocolError
    ensures ValidRun(c, INIT, es) && CloseFrames(Run(c, INIT, es).log.pushed) == 2
  {
    var s := Step(c, INIT.(istate := ProcessHttpRequest), ResponseWritten(NoError, true, [], []));
    var call := Api(CloseWith(Close.NORMAL, [], Some(out)));
    var answer := FrameRead(NoError, [ControlItem(CloseOp, [0], [], false, Some(out))]);
    hide Step;
    var s1 := Step(c, s, call);
    RunOn(c, s1, answer, []);
    RunOn(c, s, call, [answer] + []);
    es, s := Opens(c, [call] + ([answer] + []));
    SecondCloseFrame(c, s, Close.NORMAL, out, [0]);
  }

  // ---- the handshake in both directions ----

  /** Closing from the other end: a valid close frame on an open connection is acknowledged
      with its own code and reason unless the endpoint closes silently, and once the
      acknowledgement is written the connection terminates. */
  lemma PeerCloses(c: Config, s: Session, payload: seq<Byte>, out: Message)
    requires Inv(c, s) && s.state == Open && !Malformed(payload)
    ensures var s1 := Step(c, s, FrameRead(NoError, [ControlItem(CloseOp, payload, [], false, Some(out))]));
            var s2 := Step(c, s1, FrameWritten(NoError, true));
            var n := |s.log.pushed|;
            && s1.state == Closing && s1.wasClean && |s1.log.pushed| == n + 1
            && s1.log.received == s.log.received + [payload]
            && IsAck(s1.log.pushed[n]) && s1.log.pushed[n].heard == |s1.log.received|
            && s1.log.pushed[n].msg == out.(terminal := true)
            && (!c.silentClose ==> (s1.log.pushed[n].code, s1.log.pushed[n].reason) == Answer(payload))
            && s2.state == Closed && s2.log.shutdowns == [ClosedStatus]
            && Step(c, s2, ShutDown([])).log.closes == 1
  {
    AnswerIsLegal(payload);
    hide Close.ExtractCode, Close.ExtractReason, Answer, FramesOk, HasClose, ReadItems;
    CloseRead(c, s, payload, Some(out));
    assert s.log.shutdowns == [];
  }

  /** Closing from this end: the close frame goes out, and the peer's answer terminates the
      connection, which then counts as cleanly closed. */
  lemma WeClose(c: Config, s: Session, code: nat, out: Message, payload: seq<Byte>)
    requires Inv(c, s) && s.state == Open && !Malformed(payload)
    ensures var s1 := Step(c, s, Api(CloseWith(code, [], Some(out))));
            var s2 := Step(c, s1, FrameRead(NoError, [ControlItem(CloseOp, payload, [], false, None)]));
            && s1.state == Closing
            && |s1.log.pushed| == |s.log.pushed| + 1 && s1.log.pushed[|s.log.pushed|].CloseFrame?
            && s2.state == Closed && s2.wasClean && s2.log.shutdowns == [ClosedStatus]
            && s2.localCode == s1.localCode && s2.log.pushed == s1.log.pushed
  {
    hide Close.ExtractCode, Close.ExtractReason, FramesOk, HasClose, ReadItems;
    var s1 := Step(c, s, Api(CloseWith(code, [], Some(out))));
    CloseRead(c, s1, payload, None);
    assert s.log.shutdowns == [];
  }
}
