/** The connection object: the fields that the lifecycle describes, and the methods that change
    them in place. Every handler keeps the invariant of the lifecycle, and a connection driven
    through any run of events has what is proved of runs. */
module ServerConnection {
  import opened Messages
  import opened Lifecycle
  import opened LifecycleProofs
  import Close

  class Connection {
    const config: Config
    var state: SessionState
    var istate: InternalState
    var ec: Error
    var isHttp: bool
    var wasClean: bool
    var localCode: nat
    var localReason: seq<Byte>
    var remoteCode: nat
    var remoteReason: seq<Byte>
    var shutdowns: seq<TerminateStatus>   // bound to the async_shutdown handlers still to run
    ghost var log: History

    ghost function Value(): Session
      reads this
    {
      Session(state, istate, ec, isHttp, wasClean, localCode, localReason, remoteCode, remoteReason,
              log.(shutdowns := shutdowns))
    }

    ghost predicate Valid()
      reads this
    {
      Inv(config, Value())
    }

    constructor (config: Config)
      ensures this.config == config && Value() == INIT && Valid()
    {
      this.config := config;
      state, istate, ec, isHttp, wasClean := Connecting, UserInit, NoError, false, false;
      localCode, localReason := Close.ABNORMAL_CLOSE, [];
      remoteCode, remoteReason := Close.ABNORMAL_CLOSE, [];
      shutdowns := [];
      log := INIT.log;
      new;
      FromStart(config, []);
    }

    // ---- the pieces of the handlers ----

    method DoTerminate(error: Error)
      modifies this
      ensures Value() == Terminate(old(Value()), error)
    {
      if error != NoError {
        ec := error;
        localCode, localReason := Close.ABNORMAL_CLOSE, [];
      }
      var tstat;
      if state == Connecting {
        state := Closed;
        tstat := FailedStatus;
      } else if state != Closed {
        state := Closed;
        tstat := ClosedStatus;
      } else {
        return;
      }
      shutdowns := shutdowns + [tstat];
      log := log.(started := log.started + 1);
    }

    method DoHandleTerminate(tstat: TerminateStatus)
      requires shutdowns != [] && shutdowns[0] == tstat
      modifies this`log, this`shutdowns
      ensures Value() == HandleTerminate(old(Value()))
    {
      shutdowns := shutdowns[1..];
      if tstat == FailedStatus {
        if ec != HttpConnectionEnded {
          log := log.(fails := log.fails + 1);
        } else {
          log := log.(quiet := log.quiet + 1);
        }
      } else {
        log := log.(closes := log.closes + 1);
      }
    }

    method WritePush(ghost f: Frame)
      modifies this`log
      ensures Value() == PushFrame(old(Value()), f)
    {
      log := log.(pushed := log.pushed + [f]);
    }

    method DoSendCloseFrame(code: nat, reason: seq<Byte>, ack: bool, terminal: bool,
                            out: Option<Message>) returns (error: Error)
      modifies this
      ensures (Value(), error) == SendCloseFrame(config, old(Value()), code, reason, ack, terminal, out)
    {
      if config.silentClose {
        localCode, localReason := Close.NO_STATUS, [];
      } else if code != Close.BLANK {
        localCode, localReason := code, reason;
      } else if !ack {
        localCode, localReason := Close.NO_STATUS, [];
      } else if remoteCode == Close.NO_STATUS {
        localCode, localReason := Close.NORMAL, [];
      } else {
        localCode, localReason := remoteCode, remoteReason;
      }
      if out == None { return Other; }
      var msg := out.value;
      if terminal {
        msg := msg.(terminal := true);
      }
      state := Closing;
      if ack {
        wasClean := true;
      }
      WritePush(CloseFrame(msg, localCode, localReason, ack, |log.received|));
      error := NoError;
    }

    method DoClose(code: nat, reason: seq<Byte>, out: Option<Message>) returns (error: Error)
      modifies this
      ensures (Value(), error) == Perform(config, old(Value()), CloseWith(code, reason, out))
    {
      var tr := if |reason| > Close.CLOSE_REASON_SIZE then reason[..Close.CLOSE_REASON_SIZE] else reason;
      if state != Open { return InvalidState; }
      error := DoSendCloseFrame(code, tr, false, Close.Terminal(code), out);
    }

    /** Any call of the application: send, ping and pong check the state and push. */
    method DoPerform(call: Call) returns (error: Error)
      modifies this
      ensures (Value(), error) == Perform(config, old(Value()), call)
    {
      match call
      case TerminateWith(e) => DoTerminate(e); error := NoError;
      case HttpResponse(e) => ec := e; error := NoError;
      case CloseWith(code, reason, out) => error := DoClose(code, reason, out);
      case Send(out) =>
        if state != Open { return InvalidState; }
        if out == None { return Other; }
        WritePush(Data(out.value));
        error := NoError;
      case SendPing(out) =>
        if state != Open { return InvalidState; }
        if out == None { return Other; }
        WritePush(Ping(out.value));
        error := NoError;
      case SendPong(out) =>
        if state != Open { return InvalidState; }
        if out == None { return Other; }
        WritePush(Pong(out.value));
        error := NoError;
    }

    method RunCallback(calls: seq<Call>)
      modifies this
      ensures Value() == Callback(config, old(Value()), calls)
    {
      hide Perform;
      var i := 0;
      while i < |calls|
        invariant 0 <= i <= |calls|
        invariant Callback(config, Value(), calls[i..]) == Callback(config, old(Value()), calls)
      {
        assert calls[i..][1..] == calls[i + 1..];
        var error := DoPerform(calls[i]);
        i := i + 1;
      }
    }

    method DoProcessClose(payload: seq<Byte>, out: Option<Message>)
      modifies this
      ensures Value() == ProcessClose(config, old(Value()), payload, out)
    {
      hide SendCloseFrame, Terminate, Close.ExtractCode, Close.ExtractReason;
      var (code, codeError) := Close.ExtractCode(payload);
      remoteCode := code;
      log := log.(received := log.received + [payload]);
      if codeError.Some? {
        if config.dropOnProtocolError {
          DoTerminate(Other);
        } else {
          var e := DoSendCloseFrame(Close.PROTOCOL_ERROR, INVALID_CODE_REASON, true, true, out);
        }
        return;
      }
      var (reason, valid) := Close.ExtractReason(payload);
      remoteReason := reason;
      if !valid {
        if config.dropOnProtocolError {
          DoTerminate(Other);
        } else {
          var e := DoSendCloseFrame(Close.PROTOCOL_ERROR, INVALID_REASON_REASON, true, true, out);
        }
        return;
      }
      if state == Open {
        var e := DoSendCloseFrame(Close.BLANK, [], true, true, out);
      } else if state == Closing && !wasClean {
        wasClean := true;
        DoTerminate(NoError);
      }
    }

    method DoProcessControlFrame(i: Item)
      requires i.ControlItem?
      modifies this
      ensures Value() == ProcessControlFrame(config, old(Value()), i)
    {
      hide Callback, Perform, ProcessClose;
      if state == Closed { return; }
      if i.op != CloseOp && state != Open { return; }
      if i.op == PingOp {
        RunCallback(i.calls);
        if i.reply {
          var e := DoPerform(SendPong(i.out));
        }
      } else if i.op == PongOp {
        RunCallback(i.calls);
      } else if i.op == CloseOp {
        DoProcessClose(i.payload, i.out);
      }
    }

    // ---- the handlers ----

    method DoHandleReadFrame(error: Error, items: seq<Item>)
      requires Valid()
      modifies this
      ensures Value() == HandleReadFrame(config, old(Value()), error, items)
      ensures Onward(config, old(Value()), Value())
    {
      hide Callback, Perform, ProcessControlFrame, Terminate, Inv, Onward;
      FrameReadOnward(config, Value(), error, items);
      var ecm := error;
      if ecm == NoError && istate != ProcessConnection {
        ecm := InvalidState;
      }
      if ecm != NoError {
        if ecm == Eof {
          if state == Closed { return; }
        } else if ecm == InvalidState {
          if state == Closed { return; }
        }
        DoTerminate(ecm);
        return;
      }
      var p := 0;
      while p < |items|
        invariant 0 <= p <= |items|
        invariant ReadItems(config, Value(), items[p..]) == ReadItems(config, old(Value()), items)
      {
        var item := items[p];
        assert items[p..][1..] == items[p + 1..];
        p := p + 1;
        match item
        case DataItem(calls) =>
          if state == Open {
            RunCallback(calls);
          }
        case ControlItem(_, _, _, _, _) => DoProcessControlFrame(item);
        case NullItem =>
        case ErrorItem(code, reason, out) =>
          if config.dropOnProtocolError {
            DoTerminate(Other);
            return;
          }
          var closeError := DoClose(code, reason, out);
          if closeError != NoError {
            DoTerminate(closeError);
          }
          return;
      }
    }

    method DoStart()
      requires Valid()
      modifies this
      ensures Value() == Start(old(Value()))
      ensures Onward(config, old(Value()), Value())
    {
      hide Inv, Onward;
      StartOnward(config, Value());
      if istate != UserInit {
        DoTerminate(InvalidState);
        return;
      }
      istate := TransportInit;
    }

    method DoHandleTransportInit(error: Error)
      requires Valid()
      modifies this
      ensures Value() == HandleTransportInit(old(Value()), error)
      ensures Onward(config, old(Value()), Value())
    {
      hide Inv, Onward;
      TransportInitOnward(config, Value(), error);
      var ecm := error;
      if istate != TransportInit {
        ecm := InvalidState;
      }
      if ecm != NoError {
        DoTerminate(ecm);
        return;
      }
      istate := ReadHttpRequest;
    }

    method DoWriteHttpResponseError(e: Error)
      modifies this
      ensures Value() == WriteHttpResponseError(old(Value()), e)
    {
      if istate != ReadHttpRequest {
        DoTerminate(InvalidState);
        return;
      }
      istate := ProcessHttpRequest;
      ec := e;
    }

    method DoHandleReadHandshake(error: Error, r: Request)
      requires Valid()
      modifies this
      ensures Value() == HandleReadHandshake(config, old(Value()), error, r)
      ensures Onward(config, old(Value()), Value())
    {
      hide Callback, Terminate, Inv, Onward;
      HandshakeReadOnward(config, Value(), error, r);
      var ecm := error;
      if ecm == NoError {
        if state == Connecting {
          if istate != ReadHttpRequest {
            ecm := InvalidState;
          }
        } else if state == Closed {
          return;
        } else {
          ecm := InvalidState;
        }
      }
      if ecm != NoError {
        if ecm == Eof && state == Closed { return; }
        DoTerminate(ecm);
        return;
      }
      match r
      case Incomplete =>
      case OutOfBounds => DoTerminate(Other);
      case Rejected(e) => DoWriteHttpResponseError(e);
      case Complete(http, calls, e) =>
        istate := ProcessHttpRequest;
        isHttp := isHttp || http;
        RunCallback(calls);
        if e != HttpConnectionEnded {
          ec := e;
        }
    }

    method DoHandleWriteHttpResponse(error: Error, switching: bool, calls: seq<Call>, items: seq<Item>)
      requires Valid()
      modifies this
      ensures Value() == HandleWriteHttpResponse(config, old(Value()), error, switching, calls, items)
      ensures Onward(config, old(Value()), Value())
    {
      hide Callback, Terminate, HandleReadFrame, Inv, Onward;
      ResponseWrittenOnward(config, Value(), error, switching, calls, items);
      ghost var was := Value();
      var ecm := error;
      if ecm == NoError {
        if state == Connecting {
          if istate != ProcessHttpRequest {
            ecm := InvalidState;
          }
        } else if state == Closed {
          return;
        } else {
          ecm := InvalidState;
        }
      }
      if ecm != NoError {
        if ecm == Eof && state == Closed { return; }
        DoTerminate(ecm);
        return;
      }
      if !switching {
        if isHttp {
          ec := HttpConnectionEnded;
        }
        DoTerminate(ec);
        return;
      }
      istate := ProcessConnection;
      state := Open;
      log := log.(opens := log.opens + 1);
      OpenedOnward(config, was, calls, items);
      RunCallback(calls);
      DoHandleReadFrame(NoError, items);
    }

    /** The end of handle_write_frame; what comes before is the pipeline's. */
    method DoHandleWriteFrame(error: Error, terminal: bool)
      requires Valid()
      modifies this
      ensures Value() == Step(config, old(Value()), FrameWritten(error, terminal))
      ensures Onward(config, old(Value()), Value())
    {
      hide Inv, Onward, Terminate;
      StepOnward(config, Value(), FrameWritten(error, terminal));
      if error != NoError {
        DoTerminate(error);
        return;
      }
      if terminal {
        DoTerminate(NoError);
      }
    }

    /** One event of the event loop, or one call of the application. */
    method Handle(e: Event)
      requires Valid() && Enabled(Value(), e)
      modifies this
      ensures Value() == Step(config, old(Value()), e)
      ensures Onward(config, old(Value()), Value())
    {
      StepOnward(config, Value(), e);
      hide Inv, Onward, Start, HandleTransportInit, HandleReadHandshake, HandleWriteHttpResponse, HandleReadFrame,
           HandleTerminate, Terminate, Perform, Callback;
      match e
      case Started => DoStart();
      case TransportReady(error) => DoHandleTransportInit(error);
      case HandshakeRead(error, r) => DoHandleReadHandshake(error, r);
      case ResponseWritten(error, switching, calls, items) => DoHandleWriteHttpResponse(error, switching, calls, items);
      case FrameRead(error, items) => DoHandleReadFrame(error, items);
      case FrameWritten(error, terminal) => DoHandleWriteFrame(error, terminal);
      case TimerExpired => DoTerminate(HandshakeTimeout);
      case Api(call) => var error := DoPerform(call);
      case ShutDown(calls) =>
        DoHandleTerminate(shutdowns[0]);
        RunCallback(calls);
    }

    /** Any further events, in order. */
    method HandleAll(es: seq<Event>)
      requires Valid() && ValidRun(config, Value(), es)
      modifies this
      ensures Value() == Run(config, old(Value()), es)
      ensures Onward(config, old(Value()), Value())
    {
      RunOnward(config, Value(), es);
      hide Inv, Step, Enabled;
      var i := 0;
      while i < |es|
        invariant 0 <= i <= |es| && Valid()
        invariant ValidRun(config, Value(), es[i..])
        invariant Run(config, Value(), es[i..]) == Run(config, old(Value()), es)
      {
        assert es[i..][1..] == es[i + 1..];
        Handle(es[i]);
        i := i + 1;
      }
    }
  }

  /** A new connection taken through any events: it ends in the state the run gives, having
      started at most one shutdown and run each handler as often as it may. */
  method Drive(config: Config, es: seq<Event>) returns (connection: Connection)
    requires ValidRun(config, INIT, es)
    ensures fresh(connection) && connection.config == config && connection.Valid()
    ensures connection.Value() == Run(config, INIT, es)
    ensures var l := connection.Value().log;
            && l.started <= 1 && l.opens <= 1 && l.closes <= l.opens && l.fails + l.opens <= 1
            && (l.started == 1 <==> connection.state == Closed)
            && (connection.state == Closed && connection.shutdowns == [] ==>
                  l.closes == l.opens && l.fails + l.quiet == 1 - l.opens)
    ensures connection.state in {Open, Closing} ==> connection.istate == ProcessConnection
  {
    hide Run, ValidRun, Inv;
    connection := new Connection(config);
    connection.HandleAll(es);
    HandlersOnce(config, es);
    RunOnward(config, INIT, es);
    OpenIsProcessing(config, connection.Value());
  }

  lemma OpenIsProcessing(c: Config, s: Session)
    requires Inv(c, s)
    ensures s.state in {Open, Closing} ==> s.istate == ProcessConnection
  {
  }
}
