/** The life of a server-side connection: session state, opening handshake, read loop, close
    handshake and termination. Each API call and each handler of the event loop is one step;
    what the application does inside a callback is part of the step that runs the callback. */
module Lifecycle {
  import opened Messages
  import Close

  datatype SessionState = Connecting | Open | Closing | Closed

  datatype InternalState =
    | UserInit | TransportInit | ReadHttpRequest | ProcessHttpRequest | ProcessConnection

  datatype Error =
    | NoError | InvalidState | HttpConnectionEnded | HandshakeTimeout | Eof | Other

  datatype TerminateStatus = FailedStatus | ClosedStatus

  /** A message given to write_push, and why. A close frame also records how many close
      frames had been received when it was pushed. */
  datatype Frame =
    | Data(msg: Message)
    | Ping(msg: Message)
    | Pong(msg: Message)
    | CloseFrame(msg: Message, code: nat, reason: seq<Byte>, ack: bool, heard: nat)

  datatype Config = Config(silentClose: bool, dropOnProtocolError: bool)

  datatype Session = Session(
    state: SessionState,               // m_state
    istate: InternalState,             // m_internal_state
    ec: Error,                         // m_ec
    isHttp: bool,                      // m_is_http
    wasClean: bool,                    // m_was_clean
    localCode: nat,                    // m_local_close_code
    localReason: seq<Byte>,            // m_local_close_reason
    remoteCode: nat,                   // m_remote_close_code
    remoteReason: seq<Byte>,           // m_remote_close_reason
    log: History)

  /** What has happened so far, as the application and the transport saw it. */
  datatype History = History(
    pushed: seq<Frame>,
    shutdowns: seq<TerminateStatus>,   // async_shutdown calls whose handler has not run
    started: nat,                      // async_shutdown calls
    opens: nat, closes: nat, fails: nat,
    quiet: nat,                        // failed terminations with no handler to run
    received: seq<seq<Byte>>)          // payloads of the close frames looked at

  const INIT := Session(Connecting, UserInit, NoError, false, false,
                        Close.ABNORMAL_CLOSE, [], Close.ABNORMAL_CLOSE, [],
                        History([], [], 0, 0, 0, 0, 0, []))

  // ---- termination ----

  function Terminate(s: Session, ec: Error): Session {
    var s := if ec == NoError then s else s.(ec := ec, localCode := Close.ABNORMAL_CLOSE, localReason := []);
    if s.state == Closed then s
    else
      var tstat := if s.state == Connecting then FailedStatus else ClosedStatus;
      s.(state := Closed, log := s.log.(shutdowns := s.log.shutdowns + [tstat], started := s.log.started + 1))
  }

  /** handle_terminate, the completion of the shutdown that was started first. */
  function HandleTerminate(s: Session): Session
    requires s.log.shutdowns != []
  {
    var l := s.log.(shutdowns := s.log.shutdowns[1..]);
    s.(log := match s.log.shutdowns[0]
              case FailedStatus =>
                if s.ec != HttpConnectionEnded then l.(fails := l.fails + 1) else l.(quiet := l.quiet + 1)
              case ClosedStatus => l.(closes := l.closes + 1))
  }

  // ---- sending ----

  function PushFrame(s: Session, f: Frame): Session {
    s.(log := s.log.(pushed := s.log.pushed + [f]))
  }

  /** The code and reason of a close frame about to be sent. */
  function ChooseClose(c: Config, s: Session, code: nat, reason: seq<Byte>, ack: bool): (nat, seq<Byte>) {
    if c.silentClose then (Close.NO_STATUS, [])
    else if code != Close.BLANK then (code, reason)
    else if !ack then (Close.NO_STATUS, [])
    else if s.remoteCode == Close.NO_STATUS then (Close.NORMAL, [])
    else (s.remoteCode, s.remoteReason)
  }

  /** out is what get_message and prepare_close made; None if either failed. */
  function SendCloseFrame(c: Config, s: Session, code: nat, reason: seq<Byte>, ack: bool, terminal: bool,
                          out: Option<Message>): (Session, Error)
  {
    var (localCode, localReason) := ChooseClose(c, s, code, reason, ack);
    var s := s.(localCode := localCode, localReason := localReason);
    if out == None then (s, Other)
    else
      var msg := if terminal then out.value.(terminal := true) else out.value;
      var s := s.(state := Closing, wasClean := s.wasClean || ack);
      (PushFrame(s, CloseFrame(msg, localCode, localReason, ack, |s.log.received|)), NoError)
  }

  /** What the application can ask for, from any thread or from inside a callback. In each
      case out is the prepared message, or None if preparing it failed. */
  datatype Call =
    | Send(out: Option<Message>)
    | SendPing(out: Option<Message>)
    | SendPong(out: Option<Message>)
    | CloseWith(code: nat, reason: seq<Byte>, out: Option<Message>)
    | TerminateWith(ec: Error)
    | HttpResponse(ec: Error)

  function Perform(c: Config, s: Session, call: Call): (Session, Error) {
    match call
    case TerminateWith(ec) => (Terminate(s, ec), NoError)
    case HttpResponse(ec) => (s.(ec := ec), NoError)
    case CloseWith(code, reason, out) =>
      var tr := if |reason| > Close.CLOSE_REASON_SIZE then reason[..Close.CLOSE_REASON_SIZE] else reason;
      if s.state != Open then (s, InvalidState)
      else SendCloseFrame(c, s, code, tr, false, Close.Terminal(code), out)
    case _ =>
      if s.state != Open then (s, InvalidState)
      else if call.out == None then (s, Other)
      else
        var msg := call.out.value;
        (PushFrame(s, match call case Send(_) => Data(msg) case SendPing(_) => Ping(msg) case _ => Pong(msg)), NoError)
  }

  /** What a callback does before it returns. */
  function Callback(c: Config, s: Session, calls: seq<Call>): Session
    decreases |calls|
  {
    if calls == [] then s else Callback(c, Perform(c, s, calls[0]).0, calls[1..])
  }

  // ---- receiving ----

  datatype ControlOp = PingOp | PongOp | CloseOp | InvalidOp

  /** What one turn of the read loop finds: a message for the application, a control frame
      (with what the ping or pong handler does, whether a ping is answered, and the prepared
      answer), nothing usable, or an error from the processor. */
  datatype Item =
    | DataItem(calls: seq<Call>)
    | ControlItem(op: ControlOp, payload: seq<Byte>, calls: seq<Call>, reply: bool, out: Option<Message>)
    | NullItem
    | ErrorItem(code: nat, reason: seq<Byte>, out: Option<Message>)

  function ProcessControlFrame(c: Config, s: Session, i: Item): Session
    requires i.ControlItem?
  {
    if s.state == Closed then s
    else if i.op != CloseOp && s.state != Open then s
    else match i.op
      case PingOp =>
        var s := Callback(c, s, i.calls);
        if i.reply then Perform(c, s, SendPong(i.out)).0 else s
      case PongOp => Callback(c, s, i.calls)
      case CloseOp => ProcessClose(c, s, i.payload, i.out)
      case InvalidOp => s
  }

  function ProcessClose(c: Config, s: Session, payload: seq<Byte>, out: Option<Message>): Session {
    var (code, codeError) := Close.ExtractCode(payload);
    var s := s.(remoteCode := code, log := s.log.(received := s.log.received + [payload]));
    if codeError.Some? then
      if c.dropOnProtocolError then Terminate(s, Other)
      else SendCloseFrame(c, s, Close.PROTOCOL_ERROR, INVALID_CODE_REASON, true, true, out).0
    else
      var (reason, reasonValid) := Close.ExtractReason(payload);
      var s := s.(remoteReason := reason);
      if !reasonValid then
        if c.dropOnProtocolError then Terminate(s, Other)
        else SendCloseFrame(c, s, Close.PROTOCOL_ERROR, INVALID_REASON_REASON, true, true, out).0
      else if s.state == Open then SendCloseFrame(c, s, Close.BLANK, [], true, true, out).0
      else if s.state == Closing && !s.wasClean then Terminate(s.(wasClean := true), NoError)
      else s
  }

  const INVALID_CODE_REASON: seq<Byte> :=
    [73, 110, 118, 97, 108, 105, 100, 32, 99, 108, 111, 115, 101, 32, 99, 111, 100, 101]
  const INVALID_REASON_REASON: seq<Byte> :=
    [73, 110, 118, 97, 108, 105, 100, 32, 99, 108, 111, 115, 101, 32, 114, 101, 97, 115, 111, 110]

  /** The loop of handle_read_frame; an error ends it. */
  function ReadItems(c: Config, s: Session, items: seq<Item>): Session
    decreases |items|
  {
    if items == [] then s
    else match items[0]
      case DataItem(calls) =>
        ReadItems(c, if s.state == Open then Callback(c, s, calls) else s, items[1..])
      case ControlItem(_, _, _, _, _) => ReadItems(c, ProcessControlFrame(c, s, items[0]), items[1..])
      case NullItem => ReadItems(c, s, items[1..])
      case ErrorItem(code, reason, out) =>
        if c.dropOnProtocolError then Terminate(s, Other)
        else
          var (s', ec) := Perform(c, s, CloseWith(code, reason, out));
          if ec != NoError then Terminate(s', ec) else s'
  }

  function HandleReadFrame(c: Config, s: Session, ec: Error, items: seq<Item>): Session {
    var ecm := if ec == NoError && s.istate != ProcessConnection then InvalidState else ec;
    if ecm == NoError then ReadItems(c, s, items)
    else if ecm in {Eof, InvalidState} && s.state == Closed then s
    else Terminate(s, ecm)
  }

  // ---- opening ----

  function Start(s: Session): Session {
    if s.istate != UserInit then Terminate(s, InvalidState) else s.(istate := TransportInit)
  }

  function HandleTransportInit(s: Session, ec: Error): Session {
    var ecm := if s.istate != TransportInit then InvalidState else ec;
    if ecm != NoError then Terminate(s, ecm) else s.(istate := ReadHttpRequest)
  }

  /** How reading the request went: more bytes needed, a failed bounds check, an error that is
      answered at once, or a complete request with what its handlers did and its result. */
  datatype Request =
    | Incomplete
    | OutOfBounds
    | Rejected(ec: Error)
    | Complete(http: bool, calls: seq<Call>, ec: Error)

  /** The handshake states that accept a completed read or write; None means ignore it. */
  function HandshakeError(s: Session, expected: InternalState, ec: Error): Option<Error> {
    if ec == NoError then
      if s.state == Connecting then Some(if s.istate != expected then InvalidState else NoError)
      else if s.state == Closed then None
      else Some(InvalidState)
    else if ec == Eof && s.state == Closed then None
    else Some(ec)
  }

  function WriteHttpResponseError(s: Session, e: Error): Session {
    if s.istate != ReadHttpRequest then Terminate(s, InvalidState)
    else s.(istate := ProcessHttpRequest, ec := e)
  }

  function HandleReadHandshake(c: Config, s: Session, ec: Error, r: Request): Session {
    match HandshakeError(s, ReadHttpRequest, ec)
    case None => s
    case Some(ecm) =>
      if ecm != NoError then Terminate(s, ecm)
      else match r
        case Incomplete => s
        case OutOfBounds => Terminate(s, Other)
        case Rejected(e) => WriteHttpResponseError(s, e)
        case Complete(http, calls, e) =>
          var s := Callback(c, s.(istate := ProcessHttpRequest, isHttp := s.isHttp || http), calls);
          if e == HttpConnectionEnded then s else s.(ec := e)
  }

  /** Switching protocols opens the connection, runs the open handler, and goes straight on
      to the bytes that came after the request. */
  function HandleWriteHttpResponse(c: Config, s: Session, ec: Error, switching: bool,
                                   calls: seq<Call>, items: seq<Item>): Session
  {
    match HandshakeError(s, ProcessHttpRequest, ec)
    case None => s
    case Some(ecm) =>
      if ecm != NoError then Terminate(s, ecm)
      else if !switching then
        var s := if s.isHttp then s.(ec := HttpConnectionEnded) else s;
        Terminate(s, s.ec)
      else
        var s := s.(istate := ProcessConnection, state := Open, log := s.log.(opens := s.log.opens + 1));
        HandleReadFrame(c, Callback(c, s, calls), NoError, items)
  }

  // ---- runs ----

  datatype Event =
    | Started
    | TransportReady(ec: Error)
    | HandshakeRead(ec: Error, r: Request)
    | ResponseWritten(ec: Error, switching: bool, calls: seq<Call>, items: seq<Item>)
    | FrameRead(ec: Error, items: seq<Item>)
    | FrameWritten(ec: Error, terminal: bool)
    | TimerExpired
    | Api(call: Call)
    | ShutDown(calls: seq<Call>)

  predicate Enabled(s: Session, e: Event) {
    e.ShutDown? ==> s.log.shutdowns != []
  }

  function Step(c: Config, s: Session, e: Event): Session
    requires Enabled(s, e)
  {
    match e
    case Started => Start(s)
    case TransportReady(ec) => HandleTransportInit(s, ec)
    case HandshakeRead(ec, r) => HandleReadHandshake(c, s, ec, r)
    case ResponseWritten(ec, switching, calls, items) => HandleWriteHttpResponse(c, s, ec, switching, calls, items)
    case FrameRead(ec, items) => HandleReadFrame(c, s, ec, items)
    case FrameWritten(ec, terminal) =>
      if ec != NoError then Terminate(s, ec) else if terminal then Terminate(s, NoError) else s
    case TimerExpired => Terminate(s, HandshakeTimeout)
    case Api(call) => Perform(c, s, call).0
    case ShutDown(calls) => Callback(c, HandleTerminate(s), calls)
  }

  predicate ValidRun(c: Config, s: Session, es: seq<Event>)
    decreases |es|
  {
    es == [] || (Enabled(s, es[0]) && ValidRun(c, Step(c, s, es[0]), es[1..]))
  }

  function Run(c: Config, s: Session, es: seq<Event>): Session
    requires ValidRun(c, s, es)
    decreases |es|
  {
    if es == [] then s else Run(c, Step(c, s, es[0]), es[1..])
  }
}
