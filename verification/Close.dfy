/** Close status codes (section 7.4 of RFC 6455) and the payload of a close frame. */
module Close {
  import opened Messages
  import Utf8

  const BLANK := 0
  const NORMAL := 1000
  const PROTOCOL_ERROR := 1002
  const NO_STATUS := 1005
  const ABNORMAL_CLOSE := 1006
  const INVALID_PAYLOAD := 1007
  const POLICY_VIOLATION := 1008
  const MESSAGE_TOO_BIG := 1009
  const INTERNAL_ENDPOINT_ERROR := 1011
  const TLS_HANDSHAKE := 1015

  const RSV_START := 1016
  const RSV_END := 2999
  const INVALID_LOW := 999
  const INVALID_HIGH := 5000

  const CLOSE_REASON_SIZE := 123

  predicate Reserved(code: nat) {
    RSV_START <= code <= RSV_END || code == 1004
  }

  predicate Invalid(code: nat) {
    code <= INVALID_LOW || code >= INVALID_HIGH || code == NO_STATUS || code == ABNORMAL_CLOSE || code == TLS_HANDSHAKE
  }

  predicate Terminal(code: nat) {
    code in {PROTOCOL_ERROR, INVALID_PAYLOAD, POLICY_VIOLATION, MESSAGE_TOO_BIG, INTERNAL_ENDPOINT_ERROR}
  }

  datatype Error = BadCloseCode | InvalidCloseCode | ReservedCloseCode

  /** The 16-bit number that two bytes stand for in network byte order. */
  function Ntohs(high: nat, low: nat): nat { 256 * high + low }

  /** A later error overwrites an earlier one, and the code is returned either way. */
  function ExtractCode(payload: seq<Byte>): (nat, Option<Error>) {
    if |payload| == 0 then (NO_STATUS, None)
    else if |payload| == 1 then (PROTOCOL_ERROR, Some(BadCloseCode))
    else
      var code := Ntohs(payload[0], payload[1]);
      (code, if Reserved(code) then Some(ReservedCloseCode)
             else if Invalid(code) then Some(InvalidCloseCode)
             else None)
  }

  /** The reason, and whether it is valid UTF-8. */
  function ExtractReason(payload: seq<Byte>): (seq<Byte>, bool) {
    var reason := if |payload| > 2 then payload[2..] else [];
    (reason, Utf8.Accepts(reason))
  }

  /** What an endpoint may put in a close frame: the codes that are defined for it, and the
      ranges for libraries and applications. */
  predicate LegalOnWire(code: nat) {
    1000 <= code <= 1003 || 1007 <= code <= 1014 || 3000 <= code <= 4999
  }

  lemma LegalCodes(code: nat)
    ensures !Invalid(code) && !Reserved(code) <==> LegalOnWire(code)
  {
  }

  /** A received payload is accepted exactly when it is empty or starts with a legal code. */
  lemma ExtractCodeAccepts(payload: seq<Byte>)
    ensures var (code, ec) := ExtractCode(payload);
            && (ec.None? <==> payload == [] || (|payload| >= 2 && LegalOnWire(Ntohs(payload[0], payload[1]))))
            && (ec.None? ==> LegalOnWire(code) || (payload == [] && code == NO_STATUS))
  {
    LegalCodes(ExtractCode(payload).0);
  }

  /** A close payload as it stands on the wire (section 5.5.1 of RFC 6455): the code in two bytes,
      the high one first, then the reason. */
  function Payload(code: nat, reason: seq<Byte>): seq<Byte>
    requires code < 0x1_0000
  {
    [code / 0x100, code % 0x100] + reason
  }

  /** Code and reason are read from where they stand, and every way of being invalid has its own
      error. */
  lemma PayloadReadsBack(code: nat, reason: seq<Byte>)
    requires code < 0x1_0000
    ensures ExtractCode(Payload(code, reason)) ==
            (code, if 1016 <= code <= 2999 || code == 1004 then Some(ReservedCloseCode)
                   else if code < 1000 || code > 4999 || code in {1005, 1006, 1015} then Some(InvalidCloseCode)
                   else None)
    ensures ExtractReason(Payload(code, reason)) == (reason, Utf8.Accepts(reason))
  {
    hide Utf8.Accepts;
    assert Payload(code, reason)[2..] == reason;
  }

  /** A payload without room for a code: none at all is no status, one byte is an error. */
  lemma ShortPayloads(b: Byte)
    ensures ExtractCode([]) == (1005, None) && ExtractCode([b]) == (1002, Some(BadCloseCode))
    ensures ExtractReason([]) == ([], true) && ExtractReason([b]) == ([], true)
  {
    NoReason();
  }

  lemma NoReason()
    ensures Utf8.Accepts([])
  {
  }
}
