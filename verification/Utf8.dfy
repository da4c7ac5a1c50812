/** The table-driven UTF-8 validator, and what it accepts: exactly the concatenations of
    encodings of Unicode scalar values (section 4 of RFC 3629). */
module Utf8 {
  import opened Messages

  const ACCEPT := 0
  const REJECT := 1

  type State = n: nat | n < 9

  /** The table utf8d, sixteen entries to a row: 16 rows of byte classes, then one row of
      transitions for each of the nine states. */
  function Row(r: nat): (row: seq<nat>)
    requires r < 25
    ensures |row| == 16
  {
    if r < 8 then [0, 0, 0, 0, 0, 0, 0, 0, 0, 0, 0, 0, 0, 0, 0, 0]          // 00..7f
    else if r == 8 then [1, 1, 1, 1, 1, 1, 1, 1, 1, 1, 1, 1, 1, 1, 1, 1]    // 80..8f
    else if r == 9 then [9, 9, 9, 9, 9, 9, 9, 9, 9, 9, 9, 9, 9, 9, 9, 9]    // 90..9f
    else if r < 12 then [7, 7, 7, 7, 7, 7, 7, 7, 7, 7, 7, 7, 7, 7, 7, 7]    // a0..bf
    else if r == 12 then [8, 8, 2, 2, 2, 2, 2, 2, 2, 2, 2, 2, 2, 2, 2, 2]   // c0..cf
    else if r == 13 then [2, 2, 2, 2, 2, 2, 2, 2, 2, 2, 2, 2, 2, 2, 2, 2]   // d0..df
    else if r == 14 then [10, 3, 3, 3, 3, 3, 3, 3, 3, 3, 3, 3, 3, 4, 3, 3]  // e0..ef
    else if r == 15 then [11, 6, 6, 6, 5, 8, 8, 8, 8, 8, 8, 8, 8, 8, 8, 8]  // f0..ff
    else if r == 16 then [0, 1, 2, 3, 5, 8, 7, 1, 1, 1, 4, 6, 1, 1, 1, 1]   // s0
    else if r == 17 then [1, 1, 1, 1, 1, 1, 1, 1, 1, 1, 1, 1, 1, 1, 1, 1]   // s1
    else if r == 18 then [1, 0, 1, 1, 1, 1, 1, 0, 1, 0, 1, 1, 1, 1, 1, 1]   // s2
    else if r == 19 then [1, 2, 1, 1, 1, 1, 1, 2, 1, 2, 1, 1, 1, 1, 1, 1]   // s3
    else if r == 20 then [1, 1, 1, 1, 1, 1, 1, 2, 1, 1, 1, 1, 1, 1, 1, 1]   // s4
    else if r == 21 then [1, 2, 1, 1, 1, 1, 1, 1, 1, 2, 1, 1, 1, 1, 1, 1]   // s5
    else if r == 22 then [1, 1, 1, 1, 1, 1, 1, 3, 1, 3, 1, 1, 1, 1, 1, 1]   // s6
    else if r == 23 then [1, 3, 1, 1, 1, 1, 1, 3, 1, 3, 1, 1, 1, 1, 1, 1]   // s7
    else [1, 3, 1, 1, 1, 1, 1, 1, 1, 1, 1, 1, 1, 1, 1, 1]                   // s8
  }

  function Utf8d(i: nat): nat
    requires i < 400
  {
    Row(i / 16)[i % 16]
  }

  /** The byte class that the first 256 table entries give, as ranges. */
  function Class(byte: Byte): nat {
    if byte < 0x80 then 0
    else if byte < 0x90 then 1
    else if byte < 0xA0 then 9
    else if byte < 0xC0 then 7
    else if byte < 0xC2 then 8
    else if byte < 0xE0 then 2
    else if byte == 0xE0 then 10
    else if byte == 0xED then 4
    else if byte < 0xF0 then 3
    else if byte == 0xF0 then 11
    else if byte < 0xF4 then 6
    else if byte == 0xF4 then 5
    else 8
  }

  /** The transition that the rest of the table gives, as ranges. */
  function Next(state: State, byte: Byte): State {
    var continuation := 0x80 <= byte < 0xC0;
    match state
    case 0 =>
      if byte < 0x80 then 0
      else if byte < 0xC2 then 1
      else if byte < 0xE0 then 2
      else if byte == 0xE0 then 4
      else if byte == 0xED then 5
      else if byte < 0xF0 then 3
      else if byte == 0xF0 then 6
      else if byte < 0xF4 then 7
      else if byte == 0xF4 then 8
      else 1
    case 1 => 1
    case 2 => if continuation then 0 else 1
    case 3 => if continuation then 2 else 1
    case 4 => if continuation && byte >= 0xA0 then 2 else 1
    case 5 => if continuation && byte < 0xA0 then 2 else 1
    case 6 => if continuation && byte >= 0x90 then 3 else 1
    case 7 => if continuation then 3 else 1
    case _ => if continuation && byte < 0x90 then 3 else 1
  }

  lemma EvenRow(r: nat, c: nat)
    requires (r < 12 || r == 13) && c < 16
    ensures Row(r)[c] == Class(16 * r + c)
  {
  }

  lemma UnevenRow(r: nat, c: nat)
    requires r in {12, 14, 15} && c < 16
    ensures Row(r)[c] == Class(16 * r + c)
  {
  }

  lemma ClassIsTable(byte: Byte)
    ensures Utf8d(byte) == Class(byte)
  {
    if byte / 16 in {12, 14, 15} {
      UnevenRow(byte / 16, byte % 16);
    } else {
      EvenRow(byte / 16, byte % 16);
    }
  }

  lemma LowStates(state: State, byte: Byte)
    requires state < 5
    ensures Row(16 + state)[Class(byte)] == Next(state, byte)
  {
  }

  lemma HighStates(state: State, byte: Byte)
    requires state >= 5
    ensures Row(16 + state)[Class(byte)] == Next(state, byte)
  {
  }

  lemma NextIsTable(state: State, byte: Byte)
    ensures Utf8d(256 + state * 16 + Class(byte)) == Next(state, byte)
  {
    if state < 5 { LowStates(state, byte); } else { HighStates(state, byte); }
  }

  // ---- the decoder ----

  const UINT32: int := 0x1_0000_0000

  /** m_state and m_codepoint. */
  datatype Decoder = Decoder(state: State, codep: nat)

  const START := Decoder(ACCEPT, 0)

  /** The modulus that keeps the bits of a leading byte selected by the mask 0xff >> type. */
  function PayloadModulus(class_: nat): nat {
    if class_ == 0 then 256
    else if class_ == 1 then 128
    else if class_ == 2 then 64
    else if class_ == 3 then 32
    else if class_ == 4 then 16
    else if class_ == 5 then 8
    else if class_ == 6 then 4
    else if class_ == 7 then 2
    else 1
  }

  /** One call of decode. The shift of codep is 32 bits wide; its low six bits are then
      zero, so the bitwise or is a sum. */
  function DecodeByte(d: Decoder, byte: Byte): Decoder {
    ClassIsTable(byte);
    NextIsTable(d.state, byte);
    var class_ := Utf8d(byte);
    Decoder(Utf8d(256 + d.state * 16 + class_),
            if d.state != ACCEPT then byte % 64 + (d.codep * 64) % UINT32
            else byte % PayloadModulus(class_))
  }

  function Run(d: Decoder, bytes: seq<Byte>): Decoder
    decreases |bytes|
  {
    if bytes == [] then d else Run(DecodeByte(d, bytes[0]), bytes[1..])
  }

  predicate Accepts(bytes: seq<Byte>) {
    Run(START, bytes).state == ACCEPT
  }

  lemma DecodeByRanges(d: Decoder, byte: Byte)
    ensures DecodeByte(d, byte) ==
            Decoder(Next(d.state, byte),
                    if d.state != ACCEPT then byte % 64 + (d.codep * 64) % UINT32
                    else byte % PayloadModulus(Class(byte)))
  {
    hide Row, Class, Next, PayloadModulus;
    ClassIsTable(byte);
    NextIsTable(d.state, byte);
  }

  /** Feeding two pieces one after the other is feeding them joined. */
  lemma {:induction false} RunConcat(d: Decoder, a: seq<Byte>, b: seq<Byte>)
    ensures Run(d, a + b) == Run(Run(d, a), b)
    decreases |a|
  {
    if a == [] {
      assert a + b == b;
    } else {
      assert (a + b)[1..] == a[1..] + b;
      RunConcat(DecodeByte(d, a[0]), a[1..], b);
    }
  }

  lemma {:induction false} RejectAbsorbs(d: Decoder, bytes: seq<Byte>)
    requires d.state == REJECT
    ensures Run(d, bytes).state == REJECT
    decreases |bytes|
  {
    if bytes != [] {
      DecodeByRanges(d, bytes[0]);
      RejectAbsorbs(DecodeByte(d, bytes[0]), bytes[1..]);
    }
  }

  class Validator {
    var state: State
    var codepoint: nat

    function Value(): Decoder
      reads this
    {
      Decoder(state, codepoint)
    }

    constructor ()
      ensures Value() == START
    {
      state, codepoint := ACCEPT, 0;
    }

    method Consume(byte: Byte) returns (ok: bool)
      modifies this
      ensures Value() == DecodeByte(old(Value()), byte)
      ensures ok == (state != REJECT)
    {
      var d := DecodeByte(Value(), byte);
      state, codepoint := d.state, d.codep;
      ok := state != REJECT;
    }

    /** Stops at the first byte that leads to the reject state. A validator that already is
        in that state still says true to an empty range. */
    method Decode(bytes: seq<Byte>) returns (ok: bool)
      modifies this
      ensures ok == (bytes == [] || Run(old(Value()), bytes).state != REJECT)
      ensures state == Run(old(Value()), bytes).state
      ensures ok ==> Value() == Run(old(Value()), bytes)
    {
      var i := 0;
      while i < |bytes|
        invariant 0 <= i <= |bytes|
        invariant i > 0 ==> state != REJECT
        invariant Run(Value(), bytes[i..]) == Run(old(Value()), bytes)
      {
        assert bytes[i..][1..] == bytes[i + 1..];
        var good := Consume(bytes[i]);
        i := i + 1;
        if !good {
          RejectAbsorbs(Value(), bytes[i..]);
          return false;
        }
      }
      ok := true;
    }

    method Complete() returns (done: bool)
      ensures done == (state == ACCEPT)
    {
      done := state == ACCEPT;
    }

    method Reset()
      modifies this
      ensures Value() == START
    {
      state, codepoint := ACCEPT, 0;
    }
  }

  // ---- what RFC 3629 says ----

  predicate IsScalar(c: nat) {
    c < 0xD800 || 0xE000 <= c < 0x11_0000
  }

  function Encode(c: nat): (bytes: seq<Byte>)
    requires IsScalar(c)
    ensures bytes != []
  {
    if c < 0x80 then [c]
    else if c < 0x800 then [0xC0 + c / 64, 0x80 + c % 64]
    else if c < 0x1_0000 then [0xE0 + c / 4096, 0x80 + c / 64 % 64, 0x80 + c % 64]
    else [0xF0 + c / 262144, 0x80 + c / 4096 % 64, 0x80 + c / 64 % 64, 0x80 + c % 64]
  }

  predicate AllScalars(cs: seq<nat>) {
    forall i | 0 <= i < |cs| :: IsScalar(cs[i])
  }

  function EncodeAll(cs: seq<nat>): seq<Byte>
    requires AllScalars(cs)
  {
    if cs == [] then [] else Encode(cs[0]) + EncodeAll(cs[1..])
  }

  ghost predicate WellFormed(bytes: seq<Byte>) {
    exists cs: seq<nat> :: AllScalars(cs) && EncodeAll(cs) == bytes
  }

  /** The values that codep takes at the accepting points of a run. */
  function Scalars(d: Decoder, bytes: seq<Byte>): seq<nat>
    decreases |bytes|
  {
    if bytes == [] then []
    else
      var d' := DecodeByte(d, bytes[0]);
      (if d'.state == ACCEPT then [d'.codep] else []) + Scalars(d', bytes[1..])
  }

  /** Reading one byte, given what the tables say about it. */
  lemma ReadByte(d: Decoder, byte: Byte, rest: seq<Byte>) returns (d': Decoder)
    ensures d' == Decoder(Next(d.state, byte),
                          if d.state != ACCEPT then byte % 64 + (d.codep * 64) % UINT32
                          else byte % PayloadModulus(Class(byte)))
    ensures Run(d, [byte] + rest) == Run(d', rest)
    ensures Scalars(d, [byte] + rest) ==
            (if d'.state == ACCEPT then [d'.codep] else []) + Scalars(d', rest)
  {
    hide DecodeByte, Next, Class, PayloadModulus;
    DecodeByRanges(d, byte);
    d' := DecodeByte(d, byte);
    assert ([byte] + rest)[1..] == rest;
  }

  /** A leading byte carries the top bits of the value it starts. */
  function TopBits(c: nat): nat {
    if c < 0x80 then c else if c < 0x800 then c / 64 else if c < 0x1_0000 then c / 4096 else c / 262144
  }

  lemma LeadingByte(c: nat)
    requires IsScalar(c)
    ensures var b := Encode(c)[0]; b % PayloadModulus(Class(b)) == TopBits(c)
  {
    hide Class, PayloadModulus;
    var k := TopBits(c);
    if c < 0x80 {
      LeadingBits(0, k);
    } else if c < 0x800 {
      LeadingBits(0xC0, k);
    } else if c < 0x1_0000 {
      LeadingBits(0xE0, k);
    } else {
      LeadingBits(0xF0, k);
    }
  }

  lemma LeadingBits(base: nat, k: nat)
    requires (base == 0 && k < 128) || (base == 0xC0 && 2 <= k < 32) || (base == 0xE0 && k < 16) || (base == 0xF0 && k < 5)
    ensures (base + k) % PayloadModulus(Class(base + k)) == k
  {
  }

  lemma ReadLeading(c: nat, d: Decoder, rest: seq<Byte>) returns (d': Decoder)
    requires IsScalar(c) && d.state == ACCEPT
    ensures var b := Encode(c)[0];
            && d' == Decoder(Next(ACCEPT, b), TopBits(c))
            && Run(d, [b] + rest) == Run(d', rest)
            && Scalars(d, [b] + rest) == (if d'.state == ACCEPT then [d'.codep] else []) + Scalars(d', rest)
  {
    hide Run, Scalars, DecodeByte, Next, Class, PayloadModulus, TopBits;
    LeadingByte(c);
    d' := ReadByte(d, Encode(c)[0], rest);
  }

  /** A continuation byte appends six bits. */
  lemma ReadContinuation(d: Decoder, c: nat, rest: seq<Byte>) returns (d': Decoder)
    requires d.state != ACCEPT && d.codep == c / 64 && c < 0x11_0000
    ensures var b := 0x80 + c % 64;
            && d' == Decoder(Next(d.state, b), c)
            && Run(d, [b] + rest) == Run(d', rest)
            && Scalars(d, [b] + rest) == (if d'.state == ACCEPT then [c] else []) + Scalars(d', rest)
  {
    hide Run, Scalars, DecodeByte, Next, Class, PayloadModulus;
    d' := ReadByte(d, 0x80 + c % 64, rest);
  }

  /** The continuation bytes of a value, from the state that still expects n of them. */
  lemma ReadTwo(d: Decoder, c: nat, rest: seq<Byte>)
    requires c < 0x11_0000 && d.codep == c / 4096 && d.state !in {ACCEPT, REJECT}
    requires Next(d.state, 0x80 + c / 64 % 64) == 2
    ensures var s := [0x80 + c / 64 % 64, 0x80 + c % 64] + rest;
            && Run(d, s) == Run(Decoder(ACCEPT, c), rest)
            && Scalars(d, s) == [c] + Scalars(Decoder(ACCEPT, c), rest)
  {
    hide Run, Scalars, DecodeByte, Class, PayloadModulus;
    var tail := [0x80 + c % 64] + rest;
    assert [0x80 + c / 64 % 64, 0x80 + c % 64] + rest == [0x80 + c / 64 % 64] + tail;
    assert c / 64 / 64 == c / 4096;
    var d2 := ReadContinuation(d, c / 64, tail);
    var d3 := ReadContinuation(d2, c, rest);
  }

  lemma ReadThree(d: Decoder, c: nat, rest: seq<Byte>)
    requires c < 0x11_0000 && d.codep == c / 262144 && d.state !in {ACCEPT, REJECT}
    requires Next(d.state, 0x80 + c / 4096 % 64) == 3
    ensures var s := [0x80 + c / 4096 % 64, 0x80 + c / 64 % 64, 0x80 + c % 64] + rest;
            && Run(d, s) == Run(Decoder(ACCEPT, c), rest)
            && Scalars(d, s) == [c] + Scalars(Decoder(ACCEPT, c), rest)
  {
    hide Run, Scalars, DecodeByte, Class, PayloadModulus;
    var tail := [0x80 + c / 64 % 64, 0x80 + c % 64] + rest;
    assert [0x80 + c / 4096 % 64, 0x80 + c / 64 % 64, 0x80 + c % 64] + rest == [0x80 + c / 4096 % 64] + tail;
    assert c / 4096 / 64 == c / 262144;
    var d2 := ReadContinuation(d, c / 4096, tail);
    ReadTwo(d2, c, rest);
  }

  /** From an accepting state, the encoding of c is consumed up to the next accepting
      point, where codep is c. */
  lemma DecodeEncode(c: nat, d: Decoder, rest: seq<Byte>)
    requires IsScalar(c) && d.state == ACCEPT
    ensures Run(d, Encode(c) + rest) == Run(Decoder(ACCEPT, c), rest)
    ensures Scalars(d, Encode(c) + rest) == [c] + Scalars(Decoder(ACCEPT, c), rest)
  {
    hide Run, Scalars, DecodeByte, Class, PayloadModulus;
    var e := Encode(c);
    var tail := e[1..] + rest;
    assert e + rest == [e[0]] + tail;
    var d1 := ReadLeading(c, d, tail);
    if |e| == 1 {
      assert tail == rest;
      assert d1 == Decoder(ACCEPT, c);
    } else if |e| == 2 {
      assert tail == [e[1]] + rest;
      var d2 := ReadContinuation(d1, c, rest);
    } else if |e| == 3 {
      assert e[1..] == [e[1], e[2]];
      ReadTwo(d1, c, rest);
    } else {
      assert e[1..] == [e[1], e[2], e[3]];
      ReadThree(d1, c, rest);
    }
  }

  /** Running the decoder over the encodings of a list of scalar values yields that list. */
  lemma {:induction false} DecodeEncodeAll(cs: seq<nat>, d: Decoder)
    requires AllScalars(cs) && d.state == ACCEPT
    ensures Run(d, EncodeAll(cs)).state == ACCEPT
    ensures Scalars(d, EncodeAll(cs)) == cs
    decreases |cs|
  {
    hide DecodeByte, Encode;
    if cs != [] {
      DecodeEncode(cs[0], d, EncodeAll(cs[1..]));
      DecodeEncodeAll(cs[1..], Decoder(ACCEPT, cs[0]));
    }
  }

  /** An accepted input goes on with a byte that does not lead to the reject state. */
  lemma AcceptedByte(d: Decoder, bytes: seq<Byte>) returns (d': Decoder)
    requires Run(d, bytes).state == ACCEPT
    requires d.state != ACCEPT || bytes != []
    ensures bytes != [] && d'.state == Next(d.state, bytes[0]) && d'.state != REJECT
    ensures Run(d', bytes[1..]).state == ACCEPT
  {
    hide DecodeByte, Next;
    DecodeByRanges(d, bytes[0]);
    d' := DecodeByte(d, bytes[0]);
    if d'.state == REJECT { RejectAbsorbs(d', bytes[1..]); }
  }

  function Join(high: nat, continuation: nat): nat {
    high * 64 + continuation % 64
  }

  lemma JoinParts(high: nat, continuation: Byte)
    ensures Join(high, continuation) / 64 == high && Join(high, continuation) % 64 == continuation % 64
    ensures 64 * high <= Join(high, continuation) < 64 * high + 64
  {
  }

  lemma Continuation(b: Byte)
    requires 0x80 <= b < 0xC0
    ensures 0x80 + b % 64 == b
  {
  }

  lemma TwoBytes(a: Byte, b: Byte)
    requires 0xC2 <= a < 0xE0 && 0x80 <= b < 0xC0
    ensures var c := Join(a % 32, b); IsScalar(c) && Encode(c) == [a, b]
  {
    hide Join;
    JoinParts(a % 32, b);
    Continuation(b);
  }

  lemma ThreeBytes(a: Byte, b: Byte, c: Byte)
    requires 0xE0 <= a < 0xF0 && 0x80 <= b < 0xC0 && 0x80 <= c < 0xC0
    requires (a == 0xE0 ==> b >= 0xA0) && (a == 0xED ==> b < 0xA0)
    ensures var x := Join(Join(a % 16, b), c); IsScalar(x) && Encode(x) == [a, b, c]
  {
    hide Join;
    var h := Join(a % 16, b);
    var x := Join(h, c);
    JoinParts(a % 16, b);
    JoinParts(h, c);
    Continuation(b);
    Continuation(c);
    assert x / 4096 == h / 64;
  }

  lemma FourBytes(a: Byte, b: Byte, c: Byte, d: Byte)
    requires 0xF0 <= a < 0xF5 && 0x80 <= b < 0xC0 && 0x80 <= c < 0xC0 && 0x80 <= d < 0xC0
    requires (a == 0xF0 ==> b >= 0x90) && (a == 0xF4 ==> b < 0x90)
    ensures var x := Join(Join(Join(a % 8, b), c), d); IsScalar(x) && Encode(x) == [a, b, c, d]
  {
    hide Join;
    var h := Join(a % 8, b);
    var k := Join(h, c);
    var x := Join(k, d);
    JoinParts(a % 8, b);
    JoinParts(h, c);
    JoinParts(k, d);
    Continuation(b);
    Continuation(c);
    Continuation(d);
    assert x / 4096 == k / 64 && x / 262144 == h / 64;
  }

  /** Every non-empty accepted input starts with the encoding of a scalar value. */
  lemma FirstScalar(d: Decoder, bytes: seq<Byte>) returns (c: nat)
    requires d.state == ACCEPT && bytes != [] && Run(d, bytes).state == ACCEPT
    ensures IsScalar(c) && Encode(c) <= bytes
  {
    hide Run, DecodeByte, Join, Class, PayloadModulus;
    var d1 := AcceptedByte(d, bytes);
    if bytes[0] < 0x80 { return bytes[0]; }
    var d2 := AcceptedByte(d1, bytes[1..]);
    if bytes[0] < 0xE0 {
      TwoBytes(bytes[0], bytes[1]);
      return Join(bytes[0] % 32, bytes[1]);
    }
    assert bytes[1..][1..] == bytes[2..];
    var d3 := AcceptedByte(d2, bytes[2..]);
    if bytes[0] < 0xF0 {
      ThreeBytes(bytes[0], bytes[1], bytes[2]);
      return Join(Join(bytes[0] % 16, bytes[1]), bytes[2]);
    }
    assert bytes[2..][1..] == bytes[3..];
    var d4 := AcceptedByte(d3, bytes[3..]);
    FourBytes(bytes[0], bytes[1], bytes[2], bytes[3]);
    c := Join(Join(Join(bytes[0] % 8, bytes[1]), bytes[2]), bytes[3]);
  }

  lemma {:induction false} AcceptedIsEncoded(d: Decoder, bytes: seq<Byte>) returns (cs: seq<nat>)
    requires d.state == ACCEPT && Run(d, bytes).state == ACCEPT
    ensures AllScalars(cs) && EncodeAll(cs) == bytes
    decreases |bytes|
  {
    hide DecodeByte, Encode;
    if bytes == [] { return []; }
    var c := FirstScalar(d, bytes);
    var n := |Encode(c)|;
    assert bytes == Encode(c) + bytes[n..];
    DecodeEncode(c, d, bytes[n..]);
    var rest := AcceptedIsEncoded(Decoder(ACCEPT, c), bytes[n..]);
    cs := [c] + rest;
    assert cs[1..] == rest;
  }

  /** The validator accepts exactly the concatenations of encodings of scalar values. */
  lemma AcceptsIsWellFormed(bytes: seq<Byte>)
    ensures Accepts(bytes) <==> WellFormed(bytes)
  {
    if Accepts(bytes) {
      var cs := AcceptedIsEncoded(START, bytes);
    }
    if WellFormed(bytes) {
      var cs: seq<nat> :| AllScalars(cs) && EncodeAll(cs) == bytes;
      DecodeEncodeAll(cs, START);
    }
  }

  /** Decoding has only one result: different lists of scalar values have different encodings. */
  lemma EncodeAllInjective(a: seq<nat>, b: seq<nat>)
    requires AllScalars(a) && AllScalars(b) && EncodeAll(a) == EncodeAll(b)
    ensures a == b
  {
    DecodeEncodeAll(a, START);
    DecodeEncodeAll(b, START);
  }

  /** No byte of accepted input is 0xFF (nor 0xC0, 0xC1 or anything above 0xF4). */
  lemma {:induction false} AcceptedBytes(d: Decoder, bytes: seq<Byte>)
    requires Run(d, bytes).state == ACCEPT
    ensures forall i | 0 <= i < |bytes| :: bytes[i] < 0xF5 && bytes[i] !in {0xC0, 0xC1}
    decreases |bytes|
  {
    hide DecodeByte, Run;
    if bytes != [] {
      var d' := AcceptedByte(d, bytes);
      AcceptedBytes(d', bytes[1..]);
      assert forall i | 0 < i < |bytes| :: bytes[i] == bytes[1..][i - 1];
    }
  }

  /** The convenience function: a fresh validator, one decode, then complete. */
  method Validate(bytes: seq<Byte>) returns (valid: bool)
    ensures valid == Accepts(bytes)
    ensures valid <==> WellFormed(bytes)
  {
    AcceptsIsWellFormed(bytes);
    var v := new Validator();
    var ok := v.Decode(bytes);
    if !ok { return false; }
    valid := v.Complete();
  }

  /** A string that arrives in pieces: one validator, a decode for each piece until one is
      refused, then complete. */
  method ValidatePieces(pieces: seq<seq<Byte>>) returns (valid: bool)
    ensures valid == Accepts(Flatten(pieces))
    ensures valid <==> WellFormed(Flatten(pieces))
  {
    hide Run, DecodeByte, WellFormed;
    AcceptsIsWellFormed(Flatten(pieces));
    var v := new Validator();
    EmptyRun(START);
    var i := 0;
    while i < |pieces|
      invariant 0 <= i <= |pieces| && fresh(v)
      invariant v.Value() == Run(START, Flatten(pieces[..i]))
    {
      FlattenSnoc(pieces, i);
      RunConcat(START, Flatten(pieces[..i]), pieces[i]);
      RunConcat(START, Flatten(pieces[..i + 1]), Flatten(pieces[i + 1..]));
      var ok := v.Decode(pieces[i]);
      if !ok {
        RejectAbsorbs(Run(START, Flatten(pieces[..i + 1])), Flatten(pieces[i + 1..]));
        return false;
      }
      i := i + 1;
    }
    assert pieces[..i] == pieces;
    valid := v.Complete();
  }

  lemma EmptyRun(d: Decoder)
    ensures Run(d, []) == d
  {
  }
}
