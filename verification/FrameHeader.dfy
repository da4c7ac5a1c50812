/** The header of a WebSocket frame (section 5.2 of RFC 6455): two fixed bytes, then zero,
    two or eight bytes of length, then the masking key if there is one. */
module FrameHeader {
  import opened Masking

  const FIN: bv8 := 0x80
  const RSV1: bv8 := 0x40
  const RSV2: bv8 := 0x20
  const RSV3: bv8 := 0x10
  const OPCODE: bv8 := 0x0F
  const MASK: bv8 := 0x80
  const PAYLOAD: bv8 := 0x7F

  const PAYLOAD_SIZE_BASIC: bv64 := 125
  const PAYLOAD_SIZE_EXTENDED: bv64 := 0xFFFF
  const CODE_16BIT: bv8 := 126
  const CODE_64BIT: bv8 := 127

  const BASIC_HEADER_LENGTH := 2
  const MAX_EXTENDED_HEADER_LENGTH := 12

  // ---- byte order ----

  function Htonll(src: bv64): bv64 {
    Word(WordByte(src, 7), WordByte(src, 6), WordByte(src, 5), WordByte(src, 4),
         WordByte(src, 3), WordByte(src, 2), WordByte(src, 1), WordByte(src, 0))
  }

  lemma HtonllReverses(src: bv64, i: nat)
    requires i < 8
    ensures WordByte(Htonll(src), i) == WordByte(src, 7 - i)
  {
    WordBytes(WordByte(src, 7), WordByte(src, 6), WordByte(src, 5), WordByte(src, 4),
              WordByte(src, 3), WordByte(src, 2), WordByte(src, 1), WordByte(src, 0));
    hide WordByte, Word;
  }

  lemma HtonllTwice(src: bv64)
    ensures Htonll(Htonll(src)) == src
  {
  }

  /** The swaps of the source, one pair of bytes at a time. */
  method SwapBytes(src: bv64) returns (r: bv64)
    ensures r == Htonll(src)
  {
    hide WordByte, Word;
    var c := new bv8[8](i requires 0 <= i < 8 => WordByte(src, i));
    c[0], c[7] := c[7], c[0];
    c[1], c[6] := c[6], c[1];
    c[2], c[5] := c[5], c[2];
    c[3], c[4] := c[4], c[3];
    r := LoadWord(c[..]);
  }

  // ---- the two fixed bytes ----

  datatype BasicHeader = BasicHeader(b0: bv8, b1: bv8)

  function SizeCode(size: bv64): bv8 {
    if size <= PAYLOAD_SIZE_BASIC then (size & 0xFF) as bv8
    else if size <= PAYLOAD_SIZE_EXTENDED then CODE_16BIT
    else CODE_64BIT
  }

  datatype Flags = Flags(fin: bool, rsv1: bool, rsv2: bool, rsv3: bool, mask: bool)

  function MakeBasic(op: bv8, size: bv64, f: Flags): BasicHeader {
    var b0: bv8 := 0;
    var b0 := if f.fin then b0 | FIN else b0;
    var b0 := if f.rsv1 then b0 | RSV1 else b0;
    var b0 := if f.rsv2 then b0 | RSV2 else b0;
    var b0 := if f.rsv3 then b0 | RSV3 else b0;
    var b0 := b0 | (op & OPCODE);
    var b1: bv8 := 0;
    var b1 := if f.mask then b1 | MASK else b1;
    BasicHeader(b0, b1 | SizeCode(size))
  }

  function GetFlags(h: BasicHeader): Flags {
    Flags(h.b0 & FIN == FIN, h.b0 & RSV1 == RSV1, h.b0 & RSV2 == RSV2, h.b0 & RSV3 == RSV3, h.b1 & MASK == MASK)
  }

  function GetOpcode(h: BasicHeader): bv8 { h.b0 & OPCODE }

  function GetBasicSize(h: BasicHeader): bv8 { h.b1 & PAYLOAD }

  function GetMaskingKeyOffset(h: BasicHeader): nat {
    if GetBasicSize(h) == CODE_16BIT then 2
    else if GetBasicSize(h) == CODE_64BIT then 8
    else 0
  }

  function GetHeaderLen(h: BasicHeader): nat {
    BASIC_HEADER_LENGTH + GetMaskingKeyOffset(h) + if GetFlags(h).mask then 4 else 0
  }

  lemma BasicReadsBack(op: bv8, size: bv64, f: Flags)
    requires op < 16
    ensures var h := MakeBasic(op, size, f);
            && GetOpcode(h) == op && GetFlags(h) == f && GetBasicSize(h) == SizeCode(size)
  {
  }

  // ---- the variable part ----

  /** The length field: nothing, or the size in network byte order. */
  function SizeBytes(size: bv64): seq<bv8> {
    if size <= PAYLOAD_SIZE_BASIC then []
    else if size <= PAYLOAD_SIZE_EXTENDED then [WordByte(size, 1), WordByte(size, 0)]
    else [WordByte(size, 7), WordByte(size, 6), WordByte(size, 5), WordByte(size, 4),
          WordByte(size, 3), WordByte(size, 2), WordByte(size, 1), WordByte(size, 0)]
  }

  function KeyBytes(key: Key): seq<bv8> {
    [KeyByte(key, 0), KeyByte(key, 1), KeyByte(key, 2), KeyByte(key, 3)]
  }

  function KeyOf(b: seq<bv8>): Key
    requires |b| == 4
  {
    (b[0] as bv32) | ((b[1] as bv32) << 8) | ((b[2] as bv32) << 16) | ((b[3] as bv32) << 24)
  }

  function Padded(s: seq<bv8>): seq<bv8>
    requires |s| <= MAX_EXTENDED_HEADER_LENGTH
  {
    s + seq(MAX_EXTENDED_HEADER_LENGTH - |s|, _ => 0)
  }

  class ExtendedHeader {
    const bytes: array<bv8>

    constructor (payloadSize: bv64)
      ensures fresh(bytes) && bytes[..] == Padded(SizeBytes(payloadSize))
    {
      bytes := new bv8[MAX_EXTENDED_HEADER_LENGTH](_ => 0);
      new;
      var n := CopyPayload(payloadSize);
    }

    constructor WithKey(payloadSize: bv64, maskingKey: Key)
      ensures fresh(bytes) && bytes[..] == Padded(SizeBytes(payloadSize) + KeyBytes(maskingKey))
    {
      bytes := new bv8[MAX_EXTENDED_HEADER_LENGTH](_ => 0);
      new;
      var offset := CopyPayload(payloadSize);
      hide SizeBytes, KeyByte;
      CopyTo(bytes, offset, KeyBytes(maskingKey), 0);
    }

    /** Returns the number of bytes written. */
    method CopyPayload(payloadSize: bv64) returns (n: nat)
      requires bytes.Length == MAX_EXTENDED_HEADER_LENGTH
      modifies bytes
      ensures n == |SizeBytes(payloadSize)| <= 8
      ensures forall j | 0 <= j < n :: bytes[j] == SizeBytes(payloadSize)[j]
      ensures forall j | n <= j < bytes.Length :: bytes[j] == old(bytes[j])
    {
      hide WordByte, Word, KeyByte;
      var offset := 0;
      if payloadSize <= PAYLOAD_SIZE_BASIC {
        offset := 8;
      } else if payloadSize <= PAYLOAD_SIZE_EXTENDED {
        offset := 6;
      }
      var temp := SwapBytes(payloadSize);
      var c := seq(8, i requires 0 <= i < 8 => WordByte(temp, i));
      forall i | 0 <= i < 8 ensures c[i] == WordByte(payloadSize, 7 - i) {
        HtonllReverses(payloadSize, i);
      }
      CopyTo(bytes, 0, c, offset);
      n := 8 - offset;
    }
  }

  /** std::copy of source[from..] to the array, starting at the given index. */
  method CopyTo(a: array<bv8>, at: nat, source: seq<bv8>, from: nat)
    requires from <= |source| && at + |source| - from <= a.Length
    modifies a
    ensures forall j | at <= j < at + |source| - from :: a[j] == source[from + j - at]
    ensures forall j | 0 <= j < a.Length && !(at <= j < at + |source| - from) :: a[j] == old(a[j])
  {
    var i := from;
    while i < |source|
      invariant from <= i <= |source|
      invariant forall j | at <= j < at + i - from :: a[j] == source[from + j - at]
      invariant forall j | 0 <= j < a.Length && !(at <= j < at + i - from) :: a[j] == old(a[j])
    {
      a[at + i - from] := source[i];
      i := i + 1;
    }
  }

  // ---- the wire ----

  function PrepareHeader(h: BasicHeader, e: seq<bv8>): seq<bv8>
    requires |e| == MAX_EXTENDED_HEADER_LENGTH
  {
    [h.b0, h.b1] + e[..GetHeaderLen(h) - BASIC_HEADER_LENGTH]
  }

  function GetMaskingKey(h: BasicHeader, e: seq<bv8>): Key
    requires |e| == MAX_EXTENDED_HEADER_LENGTH
  {
    if !GetFlags(h).mask then 0
    else
      var offset := GetMaskingKeyOffset(h);
      KeyOf(e[offset..offset + 4])
  }

  function GetExtendedSize(e: seq<bv8>): bv16
    requires |e| == MAX_EXTENDED_HEADER_LENGTH
  {
    ((e[0] as bv16) << 8) | (e[1] as bv16)
  }

  function GetJumboSize(e: seq<bv8>): bv64
    requires |e| == MAX_EXTENDED_HEADER_LENGTH
  {
    Htonll(LoadWord(e[..8]))
  }

  function GetPayloadSize(h: BasicHeader, e: seq<bv8>): bv64
    requires |e| == MAX_EXTENDED_HEADER_LENGTH
  {
    var val := GetBasicSize(h);
    if val <= 125 then val as bv64
    else if val == CODE_16BIT then GetExtendedSize(e) as bv64
    else GetJumboSize(e)
  }

  /** What a writer puts after the fixed bytes. */
  function ExtendedBytes(size: bv64, f: Flags, key: Key): seq<bv8> {
    Padded(SizeBytes(size) + if f.mask then KeyBytes(key) else [])
  }

  /** What a reader holds once it has copied the header bytes it was told to expect; the
      rest of its buffer is arbitrary. */
  predicate ReadFrom(e: seq<bv8>, wire: seq<bv8>, n: nat) {
    |e| == MAX_EXTENDED_HEADER_LENGTH && BASIC_HEADER_LENGTH <= n <= |wire| &&
    n - BASIC_HEADER_LENGTH <= |e| && e[..n - BASIC_HEADER_LENGTH] == wire[BASIC_HEADER_LENGTH..n]
  }

  lemma SmallSize(size: bv64)
    requires size <= PAYLOAD_SIZE_BASIC
    ensures SizeCode(size) <= 125 && SizeCode(size) as bv64 == size
  {
  }

  lemma TwoByteSize(size: bv64)
    requires size <= PAYLOAD_SIZE_EXTENDED
    ensures (((WordByte(size, 1) as bv16) << 8) | (WordByte(size, 0) as bv16)) as bv64 == size
  {
  }

  lemma SizeReadsBack(h: BasicHeader, size: bv64, e: seq<bv8>)
    requires |e| == MAX_EXTENDED_HEADER_LENGTH && SizeBytes(size) <= e
    requires GetBasicSize(h) == SizeCode(size)
    ensures GetPayloadSize(h, e) == size
    ensures GetMaskingKeyOffset(h) == |SizeBytes(size)|
  {
    hide WordByte, Word, Htonll;
    if size <= PAYLOAD_SIZE_BASIC {
      SmallSize(size);
    } else if size <= PAYLOAD_SIZE_EXTENDED {
      TwoByteSize(size);
      assert e[0] == SizeBytes(size)[0] && e[1] == SizeBytes(size)[1];
    } else {
      assert e[..8] == SizeBytes(size);
      JumboReadsBack(size);
    }
  }

  lemma JumboReadsBack(size: bv64)
    requires size > PAYLOAD_SIZE_EXTENDED
    ensures Htonll(LoadWord(SizeBytes(size))) == size
  {
    hide WordByte, Word;
    assert LoadWord(SizeBytes(size)) == Htonll(size);
    HtonllTwice(size);
  }

  lemma KeyReadsBack(key: Key)
    ensures KeyOf(KeyBytes(key)) == key
  {
  }

  /** What the reader has copied is what was written. */
  lemma CopiedBytes(h: BasicHeader, x: seq<bv8>, data: seq<bv8>, e: seq<bv8>)
    requires |x| == MAX_EXTENDED_HEADER_LENGTH && ReadFrom(e, PrepareHeader(h, x) + data, GetHeaderLen(h))
    ensures var wire, n := PrepareHeader(h, x) + data, GetHeaderLen(h) - 2;
            && 0 <= n <= |x| && e[..n] == x[..n]
            && |wire| == n + 2 + |data| && wire[0] == h.b0 && wire[1] == h.b1
  {
    var n := GetHeaderLen(h) - 2;
    hide GetHeaderLen;
    var wire := PrepareHeader(h, x) + data;
    assert wire[2..n + 2] == x[..n];
  }

  /** A reader's buffer that agrees with the written one on the header gives the same size and key. */
  lemma FieldsReadBack(h: BasicHeader, size: bv64, f: Flags, key: Key, e: seq<bv8>)
    requires |e| == MAX_EXTENDED_HEADER_LENGTH && GetBasicSize(h) == SizeCode(size) && GetFlags(h) == f
    requires var n := |SizeBytes(size)| + if f.mask then 4 else 0; n <= |e| && e[..n] == ExtendedBytes(size, f, key)[..n]
    ensures GetPayloadSize(h, e) == size && GetMaskingKey(h, e) == (if f.mask then key else 0)
  {
    hide GetFlags, GetBasicSize, SizeCode, KeyByte, KeyOf, GetPayloadSize, SizeBytes;
    var k := |SizeBytes(size)|;
    var n := k + if f.mask then 4 else 0;
    var x := ExtendedBytes(size, f, key);
    assert e[..k] == e[..n][..k] == x[..n][..k] == SizeBytes(size);
    SizeReadsBack(h, size, e);
    if f.mask {
      assert e[k..k + 4] == e[..n][k..k + 4] == x[..n][k..k + 4] == KeyBytes(key);
      KeyReadsBack(key);
    }
  }

  /** The header that is written for any opcode, flags, size and key, followed by anything,
      reads back to the same fields; the first two bytes fix its length. */
  lemma RoundTrip(op: bv8, size: bv64, f: Flags, key: Key, data: seq<bv8>, e: seq<bv8>)
    requires op < 16
    requires var h := MakeBasic(op, size, f);
             ReadFrom(e, PrepareHeader(h, ExtendedBytes(size, f, key)) + data, GetHeaderLen(h))
    ensures var wire := PrepareHeader(MakeBasic(op, size, f), ExtendedBytes(size, f, key)) + data;
            var h := BasicHeader(wire[0], wire[1]);
            && GetOpcode(h) == op && GetFlags(h) == f
            && GetPayloadSize(h, e) == size
            && GetMaskingKey(h, e) == (if f.mask then key else 0)
            && |wire| == GetHeaderLen(h) + |data|
            && GetHeaderLen(h) <= 14
  {
    var h := MakeBasic(op, size, f);
    var x := ExtendedBytes(size, f, key);
    BasicReadsBack(op, size, f);
    SizeFits(size);
    SizeReadsBack(h, size, x);
    CopiedBytes(h, x, data, e);
    hide MakeBasic, GetFlags, GetOpcode, GetBasicSize, SizeCode, KeyByte, KeyOf, GetPayloadSize, SizeBytes,
         GetMaskingKey, PrepareHeader, ExtendedBytes;
    FieldsReadBack(h, size, f, key, e);
  }

  lemma SizeFits(size: bv64)
    ensures |SizeBytes(size)| <= 8
  {
  }

  /** No other header that announces the same size is shorter. */
  lemma ShortestForm(op: bv8, size: bv64, f: Flags, other: BasicHeader, e: seq<bv8>)
    requires op < 16 && |e| == MAX_EXTENDED_HEADER_LENGTH
    requires GetPayloadSize(other, e) == size && GetFlags(other).mask == f.mask
    ensures GetHeaderLen(MakeBasic(op, size, f)) <= GetHeaderLen(other)
  {
    BasicReadsBack(op, size, f);
    hide MakeBasic, WordByte, Word;
  }

  // ---- the bits and bytes of section 5.2 ----

  /** The octets of a length in network order, high one first. */
  function LengthOctets(size: bv64): seq<bv8> {
    if size <= 125 then []
    else if size <= 65535 then [((size >> 8) & 0xFF) as bv8, (size & 0xFF) as bv8]
    else [((size >> 56) & 0xFF) as bv8, ((size >> 48) & 0xFF) as bv8, ((size >> 40) & 0xFF) as bv8,
          ((size >> 32) & 0xFF) as bv8, ((size >> 24) & 0xFF) as bv8, ((size >> 16) & 0xFF) as bv8,
          ((size >> 8) & 0xFF) as bv8, (size & 0xFF) as bv8]
  }

  lemma FirstOctet(op: bv8, size: bv64, f: Flags)
    requires op < 16
    ensures MakeBasic(op, size, f).b0 ==
            (if f.fin then 0x80 else 0) + (if f.rsv1 then 0x40 else 0) + (if f.rsv2 then 0x20 else 0)
            + (if f.rsv3 then 0x10 else 0) + op
  {
  }

  lemma CodeBits(size: bv64)
    ensures SizeCode(size) == if size <= 125 then (size & 0x7F) as bv8 else if size <= 65535 then 126 else 127
    ensures SizeCode(size) & 0x80 == 0
  {
  }

  lemma HighBit(b: bv8)
    requires b & 0x80 == 0
    ensures 0x80 | b == 0x80 + b && 0 | b == b
  {
  }

  lemma SecondOctet(op: bv8, size: bv64, f: Flags)
    ensures MakeBasic(op, size, f).b1 ==
            (if f.mask then 0x80 else 0) + (if size <= 125 then (size & 0x7F) as bv8 else if size <= 65535 then 126 else 127)
  {
    CodeBits(size);
    HighBit(SizeCode(size));
    var code := SizeCode(size);
    hide SizeCode;
    assert MakeBasic(op, size, f).b1 == (if f.mask then 0x80 | code else code);
  }

  lemma LengthWritten(size: bv64)
    ensures SizeBytes(size) == LengthOctets(size)
  {
  }

  /** The header byte by byte: FIN and RSV1 to RSV3 from the high bit down, the opcode, the mask
      bit over the length or its code, the length in network order, then the key as it masks. */
  lemma HeaderOctets(op: bv8, size: bv64, f: Flags, key: Key)
    requires op < 16
    ensures PrepareHeader(MakeBasic(op, size, f), ExtendedBytes(size, f, key)) ==
            [(if f.fin then 0x80 else 0) + (if f.rsv1 then 0x40 else 0) + (if f.rsv2 then 0x20 else 0)
             + (if f.rsv3 then 0x10 else 0) + op,
             (if f.mask then 0x80 else 0) + (if size <= 125 then (size & 0x7F) as bv8 else if size <= 65535 then 126 else 127)]
            + LengthOctets(size) + (if f.mask then KeyBytes(key) else [])
  {
    FirstOctet(op, size, f);
    SecondOctet(op, size, f);
    LengthWritten(size);
    BasicReadsBack(op, size, f);
    var h, x := MakeBasic(op, size, f), ExtendedBytes(size, f, key);
    SizeFits(size);
    HeaderLength(h, size, f);
    hide MakeBasic, SizeBytes, KeyBytes, LengthOctets, GetHeaderLen;
    assert x[..GetHeaderLen(h) - 2] == SizeBytes(size) + (if f.mask then KeyBytes(key) else []);
  }

  lemma HeaderLength(h: BasicHeader, size: bv64, f: Flags)
    requires GetBasicSize(h) == SizeCode(size) && GetFlags(h) == f
    ensures GetHeaderLen(h) == 2 + |SizeBytes(size)| + if f.mask then 4 else 0
  {
    hide WordByte, GetFlags, GetBasicSize;
    if size <= PAYLOAD_SIZE_BASIC { SmallSize(size); }
  }
}
