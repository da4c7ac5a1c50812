/** Masking of frame payloads (section 5.3 of RFC 6455) on a little-endian machine with
    64-bit words: a byte at a time, or a word at a time with a key that is rotated from one
    call to the next. */
module Masking {

  /** A masking key; its bytes in memory order are KeyByte(key, 0..4). */
  type Key = bv32

  function KeyByte(key: Key, i: nat): bv8
    requires i < 4
  {
    if i == 0 then (key & 0xFF) as bv8
    else if i == 1 then ((key >> 8) & 0xFF) as bv8
    else if i == 2 then ((key >> 16) & 0xFF) as bv8
    else ((key >> 24) & 0xFF) as bv8
  }

  /** The bytes of a word in memory order. */
  function WordByte(w: bv64, i: nat): bv8
    requires i < 8
  {
    if i == 0 then (w & 0xFF) as bv8
    else if i == 1 then ((w >> 8) & 0xFF) as bv8
    else if i == 2 then ((w >> 16) & 0xFF) as bv8
    else if i == 3 then ((w >> 24) & 0xFF) as bv8
    else if i == 4 then ((w >> 32) & 0xFF) as bv8
    else if i == 5 then ((w >> 40) & 0xFF) as bv8
    else if i == 6 then ((w >> 48) & 0xFF) as bv8
    else ((w >> 56) & 0xFF) as bv8
  }

  function Word(b0: bv8, b1: bv8, b2: bv8, b3: bv8, b4: bv8, b5: bv8, b6: bv8, b7: bv8): bv64 {
    (b0 as bv64) | ((b1 as bv64) << 8) | ((b2 as bv64) << 16) | ((b3 as bv64) << 24) |
    ((b4 as bv64) << 32) | ((b5 as bv64) << 40) | ((b6 as bv64) << 48) | ((b7 as bv64) << 56)
  }

  /** The word that eight bytes of memory hold. */
  function LoadWord(b: seq<bv8>): bv64
    requires |b| == 8
  {
    Word(b[0], b[1], b[2], b[3], b[4], b[5], b[6], b[7])
  }

  lemma WordBytes(b0: bv8, b1: bv8, b2: bv8, b3: bv8, b4: bv8, b5: bv8, b6: bv8, b7: bv8)
    ensures var w := Word(b0, b1, b2, b3, b4, b5, b6, b7);
            && WordByte(w, 0) == b0 && WordByte(w, 1) == b1 && WordByte(w, 2) == b2 && WordByte(w, 3) == b3
            && WordByte(w, 4) == b4 && WordByte(w, 5) == b5 && WordByte(w, 6) == b6 && WordByte(w, 7) == b7
  {
  }

  lemma LoadedByte(b: seq<bv8>, i: nat)
    requires |b| == 8 && i < 8
    ensures WordByte(LoadWord(b), i) == b[i]
  {
    hide Word, WordByte;
    WordBytes(b[0], b[1], b[2], b[3], b[4], b[5], b[6], b[7]);
  }

  function Xor(a: bv8, b: bv8): bv8 { a ^ b }

  function XorWord(v: bv64, w: bv64): bv64 { v ^ w }

  lemma XorEachByte(v: bv64, w: bv64)
    ensures WordByte(v ^ w, 0) == Xor(WordByte(v, 0), WordByte(w, 0))
    ensures WordByte(v ^ w, 1) == Xor(WordByte(v, 1), WordByte(w, 1))
    ensures WordByte(v ^ w, 2) == Xor(WordByte(v, 2), WordByte(w, 2))
    ensures WordByte(v ^ w, 3) == Xor(WordByte(v, 3), WordByte(w, 3))
    ensures WordByte(v ^ w, 4) == Xor(WordByte(v, 4), WordByte(w, 4))
    ensures WordByte(v ^ w, 5) == Xor(WordByte(v, 5), WordByte(w, 5))
    ensures WordByte(v ^ w, 6) == Xor(WordByte(v, 6), WordByte(w, 6))
    ensures WordByte(v ^ w, 7) == Xor(WordByte(v, 7), WordByte(w, 7))
  {
  }

  /** Masking a word masks each of its bytes. */
  lemma XorBytes(v: bv64, w: bv64, i: nat)
    requires i < 8
    ensures WordByte(XorWord(v, w), i) == Xor(WordByte(v, i), WordByte(w, i))
  {
    XorEachByte(v, w);
    assert XorWord(v, w) == v ^ w;
    hide WordByte, Xor, XorWord;
  }

  // ---- prepared keys ----

  function PrepareMaskingKey(key: Key): bv64 {
    ((key as bv64) << 32) | (key as bv64)
  }

  /** k >> offset*8 | k << (8-offset)*8, with the shift amounts written out. */
  function CircshiftPreparedKey(k: bv64, offset: nat): bv64
    requires offset < 8
  {
    if offset == 0 then k
    else if offset == 1 then (k >> 8) | (k << 56)
    else if offset == 2 then (k >> 16) | (k << 48)
    else if offset == 3 then (k >> 24) | (k << 40)
    else if offset == 4 then (k >> 32) | (k << 32)
    else if offset == 5 then (k >> 40) | (k << 24)
    else if offset == 6 then (k >> 48) | (k << 16)
    else (k >> 56) | (k << 8)
  }

  /** Byte i of r is byte n + i of k, around the end. */
  predicate Rotated(k: bv64, n: nat, r: bv64) {
    && WordByte(r, 0) == WordByte(k, n % 8)
    && WordByte(r, 1) == WordByte(k, (n + 1) % 8)
    && WordByte(r, 2) == WordByte(k, (n + 2) % 8)
    && WordByte(r, 3) == WordByte(k, (n + 3) % 8)
    && WordByte(r, 4) == WordByte(k, (n + 4) % 8)
    && WordByte(r, 5) == WordByte(k, (n + 5) % 8)
    && WordByte(r, 6) == WordByte(k, (n + 6) % 8)
    && WordByte(r, 7) == WordByte(k, (n + 7) % 8)
  }

  lemma FirstShifts(k: bv64)
    ensures Rotated(k, 0, k)
    ensures Rotated(k, 1, (k >> 8) | (k << 56))
    ensures Rotated(k, 2, (k >> 16) | (k << 48))
  {
  }

  lemma MiddleShifts(k: bv64)
    ensures Rotated(k, 3, (k >> 24) | (k << 40))
    ensures Rotated(k, 4, (k >> 32) | (k << 32))
    ensures Rotated(k, 5, (k >> 40) | (k << 24))
  {
  }

  lemma LastShifts(k: bv64)
    ensures Rotated(k, 6, (k >> 48) | (k << 16))
    ensures Rotated(k, 7, (k >> 56) | (k << 8))
  {
  }

  lemma CircshiftRotates(k: bv64, n: nat)
    requires n < 8
    ensures Rotated(k, n, CircshiftPreparedKey(k, n))
  {
    hide Rotated, WordByte;
    FirstShifts(k);
    MiddleShifts(k);
    LastShifts(k);
  }

  /** Rotating by n bytes moves byte n to the front. */
  lemma ShiftedBytes(k: bv64, n: nat, i: nat)
    requires n < 8 && i < 8
    ensures WordByte(CircshiftPreparedKey(k, n), i) == WordByte(k, (n + i) % 8)
  {
    hide WordByte, CircshiftPreparedKey;
    CircshiftRotates(k, n);
  }

  lemma PreparedEachByte(key: Key)
    ensures WordByte(PrepareMaskingKey(key), 0) == KeyByte(key, 0)
    ensures WordByte(PrepareMaskingKey(key), 1) == KeyByte(key, 1)
    ensures WordByte(PrepareMaskingKey(key), 2) == KeyByte(key, 2)
    ensures WordByte(PrepareMaskingKey(key), 3) == KeyByte(key, 3)
    ensures WordByte(PrepareMaskingKey(key), 4) == KeyByte(key, 0)
    ensures WordByte(PrepareMaskingKey(key), 5) == KeyByte(key, 1)
    ensures WordByte(PrepareMaskingKey(key), 6) == KeyByte(key, 2)
    ensures WordByte(PrepareMaskingKey(key), 7) == KeyByte(key, 3)
  {
  }

  /** The key repeats every four bytes. */
  function KeyAt(key: Key, i: nat): bv8 { KeyByte(key, i % 4) }

  lemma KeyIndex(key: Key, i: nat, index: nat)
    requires index == i % 4
    ensures KeyByte(key, index) == KeyAt(key, i) && (index + 1) % 4 == (i + 1) % 4
  {
  }

  /** Byte i of the word k is what masks the byte of a message at offset + i. */
  predicate PreparedAt(k: bv64, key: Key, offset: nat) {
    forall i | 0 <= i < 8 :: WordByte(k, i) == KeyAt(key, offset + i)
  }

  lemma KeyPeriod(key: Key, i: nat, n: nat)
    ensures KeyAt(key, i + 4 * n) == KeyAt(key, i)
  {
  }

  lemma FreshKey(key: Key)
    ensures PreparedAt(PrepareMaskingKey(key), key, 0)
  {
    hide WordByte, KeyByte, PrepareMaskingKey;
    PreparedEachByte(key);
  }

  lemma RotatedKey(k: bv64, key: Key, offset: nat, n: nat)
    requires PreparedAt(k, key, offset) && n < 8
    ensures PreparedAt(CircshiftPreparedKey(k, n), key, offset + n)
  {
    hide WordByte, KeyAt, CircshiftPreparedKey;
    forall i | 0 <= i < 8
      ensures WordByte(CircshiftPreparedKey(k, n), i) == KeyAt(key, offset + n + i)
    {
      ShiftedBytes(k, n, i);
      if n + i >= 8 { KeyPeriod(key, offset + (n + i) % 8, 2); }
    }
  }

  // ---- masking a piece of a buffer ----

  /** The payload s, standing at the given offset of its message, masked with key. */
  function Masked(s: seq<bv8>, key: Key, offset: nat): seq<bv8> {
    seq(|s|, i requires 0 <= i < |s| => Xor(s[i], KeyAt(key, offset + i)))
  }

  /** What one pass with a prepared word does; period is 8 for words and 4 for bytes. */
  function MaskedBy(s: seq<bv8>, k: bv64, period: nat): seq<bv8>
    requires 0 < period <= 8
  {
    seq(|s|, i requires 0 <= i < |s| => Xor(s[i], WordByte(k, i % period)))
  }

  /** The region [at, at + length) of the input and of the output, which may be the same buffer. */
  method ByteMask(input: array<bv8>, output: array<bv8>, at: nat, length: nat, key: Key, keyOffset: nat)
    requires at + length <= input.Length && at + length <= output.Length
    modifies output
    ensures output[at..at + length] == Masked(old(input[at..at + length]), key, keyOffset)
    ensures output[..at] == old(output[..at]) && output[at + length..] == old(output[at + length..])
  {
    hide KeyAt, KeyByte, Xor;
    var keyIndex := keyOffset % 4;
    var i := at;
    while i < at + length
      invariant at <= i <= at + length && keyIndex == (keyOffset + (i - at)) % 4
      invariant forall j | at <= j < i :: output[j] == Xor(old(input[j]), KeyAt(key, keyOffset + (j - at)))
      invariant forall j | i <= j < at + length :: input[j] == old(input[j])
      invariant forall j | 0 <= j < output.Length && !(at <= j < i) :: output[j] == old(output[j])
    {
      KeyIndex(key, keyOffset + (i - at), keyIndex);
      output[i] := Xor(input[i], KeyByte(key, keyIndex));
      keyIndex := (keyIndex + 1) % 4;
      i := i + 1;
    }
    IsMasked(old(input[at..at + length]), output[at..at + length], key, keyOffset);
  }

  lemma IsMasked(s: seq<bv8>, t: seq<bv8>, key: Key, offset: nat)
    requires |s| == |t| && forall j :: 0 <= j < |t| ==> t[j] == Xor(s[j], KeyAt(key, offset + j))
    ensures t == Masked(s, key, offset)
  {
  }

  method StoreWord(output: array<bv8>, at: nat, w: bv64)
    requires at + 8 <= output.Length
    modifies output
    ensures forall j | at <= j < at + 8 :: output[j] == WordByte(w, j - at)
    ensures forall j | 0 <= j < output.Length && !(at <= j < at + 8) :: output[j] == old(output[j])
  {
    hide WordByte;
    var j := 0;
    while j < 8
      invariant 0 <= j <= 8
      invariant forall i | at <= i < at + j :: output[i] == WordByte(w, i - at)
      invariant forall i | 0 <= i < output.Length && !(at <= i < at + j) :: output[i] == old(output[i])
    {
      output[at + j] := WordByte(w, j);
      j := j + 1;
    }
  }

  lemma MaskedWord(b: seq<bv8>, k: bv64)
    requires |b| == 8
    ensures forall j | 0 <= j < 8 :: WordByte(XorWord(LoadWord(b), k), j) == Xor(b[j], WordByte(k, j))
  {
    hide WordByte, Xor, XorWord, LoadWord;
    forall j | 0 <= j < 8
      ensures WordByte(XorWord(LoadWord(b), k), j) == Xor(b[j], WordByte(k, j))
    {
      LoadedByte(b, j);
      XorBytes(LoadWord(b), k, j);
    }
  }

  lemma WordIndex(i: nat, r: nat)
    requires r < 8
    ensures (8 * i + r) % 8 == r
  {
  }

  /** The word loop that word_mask_exact and word_mask_circ share. */
  method MaskWords(input: array<bv8>, output: array<bv8>, at: nat, n: nat, k: bv64)
    requires at + 8 * n <= input.Length && at + 8 * n <= output.Length
    modifies output
    ensures forall j | at <= j < at + 8 * n :: output[j] == Xor(old(input[j]), WordByte(k, (j - at) % 8))
    ensures forall j | 0 <= j < output.Length && !(at <= j < at + 8 * n) :: output[j] == old(output[j])
  {
    hide WordByte, Xor, XorWord, LoadWord;
    var i := 0;
    while i < n
      invariant 0 <= i <= n
      invariant forall j | at <= j < at + 8 * i :: output[j] == Xor(old(input[j]), WordByte(k, (j - at) % 8))
      invariant forall j | at + 8 * i <= j < at + 8 * n :: input[j] == old(input[j])
      invariant forall j | 0 <= j < output.Length && !(at <= j < at + 8 * i) :: output[j] == old(output[j])
    {
      var p := at + 8 * i;
      var b := input[p..p + 8];
      MaskedWord(b, k);
      StoreWord(output, p, XorWord(LoadWord(b), k));
      forall j | p <= j < p + 8
        ensures output[j] == Xor(old(input[j]), WordByte(k, (j - at) % 8))
      {
        WordIndex(i, j - p);
        assert b[j - p] == old(input[j]) && j - at == 8 * i + (j - p);
      }
      i := i + 1;
    }
  }

  lemma RegionMasked(output: array<bv8>, at: nat, s: seq<bv8>, k: bv64, period: nat)
    requires 0 < period <= 8 && at + |s| <= output.Length
    requires forall j | at <= j < at + |s| :: output[j] == Xor(s[j - at], WordByte(k, (j - at) % period))
    ensures output[at..at + |s|] == MaskedBy(s, k, period)
  {
    hide Xor, WordByte;
  }

  lemma Framed(was: seq<bv8>, now: seq<bv8>, at: nat, n: nat)
    requires |was| == |now| && at + n <= |now|
    requires forall j | 0 <= j < |now| && !(at <= j < at + n) :: now[j] == was[j]
    ensures now[..at] == was[..at] && now[at + n..] == was[at + n..]
  {
  }

  method WordMaskExact(input: array<bv8>, output: array<bv8>, at: nat, length: nat, key: Key)
    requires at + length <= input.Length && at + length <= output.Length
    modifies output
    ensures output[at..at + length] == Masked(old(input[at..at + length]), key, 0)
    ensures output[..at] == old(output[..at]) && output[at + length..] == old(output[at + length..])
  {
    hide WordByte, Xor, KeyByte, KeyAt, PrepareMaskingKey, Masked;
    ghost var before, was := input[at..at + length], output[..];
    var n := length / 8;
    FreshKey(key);
    MaskWords(input, output, at, n, PrepareMaskingKey(key));
    var i := n * 8;
    forall j | at <= j < at + i
      ensures output[j] == Xor(before[j - at], KeyAt(key, j - at))
    {
      KeyPeriod(key, (j - at) % 8, 2 * ((j - at) / 8));
    }
    while i < length
      invariant n * 8 <= i <= length
      invariant forall j | at <= j < at + i :: output[j] == Xor(before[j - at], KeyAt(key, j - at))
      invariant forall j | at + i <= j < at + length :: input[j] == before[j - at]
      invariant forall j | 0 <= j < output.Length && !(at <= j < at + i) :: output[j] == was[j]
    {
      KeyIndex(key, i, i % 4);
      output[at + i] := Xor(input[at + i], KeyByte(key, i % 4));
      i := i + 1;
    }
    RegionByKey(output[at..at + length], before, key);
    Framed(was, output[..], at, length);
    assert output[..at] == output[..][..at] && output[at + length..] == output[..][at + length..];
  }

  lemma RegionByKey(region: seq<bv8>, s: seq<bv8>, key: Key)
    requires |region| == |s| && forall j | 0 <= j < |s| :: region[j] == Xor(s[j], KeyAt(key, j))
    ensures region == Masked(s, key, 0)
  {
    hide Xor, KeyAt;
  }

  method WordMaskCirc(input: array<bv8>, output: array<bv8>, at: nat, length: nat, preparedKey: bv64)
    returns (next: bv64)
    requires at + length <= input.Length && at + length <= output.Length
    modifies output
    ensures output[at..at + length] == MaskedBy(old(input[at..at + length]), preparedKey, 8)
    ensures output[..at] == old(output[..at]) && output[at + length..] == old(output[at + length..])
    ensures next == CircshiftPreparedKey(preparedKey, length % 8)
  {
    hide WordByte, Xor, CircshiftPreparedKey, MaskedBy;
    ghost var before, was := input[at..at + length], output[..];
    var n := length / 8;
    var l := length - n * 8;
    MaskWords(input, output, at, n, preparedKey);
    var start := at + length - l;
    var i := 0;
    while i < l
      invariant 0 <= i <= l
      invariant forall j | at <= j < start + i :: output[j] == Xor(before[j - at], WordByte(preparedKey, (j - at) % 8))
      invariant forall j | start + i <= j < at + length :: input[j] == before[j - at]
      invariant forall j | 0 <= j < output.Length && !(at <= j < start + i) :: output[j] == was[j]
    {
      WordIndex(n, i);
      output[start + i] := Xor(input[start + i], WordByte(preparedKey, i));
      i := i + 1;
    }
    RegionMasked(output, at, before, preparedKey, 8);
    Framed(was, output[..], at, length);
    assert output[..at] == output[..][..at] && output[at + length..] == output[..][at + length..];
    next := CircshiftPreparedKey(preparedKey, l);
  }

  /** The assignment of a 64-bit word to the 32-bit member of a union. */
  function Truncate(k: bv64): Key { (k & 0xFFFF_FFFF) as bv32 }

  lemma TruncatedBytes(k: bv64)
    ensures KeyByte(Truncate(k), 0) == WordByte(k, 0) && KeyByte(Truncate(k), 1) == WordByte(k, 1)
    ensures KeyByte(Truncate(k), 2) == WordByte(k, 2) && KeyByte(Truncate(k), 3) == WordByte(k, 3)
  {
  }

  method ByteMaskCirc(input: array<bv8>, output: array<bv8>, at: nat, length: nat, preparedKey: bv64)
    returns (next: bv64)
    requires at + length <= input.Length && at + length <= output.Length
    modifies output
    ensures output[at..at + length] == MaskedBy(old(input[at..at + length]), preparedKey, 4)
    ensures output[..at] == old(output[..at]) && output[at + length..] == old(output[at + length..])
    ensures next == CircshiftPreparedKey(preparedKey, length % 4)
  {
    hide WordByte, Xor, KeyByte, Truncate, CircshiftPreparedKey, MaskedBy;
    ghost var before, was := input[at..at + length], output[..];
    TruncatedBytes(preparedKey);
    var key := Truncate(preparedKey);
    var i := 0;
    while i < length
      invariant 0 <= i <= length
      invariant forall j | at <= j < at + i :: output[j] == Xor(before[j - at], WordByte(preparedKey, (j - at) % 4))
      invariant forall j | at + i <= j < at + length :: input[j] == before[j - at]
      invariant forall j | 0 <= j < output.Length && !(at <= j < at + i) :: output[j] == was[j]
    {
      output[at + i] := Xor(input[at + i], KeyByte(key, i % 4));
      i := i + 1;
    }
    RegionMasked(output, at, before, preparedKey, 4);
    Framed(was, output[..], at, length);
    assert output[..at] == output[..][..at] && output[at + length..] == output[..][at + length..];
    next := CircshiftPreparedKey(preparedKey, length % 4);
  }

  // ---- any sequence of calls ----

  /** A call of word_mask_circ (words) or byte_mask_circ on the next length bytes. */
  datatype Call = Call(length: nat, words: bool) {
    function Period(): (n: nat)
      ensures n == 4 || n == 8
    {
      if words then 8 else 4
    }
  }

  function TotalLength(calls: seq<Call>): nat {
    if calls == [] then 0 else calls[0].length + TotalLength(calls[1..])
  }

  /** The prepared key that a call returns. */
  function NextKey(k: bv64, c: Call): bv64 { CircshiftPreparedKey(k, c.length % c.Period()) }

  /** The bytes that the calls leave behind, each call getting the key the previous one returned. */
  function MaskCalls(s: seq<bv8>, calls: seq<Call>, k: bv64): seq<bv8>
    requires TotalLength(calls) == |s|
    decreases |calls|
  {
    if calls == [] then []
    else
      var c := calls[0];
      MaskedBy(s[..c.length], k, c.Period()) +
      MaskCalls(s[c.length..], calls[1..], NextKey(k, c))
  }

  /** One call does its part of the message and hands on the key for the rest. */
  lemma OneCall(s: seq<bv8>, c: Call, k: bv64, key: Key, offset: nat)
    requires PreparedAt(k, key, offset)
    ensures MaskedBy(s, k, c.Period()) == Masked(s, key, offset)
    ensures PreparedAt(NextKey(k, c), key, offset + c.length)
  {
    hide WordByte, Xor, KeyAt, CircshiftPreparedKey;
    forall i | 0 <= i < |s|
      ensures WordByte(k, i % c.Period()) == KeyAt(key, offset + i)
    {
      KeyPeriod(key, offset + i % c.Period(), if c.words then 2 * (i / 8) else i / 4);
    }
    var n := c.length % c.Period();
    RotatedKey(k, key, offset, n);
    forall i | 0 <= i < 8
      ensures WordByte(CircshiftPreparedKey(k, n), i) == KeyAt(key, offset + c.length + i)
    {
      KeyPeriod(key, offset + n + i, if c.words then 2 * (c.length / 8) else c.length / 4);
    }
  }

  lemma MaskedSplit(s: seq<bv8>, n: nat, key: Key, offset: nat)
    requires n <= |s|
    ensures Masked(s[..n], key, offset) + Masked(s[n..], key, offset + n) == Masked(s, key, offset)
  {
    hide Xor, KeyAt;
  }

  lemma MaskedNothing(s: seq<bv8>, key: Key, offset: nat)
    requires s == []
    ensures Masked(s, key, offset) == []
  {
  }

  lemma {:induction false} CallsMask(s: seq<bv8>, calls: seq<Call>, k: bv64, key: Key, offset: nat)
    requires TotalLength(calls) == |s| && PreparedAt(k, key, offset)
    ensures MaskCalls(s, calls, k) == Masked(s, key, offset)
    decreases |calls|
  {
    hide NextKey, PreparedAt, MaskedBy, Call.Period, Masked;
    if calls == [] {
      MaskedNothing(s, key, offset);
    } else {
      var c := calls[0];
      var head, tail := s[..c.length], s[c.length..];
      OneCall(head, c, k, key, offset);
      CallsMask(tail, calls[1..], NextKey(k, c), key, offset + c.length);
      MaskedSplit(s, c.length, key, offset);
      assert MaskCalls(s, calls, k) == MaskedBy(head, k, c.Period()) + MaskCalls(tail, calls[1..], NextKey(k, c));
    }
  }

  /** However a message is cut into pieces, and whichever routine masks each piece, the
      result is one slow pass over the whole message. */
  lemma AnyCallsMaskTheMessage(s: seq<bv8>, calls: seq<Call>, key: Key)
    requires TotalLength(calls) == |s|
    ensures MaskCalls(s, calls, PrepareMaskingKey(key)) == Masked(s, key, 0)
  {
    FreshKey(key);
    CallsMask(s, calls, PrepareMaskingKey(key), key, 0);
  }

  /** Masking twice restores the message, so unmasking may be cut up differently. */
  lemma MaskingIsAnInvolution(s: seq<bv8>, calls: seq<Call>, others: seq<Call>, key: Key)
    requires TotalLength(calls) == TotalLength(others) == |s|
    ensures |MaskCalls(s, calls, PrepareMaskingKey(key))| == |s|
    ensures MaskCalls(MaskCalls(s, calls, PrepareMaskingKey(key)), others, PrepareMaskingKey(key)) == s
  {
    hide KeyAt, PrepareMaskingKey, MaskCalls;
    AnyCallsMaskTheMessage(s, calls, key);
    AnyCallsMaskTheMessage(Masked(s, key, 0), others, key);
    MaskedTwice(s, key);
  }

  /** The next call on a buffer of which the bytes before at are done. */
  method MaskNext(buffer: array<bv8>, at: nat, c: Call, k: bv64, ghost key: Key) returns (next: bv64)
    requires at + c.length <= buffer.Length && PreparedAt(k, key, at)
    modifies buffer
    ensures buffer[..at] == old(buffer[..at]) && buffer[at + c.length..] == old(buffer[at + c.length..])
    ensures buffer[at..at + c.length] == Masked(old(buffer[at..at + c.length]), key, at)
    ensures PreparedAt(next, key, at + c.length)
  {
    hide PreparedAt, Masked, MaskedBy, NextKey, CircshiftPreparedKey;
    OneCall(buffer[at..at + c.length], c, k, key, at);
    ReturnedKey(k, c);
    if c.words {
      next := WordMaskCirc(buffer, buffer, at, c.length, k);
    } else {
      next := ByteMaskCirc(buffer, buffer, at, c.length, k);
    }
  }

  lemma MaskedSoFar(s: seq<bv8>, at: nat, end: nat, done: seq<bv8>, piece: seq<bv8>, key: Key)
    requires at <= end <= |s| && done == Masked(s[..at], key, 0) && piece == Masked(s[at..end], key, at)
    ensures done + piece == Masked(s[..end], key, 0)
  {
    hide Masked;
    assert s[..end][..at] == s[..at] && s[..end][at..] == s[at..end];
    MaskedSplit(s[..end], at, key, 0);
  }

  /** Masks a whole buffer in place, piece by piece, each call getting the key that the last
      one returned. */
  method MaskInPieces(buffer: array<bv8>, calls: seq<Call>, key: Key)
    requires TotalLength(calls) == buffer.Length
    modifies buffer
    ensures buffer[..] == Masked(old(buffer[..]), key, 0)
  {
    hide PreparedAt, Masked, PrepareMaskingKey;
    ghost var s := buffer[..];
    FreshKey(key);
    var k := PrepareMaskingKey(key);
    var i, at := 0, 0;
    MaskedNothing(s[..0], key, 0);
    while i < |calls|
      invariant 0 <= i <= |calls| && 0 <= at <= buffer.Length
      invariant at + TotalLength(calls[i..]) == buffer.Length && PreparedAt(k, key, at)
      invariant buffer[..at] == Masked(s[..at], key, 0) && buffer[at..] == s[at..]
    {
      var c := calls[i];
      assert calls[i..][1..] == calls[i + 1..];
      var end := at + c.length;
      ghost var done, rest := buffer[..at], buffer[at..];
      assert buffer[at..end] == rest[..c.length] == s[at..end];
      assert buffer[end..] == rest[c.length..] == s[end..];
      k := MaskNext(buffer, at, c, k, key);
      MaskedSoFar(s, at, end, done, buffer[at..end], key);
      assert buffer[..end] == buffer[..at] + buffer[at..end];
      i, at := i + 1, end;
    }
    assert buffer[..] == buffer[..at] && s == s[..at];
  }

  lemma ReturnedKey(k: bv64, c: Call)
    ensures NextKey(k, c) == CircshiftPreparedKey(k, c.length % if c.words then 8 else 4)
  {
    hide CircshiftPreparedKey;
  }

  /** Masking a buffer and unmasking it again, each in its own pieces. */
  method MaskAndUnmask(buffer: array<bv8>, calls: seq<Call>, others: seq<Call>, key: Key)
    requires TotalLength(calls) == TotalLength(others) == buffer.Length
    modifies buffer
    ensures buffer[..] == old(buffer[..])
  {
    hide KeyAt;
    MaskInPieces(buffer, calls, key);
    MaskInPieces(buffer, others, key);
    MaskedTwice(old(buffer[..]), key);
  }

  lemma MaskedTwice(s: seq<bv8>, key: Key)
    ensures Masked(Masked(s, key, 0), key, 0) == s
  {
    hide KeyAt;
    forall i | 0 <= i < |s|
      ensures Xor(Xor(s[i], KeyAt(key, i)), KeyAt(key, i)) == s[i]
    {
    }
  }

  /** Section 5.3 of RFC 6455: octet i of the masked data is octet i of the data, exclusive or
      octet i modulo 4 of the key. */
  lemma MaskedOctet(s: seq<bv8>, key: Key, i: nat)
    requires i < |s|
    ensures Masked(s, key, 0)[i] == s[i] ^ KeyByte(key, i % 4)
  {
    hide KeyByte;
  }

  /** The example of section 5.7: "Hello" under the key with the octets 37 fa 21 3d. */
  lemma MaskedHello()
    ensures Masked([0x48, 0x65, 0x6c, 0x6c, 0x6f], 0x3d21fa37, 0) == [0x7f, 0x9f, 0x4d, 0x51, 0x58]
  {
    var s: seq<bv8> := [0x48, 0x65, 0x6c, 0x6c, 0x6f];
    forall i | 0 <= i < 5
      ensures Masked(s, 0x3d21fa37, 0)[i] == [0x7f, 0x9f, 0x4d, 0x51, 0x58][i]
    {
      MaskedOctet(s, 0x3d21fa37, i);
    }
  }
}
