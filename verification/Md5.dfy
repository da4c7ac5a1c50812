/** Streaming MD5 (RFC 1321): block buffering, the two-word bit counter and the padding.
    The compression of one block is a parameter; everything here holds for any. */
module Md5 {
  import opened Messages

  const WORD: int := 0x1_0000_0000

  type Word = n: int | 0 <= n < WORD

  datatype Digest = Digest(a: Word, b: Word, c: Word, d: Word)

  type Compression = (Digest, seq<Byte>) -> Digest

  const INIT := Digest(0x67452301, 0xEFCDAB89, 0x98BADCFE, 0x10325476)

  const BLOCK := 64

  // ---- what the digest of a message is ----

  /** Compression folded over a whole number of blocks. */
  function Fold(f: Compression, d: Digest, bytes: seq<Byte>): Digest
    decreases |bytes|
  {
    if |bytes| < BLOCK then d else Fold(f, f(d, bytes[..BLOCK]), bytes[BLOCK..])
  }

  lemma {:induction false} FoldBlock(f: Compression, d: Digest, bytes: seq<Byte>, block: seq<Byte>)
    requires |bytes| % BLOCK == 0 && |block| == BLOCK
    ensures Fold(f, d, bytes + block) == f(Fold(f, d, bytes), block)
    decreases |bytes|
  {
    if bytes == [] {
      assert bytes + block == block && block[..BLOCK] == block;
    } else {
      assert (bytes + block)[..BLOCK] == bytes[..BLOCK];
      assert (bytes + block)[BLOCK..] == bytes[BLOCK..] + block;
      FoldBlock(f, f(d, bytes[..BLOCK]), bytes[BLOCK..], block);
    }
  }

  /** The part of a message that fills whole blocks, and the rest. */
  function Whole(m: seq<Byte>): seq<Byte> { m[..|m| - |m| % BLOCK] }

  function Tail(m: seq<Byte>): seq<Byte> { m[|m| - |m| % BLOCK..] }

  function ByteOf(w: Word, k: nat): Byte
    requires k < 4
  {
    if k == 0 then w % 0x100
    else if k == 1 then w / 0x100 % 0x100
    else if k == 2 then w / 0x1_0000 % 0x100
    else w / 0x100_0000 % 0x100
  }

  /** The bytes of some words, low-order first. */
  function BytesOf(words: seq<Word>): seq<Byte> {
    seq(4 * |words|, i requires 0 <= i < 4 * |words| => ByteOf(words[i / 4], i % 4))
  }

  /** A 64-bit number as the two words that count holds. */
  function Words(n: nat): seq<Word>
    requires n < WORD * WORD
  {
    [n % WORD, n / WORD]
  }

  function BitCount(m: seq<Byte>): nat { 8 * |m| % (WORD * WORD) }

  function PadLength(length: nat): nat { (55 - length) % BLOCK + 1 }

  /** Sections 3.1 and 3.2: one bit 1, then zeros up to 56 bytes modulo 64, then the number
      of bits modulo 2^64. */
  function Padding(length: nat): (p: seq<Byte>)
    ensures |p| == PadLength(length)
  {
    [0x80] + seq(PadLength(length) - 1, _ => 0)
  }

  function Padded(m: seq<Byte>): seq<Byte> {
    m + Padding(|m|) + BytesOf(Words(BitCount(m)))
  }

  function DigestBytes(d: Digest): seq<Byte> {
    BytesOf([d.a, d.b, d.c, d.d])
  }

  function Hash(f: Compression, m: seq<Byte>): seq<Byte> {
    DigestBytes(Fold(f, INIT, Padded(m)))
  }

  /** The padded message is a whole number of blocks, and no shorter padding (of at least
      one byte, before the eight of the length) would make it one. */
  lemma PaddedIsWhole(m: seq<Byte>, k: nat)
    ensures |Padded(m)| % BLOCK == 0
    ensures 1 <= PadLength(|m|) <= 64
    ensures 1 <= k && (|m| + k + 8) % BLOCK == 0 ==> PadLength(|m|) <= k
  {
    LengthField(m);
    hide Padded, BytesOf, Padding;
    PadFits(|m|, k);
  }

  lemma PadFits(n: nat, k: nat)
    ensures (n + PadLength(n) + 8) % BLOCK == 0 && 1 <= PadLength(n) <= 64
    ensures 1 <= k && (n + k + 8) % BLOCK == 0 ==> PadLength(n) <= k
  {
  }

  lemma BytesOfInjective(a: seq<Word>, b: seq<Word>)
    requires BytesOf(a) == BytesOf(b)
    ensures a == b
  {
    var x, y := BytesOf(a), BytesOf(b);
    assert |a| == |b|;
    forall i | 0 <= i < |a|
      ensures a[i] == b[i]
    {
      forall k | 0 <= k < 4 ensures ByteOf(a[i], k) == ByteOf(b[i], k) {
        assert x[4 * i + k] == y[4 * i + k];
      }
      FromBytes(a[i]);
      FromBytes(b[i]);
    }
  }

  lemma FromBytes(w: Word)
    ensures w == ByteOf(w, 0) + 0x100 * ByteOf(w, 1) + 0x1_0000 * ByteOf(w, 2) + 0x100_0000 * ByteOf(w, 3)
  {
    var x := w / 0x100;
    var y := x / 0x100;
    var z := y / 0x100;
    assert ByteOf(w, 0) == w - 0x100 * x;
    assert ByteOf(w, 1) == x - 0x100 * y;
    assert y == w / 0x1_0000 && ByteOf(w, 2) == y - 0x100 * z;
    assert z == w / 0x100_0000 && ByteOf(w, 3) == z;
  }

  /** Padding loses nothing: below 2^61 bytes, different messages stay different. */
  lemma PaddedInjective(a: seq<Byte>, b: seq<Byte>)
    requires |a| < 0x2000_0000_0000_0000 && |b| < 0x2000_0000_0000_0000
    requires Padded(a) == Padded(b)
    ensures a == b
  {
    LengthField(a);
    LengthField(b);
    StartsPadded(a);
    StartsPadded(b);
    BitsOfLength(a);
    BitsOfLength(b);
    hide Padded, BytesOf, Words, BitCount, PadLength;
    BytesOfInjective(Words(BitCount(a)), Words(BitCount(b)));
    WordsInjective(BitCount(a), BitCount(b));
  }

  lemma StartsPadded(m: seq<Byte>)
    ensures |m| <= |Padded(m)| && Padded(m)[..|m|] == m
  {
    hide BytesOf, Padding;
  }

  lemma BitsOfLength(m: seq<Byte>)
    requires |m| < 0x2000_0000_0000_0000
    ensures BitCount(m) == 8 * |m|
  {
  }

  lemma LengthField(m: seq<Byte>)
    ensures |Padded(m)| == |m| + PadLength(|m|) + 8
    ensures Padded(m)[|Padded(m)| - 8..] == BytesOf(Words(BitCount(m)))
  {
    hide ByteOf;
    assert Padded(m) == (m + Padding(|m|)) + BytesOf(Words(BitCount(m)));
  }

  lemma WordsInjective(a: nat, b: nat)
    requires a < WORD * WORD && b < WORD * WORD && Words(a) == Words(b)
    ensures a == b
  {
    assert Words(a)[0] == Words(b)[0] && Words(a)[1] == Words(b)[1];
  }

  // ---- the streaming state ----

  /** The bit counter after adding n bytes, with the carry between its two words. */
  function AddCount(lo: Word, hi: Word, n: nat): (Word, Word) {
    var nbits := n * 8 % WORD;
    var hi1 := (hi + n / 0x2000_0000) % WORD;
    var lo1 := (lo + nbits) % WORD;
    (lo1, if lo1 < nbits then (hi1 + 1) % WORD else hi1)
  }

  lemma LowWord(lo: Word, n: nat)
    ensures var lo' := (lo + n * 8 % WORD) % WORD;
            lo + 8 * n == lo' + WORD * (n / 0x2000_0000 + if lo' < n * 8 % WORD then 1 else 0)
  {
    var nbits := n * 8 % WORD;
    assert 8 * n == WORD * (n / 0x2000_0000) + nbits;
    var lo' := (lo + nbits) % WORD;
    if lo + nbits < WORD {
      assert lo' == lo + nbits;
    } else {
      assert lo' == lo + nbits - WORD;
    }
  }

  lemma HighWord(hi: Word, k: nat, carry: bool) returns (q: nat)
    ensures var hi1 := (hi + k) % WORD;
            hi + k + (if carry then 1 else 0) == (if carry then (hi1 + 1) % WORD else hi1) + WORD * q
  {
    var hi1 := (hi + k) % WORD;
    q := (hi + k) / WORD;
    if carry && hi1 == WORD - 1 { q := q + 1; }
  }

  /** The two words together count modulo 2^64. */
  lemma CountAdds(lo: Word, hi: Word, length: nat, n: nat)
    requires lo + WORD * hi == 8 * length % (WORD * WORD)
    ensures var (lo', hi') := AddCount(lo, hi, n);
            lo' + WORD * hi' == 8 * (length + n) % (WORD * WORD)
  {
    var (lo', hi') := AddCount(lo, hi, n);
    var q := 8 * length / (WORD * WORD);
    LowWord(lo, n);
    var c := HighWord(hi, n / 0x2000_0000, lo' < n * 8 % WORD);
    ModUnique(8 * (length + n), q + c, lo' + WORD * hi');
  }

  lemma ModUnique(x: nat, q: int, r: nat)
    requires r < WORD * WORD && x == q * (WORD * WORD) + r
    ensures x % (WORD * WORD) == r
  {
  }

  lemma CountGivesOffset(lo: Word, hi: Word, length: nat)
    requires lo + WORD * hi == 8 * length % (WORD * WORD)
    ensures lo / 8 % 64 == length % 64
  {
    var q := 8 * length / (WORD * WORD);
    var k := 0x80_0000 * hi + 0x80_0000_0000_0000 * q;
    assert lo == 8 * (length - 64 * k);
    Mod64(lo / 8, k);
  }

  lemma Mod64(x: int, k: int)
    ensures (x + 64 * k) % 64 == x % 64
  {
  }

  lemma SmallAppend(m: seq<Byte>, data: seq<Byte>)
    requires |m| % BLOCK + |data| < BLOCK
    ensures |m + data| % BLOCK == |m| % BLOCK + |data|
    ensures Whole(m + data) == Whole(m) && Tail(m + data) == Tail(m) + data
  {
    assert |m + data| == BLOCK * (|m| / BLOCK) + (|m| % BLOCK + |data|);
    assert m + data == Whole(m) + (Tail(m) + data);
  }

  lemma FillBlock(m: seq<Byte>, head: seq<Byte>)
    requires |m| % BLOCK + |head| == BLOCK
    ensures |m + head| % BLOCK == 0
    ensures |Whole(m)| % BLOCK == 0 && m + head == Whole(m) + (Tail(m) + head)
  {
    assert |m + head| == BLOCK * (|m| / BLOCK + 1);
    assert |Whole(m)| == BLOCK * (|m| / BLOCK);
  }

  lemma NoTail(m: seq<Byte>)
    requires |m| % BLOCK == 0
    ensures Whole(m) == m && Tail(m) == []
  {
  }

  class State {
    const f: Compression
    var count0: Word
    var count1: Word
    var abcd: Digest
    const buf: array<Byte>

    /** What the state knows after the bytes of m have been appended. */
    ghost predicate Holds(m: seq<Byte>)
      reads this, buf
    {
      && buf.Length == BLOCK
      && count0 + WORD * count1 == BitCount(m)
      && abcd == Fold(f, INIT, Whole(m))
      && buf[..|m| % BLOCK] == Tail(m)
    }

    constructor (f: Compression)
      ensures this.f == f && fresh(buf) && Holds([])
    {
      this.f := f;
      count0, count1 := 0, 0;
      abcd := INIT;
      buf := new Byte[BLOCK](_ => 0);
    }

    method Process(block: seq<Byte>)
      requires |block| == BLOCK
      modifies this`abcd
      ensures abcd == f(old(abcd), block)
    {
      abcd := f(abcd, block);
    }

    /** std::memcpy into the block buffer. */
    method Copy(at: nat, source: seq<Byte>)
      requires at + |source| <= buf.Length
      modifies buf
      ensures buf[..at] == old(buf[..at]) && buf[at..at + |source|] == source
    {
      forall i | 0 <= i < |source| {
        buf[at + i] := source[i];
      }
    }

    /** The loop over the full blocks of the input, straight from the caller's buffer. */
    method ProcessBlocks(data: seq<Byte>, ghost done: seq<Byte>) returns (p: nat)
      requires |done| % BLOCK == 0 && abcd == Fold(f, INIT, done)
      modifies this`abcd
      ensures p <= |data| < p + BLOCK
      ensures |done + data[..p]| % BLOCK == 0 && abcd == Fold(f, INIT, done + data[..p])
    {
      hide Fold, Whole, Tail;
      p := 0;
      var left := |data|;
      assert done + data[..p] == done;
      while left >= 64
        invariant p + left == |data| && 0 <= left
        invariant |done + data[..p]| % BLOCK == 0 && abcd == Fold(f, INIT, done + data[..p])
      {
        ghost var sofar, block := done + data[..p], data[p..p + 64];
        FoldBlock(f, INIT, sofar, block);
        NoTail(sofar);
        FillBlock(sofar, block);
        Process(data[p..p + 64]);
        assert sofar + block == done + data[..p + 64];
        p, left := p + 64, left - 64;
      }
    }

    /** An initial partial block: completed and processed if the input is long enough. */
    method ProcessPartial(data: seq<Byte>, offset: nat, ghost m: seq<Byte>) returns (copy: nat)
      requires buf.Length == BLOCK && offset == |m| % BLOCK && data != []
      requires abcd == Fold(f, INIT, Whole(m)) && buf[..offset] == Tail(m)
      modifies this`abcd, buf
      ensures copy == if offset + |data| > 64 then 64 - offset else |data|
      ensures offset + copy < 64 ==> abcd == old(abcd) && buf[..offset + copy] == Tail(m) + data
      ensures offset + copy == 64 ==>
                |m + data[..copy]| % BLOCK == 0 && abcd == Fold(f, INIT, m + data[..copy])
    {
      hide Fold, Whole, Tail;
      copy := if offset + |data| > 64 then 64 - offset else |data|;
      Copy(offset, data[..copy]);
      assert buf[..offset + copy] == buf[..offset] + buf[offset..offset + copy];
      if offset + copy < 64 {
        assert data[..copy] == data;
        return;
      }
      FillBlock(m, data[..copy]);
      assert buf[..] == buf[..64];
      FoldBlock(f, INIT, Whole(m), buf[..]);
      Process(buf[..]);
    }

    /** However a message arrives in pieces, the state only depends on their concatenation m. */
    method Append(data: seq<Byte>, ghost m: seq<Byte>)
      requires Holds(m)
      modifies this, buf
      ensures Holds(m + data)
    {
      hide Fold, Whole, Tail, AddCount;
      CountGivesOffset(count0, count1, |m|);
      var offset := count0 / 8 % 64;
      if |data| <= 0 {
        assert m + data == m;
        return;
      }
      CountAdds(count0, count1, |m|, |data|);
      var (lo, hi) := AddCount(count0, count1, |data|);
      count0, count1 := lo, hi;
      var rest := data;
      ghost var done := m;
      if offset != 0 {
        var copy := ProcessPartial(data, offset, m);
        if offset + copy < 64 {
          SmallAppend(m, data);
          return;
        }
        rest := data[copy..];
        done := m + data[..copy];
      } else {
        NoTail(m);
      }
      assert done + rest == m + data;
      FinishAppend(rest, done, m + data);
    }

    /** The full blocks of the input, then what is left of it into the buffer. */
    method FinishAppend(rest: seq<Byte>, ghost done: seq<Byte>, ghost all: seq<Byte>)
      requires buf.Length == BLOCK && count0 + WORD * count1 == BitCount(all) && all == done + rest
      requires |done| % BLOCK == 0 && abcd == Fold(f, INIT, done)
      modifies this`abcd, buf
      ensures Holds(all)
    {
      hide Fold, Whole, Tail, BitCount;
      var p := ProcessBlocks(rest, done);
      ghost var blocks := done + rest[..p];
      assert blocks + rest[p..] == all;
      NoTail(blocks);
      SmallAppend(blocks, rest[p..]);
      assert [] + rest[p..] == rest[p..];
      if p < |rest| {
        Copy(0, rest[p..]);
      } else {
        assert buf[..0] == rest[p..];
      }
    }

    /** Pads, appends the length that was counted before the padding, and reads out. */
    method Finish(ghost m: seq<Byte>) returns (digest: seq<Byte>)
      requires Holds(m)
      modifies this, buf
      ensures digest == Hash(f, m)
    {
      hide Fold, AddCount, BytesOf;
      CountGivesOffset(count0, count1, |m|);
      var data := ReadOut([count0, count1]);
      CountWords(count0, count1, BitCount(m));
      var n := (55 - count0 / 8) % 64 + 1;
      SamePad(count0 / 8, |m|);
      var pad := [0x80] + seq(63, _ => 0);
      assert pad[..n] == Padding(|m|);
      Append(pad[..n], m);
      Append(data, m + pad[..n]);
      PaddedIsWhole(m, 1);
      NoTail(Padded(m));
      digest := ReadOut([abcd.a, abcd.b, abcd.c, abcd.d]);
    }
  }

  /** The loops that write words out, four bytes each, low-order byte first. */
  method ReadOut(words: seq<Word>) returns (bytes: seq<Byte>)
    ensures bytes == BytesOf(words)
  {
    hide ByteOf;
    bytes := [];
    var i := 0;
    while i < 4 * |words|
      invariant 0 <= i <= 4 * |words|
      invariant bytes == BytesOf(words)[..i]
    {
      bytes := bytes + [ByteOf(words[i / 4], i % 4)];
      i := i + 1;
    }
  }

  lemma CountWords(lo: Word, hi: Word, n: nat)
    requires n < WORD * WORD && lo + WORD * hi == n
    ensures Words(n) == [lo, hi]
  {
  }

  lemma SamePad(a: int, b: int)
    requires a % 64 == b % 64
    ensures (55 - a) % 64 == (55 - b) % 64
  {
  }

  /** md5_hash_string, and the same for a message that arrives in any number of pieces. */
  method HashPieces(f: Compression, pieces: seq<seq<Byte>>) returns (digest: seq<Byte>)
    ensures digest == Hash(f, Flatten(pieces))
  {
    var state := new State(f);
    var i := 0;
    while i < |pieces|
      invariant 0 <= i <= |pieces| && fresh(state) && fresh(state.buf) && state.f == f
      invariant state.Holds(Flatten(pieces[..i]))
    {
      state.Append(pieces[i], Flatten(pieces[..i]));
      FlattenSnoc(pieces, i);
      i := i + 1;
    }
    assert pieces[..i] == pieces;
    digest := state.Finish(Flatten(pieces));
  }

  // ---- the layout of RFC 1321 ----

  /** Section 3.3: the four words as octets, low-order first. */
  lemma InitialOctets()
    ensures DigestBytes(INIT) == [0x01, 0x23, 0x45, 0x67, 0x89, 0xAB, 0xCD, 0xEF,
                                  0xFE, 0xDC, 0xBA, 0x98, 0x76, 0x54, 0x32, 0x10]
  {
    hide ByteOf, BytesOf;
    WordOf(0x01, 0x23, 0x45, 0x67);
    WordOf(0x89, 0xAB, 0xCD, 0xEF);
    WordOf(0xFE, 0xDC, 0xBA, 0x98);
    WordOf(0x76, 0x54, 0x32, 0x10);
    FourWords(0x67452301, 0xEFCDAB89, 0x98BADCFE, 0x10325476);
  }

  /** A digest is read out word by word, each low-order octet first. */
  lemma FourWords(a: Word, b: Word, c: Word, d: Word)
    ensures BytesOf([a, b, c, d]) ==
            [ByteOf(a, 0), ByteOf(a, 1), ByteOf(a, 2), ByteOf(a, 3),
             ByteOf(b, 0), ByteOf(b, 1), ByteOf(b, 2), ByteOf(b, 3),
             ByteOf(c, 0), ByteOf(c, 1), ByteOf(c, 2), ByteOf(c, 3),
             ByteOf(d, 0), ByteOf(d, 1), ByteOf(d, 2), ByteOf(d, 3)]
  {
    hide ByteOf;
  }

  /** The octets of the word made of four octets, the low-order one first. */
  lemma WordOf(a: Byte, b: Byte, c: Byte, d: Byte)
    ensures var w := a + 0x100 * b + 0x1_0000 * c + 0x100_0000 * d;
            w < WORD && ByteOf(w, 0) == a && ByteOf(w, 1) == b && ByteOf(w, 2) == c && ByteOf(w, 3) == d
  {
    var w := a + 0x100 * b + 0x1_0000 * c + 0x100_0000 * d;
    assert w / 0x100 == b + 0x100 * c + 0x1_0000 * d;
    assert w / 0x1_0000 == c + 0x100 * d;
    assert w / 0x100_0000 == d;
  }

  lemma WordOctets(w: Word)
    ensures ByteOf(w, 0) == w % 256 && ByteOf(w, 1) == w / 256 % 256
    ensures ByteOf(w, 2) == w / 65536 % 256 && ByteOf(w, 3) == w / 16777216
  {
  }

  /** Sections 3.1 and 3.2, octet by octet: the message, 0x80, zeros, and the number of bits with
      its low-order octet first. */
  lemma PaddedOctets(m: seq<Byte>, i: nat)
    requires i < |Padded(m)|
    ensures |Padded(m)| >= |m| + 9
    ensures var n := |Padded(m)|;
            var bits := 8 * |m| % 0x1_0000_0000_0000_0000;
            Padded(m)[i] ==
            if i < |m| then m[i]
            else if i == |m| then 0x80
            else if i < n - 8 then 0
            else BitsOctet(bits, i - (n - 8))
  {
    LengthField(m);
    hide BytesOf;
    var n := |Padded(m)|;
    if i >= n - 8 {
      assert Padded(m)[i] == Padded(m)[n - 8..][i - (n - 8)];
      WordsJoin(BitCount(m));
      CountOctet(Words(BitCount(m))[0], Words(BitCount(m))[1], i - (n - 8));
    }
  }

  /** Octet k of a 64-bit number, the low-order one being octet 0. */
  function BitsOctet(bits: nat, k: nat): nat
    requires k < 8
  {
    if k == 0 then bits % 256 else BitsOctet(bits / 256, k - 1)
  }

  lemma DropOctet(x: nat, y: nat)
    ensures (x + 256 * y) % 256 == x % 256 && (x + 256 * y) / 256 == x / 256 + y
  {
  }

  lemma DropTwice(x: nat)
    ensures x / 256 / 256 == x / 65536 && x / 256 / 256 / 256 == x / 16777216
  {
  }

  /** The octets of the low word, and then those of the high one. */
  lemma LowOctets(lo: Word, hi: Word)
    ensures var bits := lo + WORD * hi;
            && BitsOctet(bits, 0) == ByteOf(lo, 0) && BitsOctet(bits, 1) == ByteOf(lo, 1)
            && BitsOctet(bits, 2) == ByteOf(lo, 2) && BitsOctet(bits, 3) == ByteOf(lo, 3)
            && bits / 256 / 256 / 256 / 256 == hi
  {
    var x0 := lo + 256 * (16777216 * hi);
    var x1 := lo / 256 + 256 * (65536 * hi);
    var x2 := lo / 65536 + 256 * (256 * hi);
    var x3 := lo / 16777216 + 256 * hi;
    DropTwice(lo);
    DropOctet(lo, 16777216 * hi);
    DropOctet(lo / 256, 65536 * hi);
    DropOctet(lo / 65536, 256 * hi);
    DropOctet(lo / 16777216, hi);
    assert x0 / 256 == x1 && x1 / 256 == x2 && x2 / 256 == x3;
    WordOctets(lo);
    hide ByteOf;
    assert BitsOctet(x0, 1) == BitsOctet(x1, 0);
    assert BitsOctet(x0, 2) == BitsOctet(x1, 1) == BitsOctet(x2, 0);
    assert BitsOctet(x0, 3) == BitsOctet(x1, 2) == BitsOctet(x2, 1) == BitsOctet(x3, 0);
  }

  lemma HighOctets(hi: Word)
    ensures BitsOctet(hi, 0) == ByteOf(hi, 0) && BitsOctet(hi, 1) == ByteOf(hi, 1)
    ensures BitsOctet(hi, 2) == ByteOf(hi, 2) && BitsOctet(hi, 3) == ByteOf(hi, 3)
  {
    LowOctets(hi, 0);
  }

  lemma LaterOctet(bits: nat, k: nat)
    requires 4 <= k < 8
    ensures BitsOctet(bits, k) == BitsOctet(bits / 256 / 256 / 256 / 256, k - 4)
  {
    var b := bits / 256;
    assert BitsOctet(bits, k) == BitsOctet(b, k - 1) == BitsOctet(b / 256, k - 2);
    assert BitsOctet(b / 256, k - 2) == BitsOctet(b / 256 / 256, k - 3);
  }

  lemma OctetOf(words: seq<Word>, k: nat)
    requires k < 4 * |words|
    ensures BytesOf(words)[k] == ByteOf(words[k / 4], k % 4)
  {
    hide ByteOf;
  }

  lemma CountOctet(lo: Word, hi: Word, k: nat)
    requires k < 8
    ensures BytesOf([lo, hi])[k] == BitsOctet(lo + WORD * hi, k)
  {
    OctetOf([lo, hi], k);
    LowOctets(lo, hi);
    HighOctets(hi);
    if k >= 4 { LaterOctet(lo + WORD * hi, k); }
    hide ByteOf, BitsOctet, BytesOf;
  }

  lemma WordsJoin(n: nat)
    requires n < WORD * WORD
    ensures Words(n) == [Words(n)[0], Words(n)[1]] && Words(n)[0] + WORD * Words(n)[1] == n
  {
  }

  /** Blocks are compressed one after another from the first on, the state starting from the
      four initial words. */
  lemma FoldIsIterated(f: Compression, d: Digest, first: seq<Byte>, rest: seq<Byte>)
    requires |first| == 64
    ensures Fold(f, d, []) == d
    ensures Fold(f, d, first + rest) == Fold(f, f(d, first), rest)
  {
    assert (first + rest)[..64] == first && (first + rest)[64..] == rest;
  }
}
