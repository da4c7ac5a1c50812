/** Base 64 as encoded and decoded by the library (section 4 of RFC 4648). */
module Base64 {
  import opened Messages

  type Bytes = seq<Byte>

  const PAD: Byte := 61

  /** base64_chars: A to Z, a to z, 0 to 9, plus and slash. */
  const CHARS: Bytes := Span(65, 26) + Span(97, 26) + Span(48, 10) + [43, 47]

  function Span(first: Byte, n: nat): (s: Bytes)
    requires first + n <= 256
    ensures |s| == n && forall k | 0 <= k < n :: s[k] == first + k
  {
    seq(n, k requires 0 <= k < n => first + k)
  }

  predicate IsBase64(c: Byte) {
    c == 43 || (c >= 47 && c <= 57) || (c >= 65 && c <= 90) || (c >= 97 && c <= 122)
  }

  /** base64_chars.find(c) from a position on, cast to an octet: npos becomes 255. */
  function Find(c: Byte, from: nat): (k: Byte)
    requires from <= 64
    decreases 64 - from
  {
    if from == 64 then 255 else if CHARS[from] == c then from else Find(c, from + 1)
  }

  /** The alphabet in closed form. */
  function CharAt(k: nat): Byte
    requires k < 64
  {
    if k < 26 then k + 65 else if k < 52 then k + 71 else if k < 62 then k - 4 else if k == 62 then 43 else 47
  }

  lemma AlphabetSize()
    ensures |CHARS| == 64
  {
  }

  lemma Alphabet(k: nat)
    requires k < 64
    ensures CHARS[k] == CharAt(k)
  {
  }

  lemma {:induction false} FindFrom(k: nat, from: nat)
    requires from <= k < 64
    ensures Find(CharAt(k), from) == k
    decreases k - from
  {
    Alphabet(from);
    if from < k { FindFrom(k, from + 1); }
  }

  lemma FindChar(k: nat)
    requires k < 64
    ensures Find(CHARS[k], 0) == k && IsBase64(CHARS[k]) && CHARS[k] != PAD
  {
    Alphabet(k);
    FindFrom(k, 0);
  }

  function ValueAt(c: Byte): nat
    requires IsBase64(c)
  {
    if c == 43 then 62 else if c == 47 then 63 else if c < 58 then c + 4 else if c < 91 then c - 65 else c - 71
  }

  /** is_base64 accepts exactly the alphabet. */
  lemma CharFound(c: Byte)
    requires IsBase64(c)
    ensures Find(c, 0) < 64 && CHARS[Find(c, 0)] == c
  {
    FindChar(ValueAt(c));
    Alphabet(ValueAt(c));
  }

  // ---- three octets and four sextets ----

  type Bits = bv8

  function SplitBits(x: Bits, y: Bits, z: Bits): (Bits, Bits, Bits, Bits) {
    ((x & 0xfc) >> 2, ((x & 0x03) << 4) + ((y & 0xf0) >> 4), ((y & 0x0f) << 2) + ((z & 0xc0) >> 6), z & 0x3f)
  }

  function JoinBits(p: Bits, q: Bits, r: Bits, s: Bits): (Bits, Bits, Bits) {
    ((p << 2) + ((q & 0x30) >> 4), ((q & 0x0f) << 4) + ((r & 0x3c) >> 2), ((r & 0x03) << 6) + s)
  }

  lemma JoinSplitBits(x: Bits, y: Bits, z: Bits)
    ensures var q := SplitBits(x, y, z);
            q.0 < 64 && q.1 < 64 && q.2 < 64 && q.3 < 64 && JoinBits(q.0, q.1, q.2, q.3) == (x, y, z)
  {
  }

  lemma SplitJoinBits(p: Bits, q: Bits, r: Bits, s: Bits)
    requires p < 64 && q < 64 && r < 64 && s < 64
    ensures var t := JoinBits(p, q, r, s); SplitBits(t.0, t.1, t.2) == (p, q, r, s)
  {
  }

  lemma BitsAsNumber(x: Bits)
    ensures (x as nat) as Bits == x && (x < 64 <==> x as nat < 64)
  {
  }

  lemma NumberAsBits(n: Byte)
    ensures (n as Bits) as nat == n && (n < 64 <==> n as Bits < 64)
  {
  }

  lemma BitsAndNumbers(x: Bits, n: Byte)
    ensures (x as nat) as Bits == x && (x < 64 <==> x as nat < 64)
    ensures (n as Bits) as nat == n && (n < 64 <==> n as Bits < 64)
  {
    BitsAsNumber(x);
    NumberAsBits(n);
  }

  type Four = (Byte, Byte, Byte, Byte)
  type Three = (Byte, Byte, Byte)

  function Split(a: Byte, b: Byte, c: Byte): Four {
    var q := SplitBits(a as Bits, b as Bits, c as Bits);
    (q.0 as nat, q.1 as nat, q.2 as nat, q.3 as nat)
  }

  function Join(p: Byte, q: Byte, r: Byte, s: Byte): Three {
    var t := JoinBits(p as Bits, q as Bits, r as Bits, s as Bits);
    (t.0 as nat, t.1 as nat, t.2 as nat)
  }

  lemma JoinSplit(a: Byte, b: Byte, c: Byte)
    ensures var q := Split(a, b, c);
            q.0 < 64 && q.1 < 64 && q.2 < 64 && q.3 < 64 && Join(q.0, q.1, q.2, q.3) == (a, b, c)
  {
    hide SplitBits, JoinBits;
    var q := SplitBits(a as Bits, b as Bits, c as Bits);
    JoinSplitBits(a as Bits, b as Bits, c as Bits);
    BitsAndNumbers(q.0, a);
    BitsAndNumbers(q.1, b);
    BitsAndNumbers(q.2, c);
    BitsAndNumbers(q.3, c);
  }

  lemma SplitJoin(p: Byte, q: Byte, r: Byte, s: Byte)
    requires p < 64 && q < 64 && r < 64 && s < 64
    ensures var t := Join(p, q, r, s); Split(t.0, t.1, t.2) == (p, q, r, s)
  {
    hide SplitBits, JoinBits;
    var t := JoinBits(p as Bits, q as Bits, r as Bits, s as Bits);
    BitsAndNumbers(t.0, p);
    BitsAndNumbers(t.1, q);
    BitsAndNumbers(t.2, r);
    BitsAndNumbers(t.2, s);
    SplitJoinBits(p as Bits, q as Bits, r as Bits, s as Bits);
  }

  /** The first octets of a group do not depend on the last characters. */
  lemma JoinPrefix(p: Byte, q: Byte, r: Byte, s: Byte, r': Byte, s': Byte)
    ensures Join(p, q, r, s).0 == Join(p, q, r', s').0
    ensures Join(p, q, r, s).1 == Join(p, q, r, s').1
  {
  }

  function Bits24(p: bv24, q: bv24, r: bv24, s: bv24): bv24 {
    (p << 18) | (q << 12) | (r << 6) | s
  }

  /** The four sextets hold the 24 bits of the three octets, high ones first. */
  lemma GroupBits(x: Bits, y: Bits, z: Bits)
    ensures var q := SplitBits(x, y, z);
            Bits24(q.0 as bv24, q.1 as bv24, q.2 as bv24, q.3 as bv24) == ((x as bv24) << 16) | ((y as bv24) << 8) | (z as bv24)
  {
  }

  /** Table 1 of RFC 4648: the letters, the digits, plus and slash; padded with equals signs. */
  lemma AlphabetText(k: nat)
    requires k < 64
    ensures CHARS[k] ==
            if k < 26 then 'A' as nat + k
            else if k < 52 then 'a' as nat + (k - 26)
            else if k < 62 then '0' as nat + (k - 52)
            else if k == 62 then '+' as nat
            else '/' as nat
    ensures PAD == '=' as nat
  {
    Alphabet(k);
  }

  // ---- whole strings ----

  /** The characters of a group of one to three octets, missing octets being zero. */
  function Quad(t: Bytes): (q: Bytes)
    requires 1 <= |t| <= 3
    ensures |q| == 4
  {
    var q := Split(t[0], if |t| > 1 then t[1] else 0, if |t| > 2 then t[2] else 0);
    JoinSplit(t[0], if |t| > 1 then t[1] else 0, if |t| > 2 then t[2] else 0);
    [CHARS[q.0], CHARS[q.1], if |t| > 1 then CHARS[q.2] else PAD, if |t| > 2 then CHARS[q.3] else PAD]
  }

  function Encoded(x: Bytes): Bytes {
    if x == [] then [] else if |x| <= 3 then Quad(x) else Quad(x[..3]) + Encoded(x[3..])
  }

  /** A character the decoding loop goes on past. */
  predicate Digit(c: Byte) { c != PAD && IsBase64(c) }

  /** How many of the first n characters are digits, without a gap. */
  function Lead(s: Bytes, n: nat): (k: nat)
    ensures k <= |s| && k <= n
  {
    if n == 0 || s == [] || !Digit(s[0]) then 0 else 1 + Lead(s[1..], n - 1)
  }

  /** The octets of a group of one to four digits, missing digits being character zero. */
  function Triple(t: Bytes): (o: Bytes)
    requires 1 <= |t| <= 4
    ensures |o| == |t| - 1
  {
    var o := Join(Find(t[0], 0), Find(if |t| > 1 then t[1] else 0, 0),
                  Find(if |t| > 2 then t[2] else 0, 0), Find(if |t| > 3 then t[3] else 0, 0));
    [o.0, o.1, o.2][..|t| - 1]
  }

  function Decoded(s: Bytes): Bytes
    decreases |s|
  {
    var n := Lead(s, 4);
    if n == 0 then [] else if n < 4 then Triple(s[..n]) else Triple(s[..4]) + Decoded(s[4..])
  }

  lemma {:induction false} EncodedLength(x: Bytes)
    ensures |Encoded(x)| == (|x| + 2) / 3 * 4
  {
    hide Quad;
    if |x| > 3 {
      EncodedLength(x[3..]);
      assert (|x| + 2) / 3 == (|x[3..]| + 2) / 3 + 1;
    }
  }

  // ---- decoding inverts encoding ----

  /** The first characters of an encoded group are digits of its sextets; padding follows. */
  lemma QuadDigits(t: Bytes)
    requires 1 <= |t| <= 3
    ensures var q, c := Split(t[0], if |t| > 1 then t[1] else 0, if |t| > 2 then t[2] else 0), Quad(t);
            && Digit(c[0]) && Find(c[0], 0) == q.0 && Digit(c[1]) && Find(c[1], 0) == q.1
            && (if |t| > 1 then Digit(c[2]) && Find(c[2], 0) == q.2 else c[2] == PAD)
            && (if |t| > 2 then Digit(c[3]) && Find(c[3], 0) == q.3 else c[3] == PAD)
  {
    hide Split, Find, IsBase64;
    var q := Split(t[0], if |t| > 1 then t[1] else 0, if |t| > 2 then t[2] else 0);
    JoinSplit(t[0], if |t| > 1 then t[1] else 0, if |t| > 2 then t[2] else 0);
    FindChar(q.0);
    FindChar(q.1);
    FindChar(q.2);
    FindChar(q.3);
  }

  lemma TripleOfQuad(t: Bytes)
    requires 1 <= |t| <= 3
    ensures Triple(Quad(t)[..|t| + 1]) == t
  {
    hide Split, Join, Find, IsBase64, Quad;
    var b, c := if |t| > 1 then t[1] else 0, if |t| > 2 then t[2] else 0;
    var q, s := Split(t[0], b, c), Quad(t);
    QuadDigits(t);
    JoinSplit(t[0], b, c);
    JoinPrefix(q.0, q.1, q.2, q.3, if |t| > 1 then q.2 else Find(0, 0), if |t| > 2 then q.3 else Find(0, 0));
    JoinPrefix(q.0, q.1, q.2, q.3, q.2, if |t| > 2 then q.3 else Find(0, 0));
  }

  lemma LeadOfQuad(t: Bytes, rest: Bytes)
    requires 1 <= |t| <= 3
    ensures Lead(Quad(t) + rest, 4) == |t| + 1
  {
    hide Split, Find, IsBase64, Quad;
    var s := Quad(t) + rest;
    QuadDigits(t);
    LeadIs(s, 4, |t| + 1);
  }

  lemma {:induction false} LeadIs(s: Bytes, n: nat, k: nat)
    requires k <= n && k <= |s| && forall i | 0 <= i < k :: Digit(s[i])
    requires k == n || k == |s| || !Digit(s[k])
    ensures Lead(s, n) == k
    decreases n
  {
    if k > 0 { LeadIs(s[1..], n - 1, k - 1); }
  }

  /** An encoded group decodes to its octets, and only a full one is gone past. */
  lemma DecodeGroup(t: Bytes, more: Bytes)
    requires 1 <= |t| <= 3
    ensures Decoded(Quad(t) + more) == if |t| < 3 then t else t + Decoded(more)
  {
    hide Quad, Triple, Lead;
    var s := Quad(t) + more;
    LeadOfQuad(t, more);
    TripleOfQuad(t);
    assert s[..|t| + 1] == Quad(t)[..|t| + 1] && s[4..] == more;
  }

  lemma {:induction false} DecodeEncode(x: Bytes)
    ensures Decoded(Encoded(x)) == x
  {
    hide Encoded, Decoded;
    StopsAfter(x, []);
    assert Encoded(x) + [] == Encoded(x);
  }

  /** The alphabet, as one would write it. */
  predicate InAlphabet(c: char) {
    'A' <= c <= 'Z' || 'a' <= c <= 'z' || '0' <= c <= '9' || c in {'+', '/'}
  }

  /** Decoding stops at padding, and at the first character outside the alphabet: whatever
      comes after an encoding and cannot continue it does not matter. */
  lemma {:induction false} StopsAfter(x: Bytes, rest: Bytes)
    requires |x| % 3 != 0 || rest == [] || !InAlphabet(rest[0] as char)
    ensures Decoded(Encoded(x) + rest) == x
    decreases |x|
  {
    hide *;
    if |x| <= 3 {
      OneGroup(x, rest);
    } else {
      Cut(x, 3);
      GroupsOf(x);
      Regroup(Encoded(x), Quad(x[..3]), Encoded(x[3..]), rest);
      DecodeGroup(x[..3], Encoded(x[3..]) + rest);
      Less3(|x|);
      StopsAfter(x[3..], rest);
    }
  }

  lemma Less3(n: nat)
    requires n >= 3
    ensures (n - 3) % 3 == n % 3
  {
  }

  lemma OneGroup(x: Bytes, rest: Bytes)
    requires |x| <= 3
    requires |x| % 3 != 0 || rest == [] || !InAlphabet(rest[0] as char)
    ensures Decoded(Encoded(x) + rest) == x
  {
    hide Quad, Decoded, InAlphabet;
    if x == [] {
      assert Encoded(x) + rest == rest;
    } else {
      DecodeGroup(x, rest);
    }
    if |x| % 3 == 0 { NothingDecoded(rest); }
  }

  lemma GroupsOf(x: Bytes)
    requires |x| > 3
    ensures Encoded(x) == Quad(x[..3]) + Encoded(x[3..])
  {
    hide Quad;
  }

  lemma Regroup(whole: Bytes, a: Bytes, b: Bytes, c: Bytes)
    requires whole == a + b
    ensures whole + c == a + (b + c)
  {
  }

  lemma Cut(x: Bytes, n: nat)
    requires n <= |x|
    ensures x[..n] + x[n..] == x
  {
  }

  lemma NothingDecoded(rest: Bytes)
    requires rest == [] || !InAlphabet(rest[0] as char)
    ensures Decoded(rest) == []
  {
    if rest != [] { NoDigit(rest[0]); }
    hide Digit, InAlphabet, Triple;
    LeadIs(rest, 4, 0);
  }

  lemma NoDigit(c: Byte)
    requires !InAlphabet(c as char)
    ensures !Digit(c)
  {
  }

  // ---- encoding inverts decoding, on canonical text and on nothing else ----

  predicate ZeroBits(c: Byte, mask: Bits) { (Find(c, 0) as Bits) & mask == 0 }

  /** A group of four characters of which the padding, if any, leaves no bits behind. */
  predicate CanonicalGroup(g: Bytes)
    requires |g| == 4
  {
    && Digit(g[0]) && Digit(g[1])
    && if g[3] != PAD then Digit(g[2]) && Digit(g[3])
       else if g[2] != PAD then Digit(g[2]) && ZeroBits(g[2], 0x03)
       else ZeroBits(g[1], 0x0f)
  }

  predicate Digits(s: Bytes) { forall i | 0 <= i < |s| :: Digit(s[i]) }

  /** Section 3.5 of RFC 4648: whole groups, padding in the last one only, zero pad bits. */
  predicate Canonical(s: Bytes)
    decreases |s|
  {
    || s == []
    || (|s| == 4 && CanonicalGroup(s))
    || (|s| > 4 && Digits(s[..4]) && Canonical(s[4..]))
  }

  lemma BitsAreZero(p: Bits, q: Bits, r: Bits)
    ensures q & 0x0f == 0 ==> JoinBits(p, q, 0, 0).1 == 0 && JoinBits(p, q, 0, 0).2 == 0
    ensures r & 0x03 == 0 ==> JoinBits(p, q, r, 0).2 == 0
    ensures SplitBits(p, 0, 0).1 & 0x0f == 0 && SplitBits(p, q, 0).2 & 0x03 == 0
  {
  }

  lemma PadBits(p: Byte, q: Byte, r: Byte)
    ensures (q as Bits) & 0x0f == 0 ==> Join(p, q, 0, 0).1 == 0 && Join(p, q, 0, 0).2 == 0
    ensures (r as Bits) & 0x03 == 0 ==> Join(p, q, r, 0).2 == 0
  {
    hide JoinBits;
    BitsAreZero(p as Bits, q as Bits, r as Bits);
  }

  lemma SplitPads(a: Byte, b: Byte)
    ensures (Split(a, 0, 0).1 as Bits) & 0x0f == 0
    ensures (Split(a, b, 0).2 as Bits) & 0x03 == 0
  {
    hide SplitBits;
    BitsAreZero(a as Bits, b as Bits, 0);
    BitsAsNumber(SplitBits(a as Bits, 0, 0).1);
    BitsAsNumber(SplitBits(a as Bits, b as Bits, 0).2);
  }

  lemma QuadIsCanonical(t: Bytes)
    requires 1 <= |t| <= 3
    ensures CanonicalGroup(Quad(t)) && (|t| == 3 ==> Digits(Quad(t)))
  {
    hide Split, Find, IsBase64, Quad;
    QuadDigits(t);
    SplitPads(t[0], if |t| > 1 then t[1] else 0);
  }

  lemma {:induction false} EncodedIsCanonical(x: Bytes)
    ensures Canonical(Encoded(x))
    decreases |x|
  {
    hide Quad, CanonicalGroup, Digits;
    if x != [] {
      if |x| <= 3 {
        QuadIsCanonical(x);
      } else {
        QuadIsCanonical(x[..3]);
        EncodedIsCanonical(x[3..]);
        EncodedLength(x[3..]);
        assert Encoded(x)[..4] == Quad(x[..3]) && Encoded(x)[4..] == Encoded(x[3..]);
      }
    }
  }

  /** What a canonical group decodes to encodes to the group. */
  lemma QuadOfTriple(g: Bytes)
    requires |g| == 4 && CanonicalGroup(g)
    ensures var n := if g[2] == PAD then 2 else if g[3] == PAD then 3 else 4;
            Quad(Triple(g[..n])) == g
  {
    hide Split, Join, Find, IsBase64;
    var n := if g[2] == PAD then 2 else if g[3] == PAD then 3 else 4;
    CharFound(g[0]);
    CharFound(g[1]);
    var p, q := Find(g[0], 0), Find(g[1], 0);
    if n == 2 {
      PadBits(p, q, 0);
      SplitJoin(p, q, 0, 0);
      JoinPrefix(p, q, 0, 0, Find(0, 0), Find(0, 0));
    } else {
      CharFound(g[2]);
      var r := Find(g[2], 0);
      if n == 3 {
        PadBits(p, q, r);
        SplitJoin(p, q, r, 0);
        JoinPrefix(p, q, r, 0, r, Find(0, 0));
      } else {
        CharFound(g[3]);
        SplitJoin(p, q, r, Find(g[3], 0));
      }
    }
  }

  lemma {:induction false} EncodeDecodeCanonical(s: Bytes)
    requires Canonical(s)
    ensures Encoded(Decoded(s)) == s
    decreases |s|
  {
    hide Quad, Triple, Lead, IsBase64;
    if s != [] {
      if |s| == 4 {
        var n := if s[2] == PAD then 2 else if s[3] == PAD then 3 else 4;
        LeadIs(s, 4, n);
        QuadOfTriple(s);
        assert n == 4 ==> s[..4] == s && s[4..] == [];
        NothingDecoded([]);
        assert Triple(s[..n]) + [] == Triple(s[..n]);
      } else {
        var g := s[..4];
        assert Digit(g[2]) && Digit(g[3]);
        LeadIs(s, 4, 4);
        QuadOfTriple(g);
        assert g[..4] == g;
        EncodeDecodeCanonical(s[4..]);
        var o, more := Triple(g), Decoded(s[4..]);
        MoreDecoded(s[4..]);
        assert (o + more)[..3] == o && (o + more)[3..] == more;
        assert s == g + s[4..];
      }
    }
  }

  /** Canonical text that is not empty decodes to something. */
  lemma MoreDecoded(s: Bytes)
    requires Canonical(s) && s != []
    ensures Decoded(s) != []
  {
    hide Triple, IsBase64;
    assert |s| > 4 ==> Digit(s[..4][0]) && Digit(s[..4][1]);
    assert s[1..][0] == s[1];
    assert Lead(s, 4) == 1 + Lead(s[1..], 3);
    assert Lead(s[1..], 3) > 0;
  }

  /** Encoding inverts decoding exactly on the canonical texts. */
  lemma EncodeDecode(s: Bytes)
    ensures Encoded(Decoded(s)) == s <==> Canonical(s)
  {
    EncodedIsCanonical(Decoded(s));
    if Canonical(s) { EncodeDecodeCanonical(s); }
  }

  // ---- the loops ----

  lemma EncodedStep(x: Bytes)
    requires |x| >= 3
    ensures Encoded(x) == Quad(x[..3]) + Encoded(x[3..])
  {
    hide Quad;
    if |x| == 3 {
      assert x[..3] == x && Quad(x) + [] == Quad(x);
    }
  }

  /** char_array_3 to char_array_4. */
  method FillSextets(three: array<Byte>, four: array<Byte>)
    requires three.Length == 3 && four.Length == 4 && three != four
    modifies four
    ensures (four[0], four[1], four[2], four[3]) == Split(three[0], three[1], three[2])
    ensures forall k | 0 <= k < 4 :: four[k] < 64
  {
    hide Split;
    JoinSplit(three[0], three[1], three[2]);
    var q := Split(three[0], three[1], three[2]);
    four[0], four[1], four[2], four[3] := q.0, q.1, q.2, q.3;
  }

  lemma QuadOf(t: Bytes, three: Bytes)
    requires 1 <= |t| <= 3 && |three| == 3 && three[..|t|] == t && forall k | |t| <= k < 3 :: three[k] == 0
    ensures var q := Split(three[0], three[1], three[2]);
            forall k | 0 <= k < 4 :: Quad(t)[k] ==
              if k > |t| then PAD else CHARS[[q.0, q.1, q.2, q.3][k] % 64]
  {
    hide Split;
    JoinSplit(three[0], three[1], three[2]);
    assert forall k | 0 <= k < |t| :: three[k] == t[k];
  }

  /** Fills char_array_4 from the n octets t in char_array_3 and appends its first characters. */
  method AppendGroup(ret: Bytes, n: nat, three: array<Byte>, four: array<Byte>, ghost t: Bytes) returns (longer: Bytes)
    requires 1 <= n <= 3 && three.Length == 3 && four.Length == 4 && three != four
    requires |t| == n && forall k | 0 <= k < 3 :: three[k] == if k < n then t[k] else 0
    modifies four
    ensures longer == ret + Quad(t)[..n + 1]
  {
    AlphabetSize();
    hide *;
    FillSextets(three, four);
    QuadOf(t, three[..]);
    longer := ret;
    var j := 0;
    while j < n + 1
      invariant 0 <= j <= n + 1 && longer == ret + Quad(t)[..j]
    {
      longer := longer + [CHARS[four[j]]];
      j := j + 1;
    }
  }

  lemma EncodedTail(t: Bytes)
    requires |t| < 3
    ensures Encoded(t) == if t == [] then [] else Quad(t)
  {
  }

  lemma QuadPads(t: Bytes)
    requires 1 <= |t| <= 3
    ensures forall k | |t| < k < 4 :: Quad(t)[k] == PAD
  {
  }

  lemma NothingYet(input: Bytes, output: Bytes)
    ensures input[0..] == input && [] + output == output
  {
  }

  /** Output so far, and what a whole group at a position adds to it. */
  lemma GroupEncoded(ret: Bytes, input: Bytes, from: nat, to: nat)
    requires to == from + 3 <= |input|
    ensures ret + Encoded(input[from..]) == ret + Quad(input[from..to]) + Encoded(input[to..])
  {
    hide Quad, Encoded;
    var x := input[from..];
    var t := input[from..to];
    assert x[..3] == t && x[3..] == input[to..];
    EncodedStep(x);
    assert ret + (Quad(t) + Encoded(input[to..])) == ret + Quad(t) + Encoded(input[to..]);
  }

  /** What an incomplete group at the end adds. */
  lemma RestEncoded(ret: Bytes, input: Bytes, from: nat, to: nat)
    requires from <= to == |input| < from + 3
    ensures ret + Encoded(input[from..]) == if from == to then ret else ret + Quad(input[from..to])
  {
    hide Quad, Encoded;
    assert input[from..] == input[from..to];
    EncodedTail(input[from..]);
  }

  /** Fills the group up with zeros, encodes it and adds the padding. */
  method AppendLast(ret: Bytes, n: nat, three: array<Byte>, four: array<Byte>, ghost t: Bytes) returns (longer: Bytes)
    requires 1 <= n < 3 && three.Length == 3 && four.Length == 4 && three != four
    requires |t| == n && forall k | 0 <= k < n :: three[k] == t[k]
    modifies three, four
    ensures longer == ret + Quad(t)
  {
    QuadPads(t);
    hide *;
    var j := n;
    while j < 3
      invariant n <= j <= 3 && forall m | 0 <= m < j :: three[m] == if m < n then t[m] else 0
    {
      three[j] := 0;
      j := j + 1;
    }
    longer := AppendGroup(ret, n, three, four, t);
    var i := n;
    while i < 3
      invariant n <= i <= 3 && longer == ret + Quad(t)[..i + 1]
    {
      i := i + 1;
      longer := longer + [PAD];
    }
  }

  method Encode(input: Bytes) returns (ret: Bytes)
    ensures ret == Encoded(input)
  {
    hide *;
    ret := [];
    var i, k := 0, 0;
    var three, four := new Byte[3], new Byte[4];
    ghost var from := 0;
    NothingYet(input, Encoded(input));
    while k < |input|
      invariant 0 <= i < 3 && from + i == k <= |input|
      invariant forall m | 0 <= m < i :: three[m] == input[from + m]
      invariant ret + Encoded(input[from..]) == Encoded(input)
    {
      three[i] := input[k];
      i, k := i + 1, k + 1;
      if i == 3 {
        GroupEncoded(ret, input, from, k);
        ret := AppendGroup(ret, 3, three, four, input[from..k]);
        i, from := 0, k;
      }
    }
    RestEncoded(ret, input, from, k);
    if i != 0 {
      ret := AppendLast(ret, i, three, four, input[from..k]);
    }
  }

  /** Looks the n characters t in char_array_4 up and appends the octets they carry. */
  method AppendOctets(ret: Bytes, n: nat, four: array<Byte>, three: array<Byte>, ghost t: Bytes)
    returns (longer: Bytes)
    requires 1 <= n <= 4 && three.Length == 3 && four.Length == 4 && three != four
    requires |t| == n && forall k | 0 <= k < 4 :: four[k] == if k < n then t[k] else 0
    modifies four, three
    ensures longer == ret + Triple(t)
  {
    hide Find, Join;
    ghost var g := four[..];
    var j := 0;
    while j < 4
      invariant 0 <= j <= 4
      invariant forall k | 0 <= k < 4 :: four[k] == if k < j then Find(g[k], 0) else g[k]
    {
      four[j] := Find(four[j], 0);
      j := j + 1;
    }
    var o := Join(four[0], four[1], four[2], four[3]);
    three[0], three[1], three[2] := o.0, o.1, o.2;
    assert Triple(t) == [o.0, o.1, o.2][..n - 1];
    hide Triple;
    j := 0;
    longer := ret;
    while j < n - 1
      invariant 0 <= j <= n - 1 && longer == ret + Triple(t)[..j]
      invariant three[0] == o.0 && three[1] == o.1 && three[2] == o.2
    {
      assert Triple(t)[j] == three[j];
      longer := longer + [three[j]];
      j := j + 1;
    }
  }

  /** Output so far, and what a group of four digits at a position adds to it. */
  lemma GroupDecoded(ret: Bytes, input: Bytes, from: nat, to: nat)
    requires to == from + 4 <= |input| && forall m | from <= m < to :: Digit(input[m])
    ensures ret + Decoded(input[from..]) == ret + Triple(input[from..to]) + Decoded(input[to..])
  {
    hide Digit, Triple, Decoded;
    var s := input[from..];
    var t := input[from..to];
    assert s[..4] == t && s[4..] == input[to..];
    DecodedStep(s, 4);
    assert ret + (Triple(t) + Decoded(input[to..])) == ret + Triple(t) + Decoded(input[to..]);
  }

  /** What fewer digits add, if no more follow. */
  lemma RestDecoded(ret: Bytes, input: Bytes, from: nat, to: nat)
    requires from <= to <= |input| && to < from + 4 && forall m | from <= m < to :: Digit(input[m])
    requires to == |input| || !Digit(input[to])
    ensures ret + Decoded(input[from..]) == if from == to then ret else ret + Triple(input[from..to])
  {
    hide Digit, Triple, Decoded;
    var s := input[from..];
    assert s[..to - from] == input[from..to];
    DecodedStep(s, to - from);
  }

  /** Fills the group up with character zero and decodes it. */
  method AppendRest(ret: Bytes, n: nat, four: array<Byte>, three: array<Byte>, ghost t: Bytes)
    returns (longer: Bytes)
    requires 1 <= n < 4 && three.Length == 3 && four.Length == 4 && three != four
    requires |t| == n && forall k | 0 <= k < n :: four[k] == t[k]
    modifies four, three
    ensures longer == ret + Triple(t)
  {
    hide Triple;
    var j := n;
    while j < 4
      invariant n <= j <= 4 && forall m | 0 <= m < j :: four[m] == if m < n then t[m] else 0
    {
      four[j] := 0;
      j := j + 1;
    }
    longer := AppendOctets(ret, n, four, three, t);
  }

  method Decode(input: Bytes) returns (ret: Bytes)
    ensures ret == Decoded(input)
  {
    hide *;
    ret := [];
    var i, k := 0, 0;
    var four, three := new Byte[4], new Byte[3];
    ghost var from := 0;
    NothingYet(input, Decoded(input));
    while k < |input| && Digit(input[k])
      invariant 0 <= i < 4 && from + i == k <= |input|
      invariant forall m | 0 <= m < i :: four[m] == input[from + m]
      invariant forall m | from <= m < k :: Digit(input[m])
      invariant ret + Decoded(input[from..]) == Decoded(input)
    {
      four[i] := input[k];
      i, k := i + 1, k + 1;
      if i == 4 {
        GroupDecoded(ret, input, from, k);
        ret := AppendOctets(ret, 4, four, three, input[from..k]);
        i, from := 0, k;
      }
    }
    RestDecoded(ret, input, from, k);
    if i != 0 {
      ret := AppendRest(ret, i, four, three, input[from..k]);
    }
  }


  lemma DecodedStep(s: Bytes, n: nat)
    requires n <= 4 && n <= |s| && Digits(s[..n]) && (n == 4 || n == |s| || !Digit(s[n]))
    ensures Decoded(s) == if n == 0 then [] else if n < 4 then Triple(s[..n]) else Triple(s[..4]) + Decoded(s[4..])
  {
    hide Digit, Triple;
    assert forall k | 0 <= k < n :: s[k] == s[..n][k];
    LeadIs(s, 4, n);
  }

  /** Section 10 of RFC 4648: three of its vectors, one for each size of the last group. */
  lemma TestVectors()
    ensures Encoded(Ascii("f")) == Ascii("Zg==")
    ensures Encoded(Ascii("fo")) == Ascii("Zm8=")
    ensures Encoded(Ascii("foo")) == Ascii("Zm9v")
  {
    VectorSextets();
    hide Split;
    AlphabetText(25);
    AlphabetText(32);
    AlphabetText(38);
    AlphabetText(60);
    AlphabetText(61);
    AlphabetText(47);
  }

  lemma VectorSextets()
    ensures Split(102, 0, 0) == (25, 32, 0, 0)
    ensures Split(102, 111, 0) == (25, 38, 60, 0)
    ensures Split(102, 111, 111) == (25, 38, 61, 47)
  {
  }
}
