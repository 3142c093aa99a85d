/** The digest of a whole message, as sections 3.1 to 3.5 of RFC 1321 describe it, and what its padding
    and its length field give: padding loses nothing, and a collision of digests is a collision of the
    compression function. */
module Md5Message {
  import opened Words
  import opened Md5Compress
  import opened Md5Transform

  /** Lengths that agree modulo this have the same 64-bit count of bits. */
  const LENGTH_PERIOD: nat := 0x2000_0000_0000_0000

  /** Section 3.3. */
  const INITIAL := Quad(0x67452301, 0xefcdab89, 0x98badcfe, 0x10325476)

  function BlockAt(m: seq<byte>, i: nat): Block
    requires 64 * i + 64 <= |m|
  {
    DecodeWords(m[64 * i..64 * i + 64])
  }

  /** Section 3.4: the buffer after the first n blocks of m. */
  function Chain(m: seq<byte>, n: nat): Quad
    requires 64 * n <= |m|
  {
    if n == 0 then INITIAL else Compress(Chain(m, n - 1), BlockAt(m, n - 1))
  }

  /** Bit k of the bytes, the most significant of each byte first. */
  predicate BitAt(bs: seq<byte>, k: nat)
    requires k < 8 * |bs|
  {
    Bit(bs[k / 8], 7 - k % 8)
  }

  /** Section 3.1: as few zero bytes as bring the length to 56 modulo 64. */
  function ZeroCount(n: nat): (z: nat)
    ensures z < 64 && (n + 1 + z) % 64 == 56
  {
    (55 - n) % 64
  }

  /** Section 3.2: the low 64 bits of the number of bits, low-order word first. */
  function LengthField(n: nat): (s: seq<byte>)
    ensures |s| == 8
  {
    EncodeWords([8 * n % WRAP, 8 * n / WRAP % WRAP])
  }

  function Padding(n: nat): seq<byte> {
    [0x80] + Zeros(ZeroCount(n))
  }

  function Pad(m: seq<byte>): (p: seq<byte>)
    ensures |p| % 64 == 0 && |m| + 9 <= |p| <= |m| + 72
  {
    PadTotal(|m|);
    m + Padding(|m|) + LengthField(|m|)
  }

  /** Section 3.1: the padding is a one bit and then zero bits. */
  lemma PaddingBits(n: nat, k: nat)
    requires k < 8 * |Padding(n)|
    ensures BitAt(Padding(n), k) <==> k == 0
  {
    TopBit(7 - k % 8);
  }

  lemma TopBit(j: nat)
    requires j < 8
    ensures Bit(0x80, j) <==> j == 7
    ensures !Bit(0, j)
  {
    assert Pow2(3) == 8;
    assert Pow2(7) == 0x80;
  }

  lemma PadTotal(n: nat)
    ensures (n + (1 + ZeroCount(n)) + 8) % 64 == 0
  {
    var t := n + 1 + ZeroCount(n);
    DivModUnique(t + 8, 64, t / 64 + 1, 0);
  }

  /** Section 3.5. */
  function EncodeQuad(q: Quad): (s: seq<byte>)
    ensures |s| == 16
  {
    EncodeWords([q.a, q.b, q.c, q.d])
  }

  function Digest(m: seq<byte>): (s: seq<byte>)
    ensures |s| == 16
  {
    EncodeQuad(Chain(Pad(m), |Pad(m)| / 64))
  }

  predicate CountsUpAndDown(e: seq<byte>) {
    && |e| == 16
    && (forall k :: 0 <= k < 8 ==> e[k] == 0x22 * k + 1)
    && (forall k :: 0 <= k < 8 ==> e[8 + k] == 0xff - e[k])
  }

  /** The bytes of the initial buffer count up in hexadecimal, 01 23 45 67 89 ab cd ef, and down again. */
  lemma InitialBytes()
    ensures CountsUpAndDown(EncodeQuad(INITIAL))
  {
    var e := EncodeQuad(INITIAL);
    assert e[0] == 0x01 && e[1] == 0x23 && e[2] == 0x45 && e[3] == 0x67;
    assert e[4] == 0x89 && e[5] == 0xab && e[6] == 0xcd && e[7] == 0xef;
    assert e[8] == 0xfe && e[9] == 0xdc && e[10] == 0xba && e[11] == 0x98;
    assert e[12] == 0x76 && e[13] == 0x54 && e[14] == 0x32 && e[15] == 0x10;
  }

  lemma {:induction false} ChainOfPrefix(m: seq<byte>, m': seq<byte>, n: nat)
    requires 64 * n <= |m| && m <= m'
    ensures Chain(m', n) == Chain(m, n)
  {
    hide Compress, DecodeWords;
    if n > 0 {
      ChainOfPrefix(m, m', n - 1);
      assert m'[64 * (n - 1)..64 * (n - 1) + 64] == m[64 * (n - 1)..64 * (n - 1) + 64];
    }
  }

  // ---- the length field ----

  lemma LengthFieldDecodes(n: nat)
    ensures DecodeWords(LengthField(n)) == [8 * n % WRAP, 8 * n / WRAP % WRAP]
  {
    DecodeUndoesEncode([8 * n % WRAP, 8 * n / WRAP % WRAP]);
  }

  lemma BitCountFromWords(n: nat)
    ensures n % LENGTH_PERIOD == (8 * n / WRAP % WRAP * WRAP + 8 * n % WRAP) / 8
  {
    var t := 8 * n;
    assert t / WRAP == t / (WRAP * WRAP) * WRAP + t / WRAP % WRAP;
  }

  /** The length field determines the length modulo 2^61, and no more. */
  lemma LengthFieldDetermines(n: nat, n': nat)
    ensures LengthField(n) == LengthField(n') <==> n % LENGTH_PERIOD == n' % LENGTH_PERIOD
  {
    LengthFieldDecodes(n);
    LengthFieldDecodes(n');
    BitCountFromWords(n);
    BitCountFromWords(n');
    if n % LENGTH_PERIOD == n' % LENGTH_PERIOD {
      BitCountOfRemainder(n);
      BitCountOfRemainder(n');
    }
  }

  lemma BitCountOfRemainder(n: nat)
    ensures 8 * n % WRAP == 8 * (n % LENGTH_PERIOD) % WRAP
    ensures 8 * n / WRAP % WRAP == 8 * (n % LENGTH_PERIOD) / WRAP % WRAP
  {
    var k := n / LENGTH_PERIOD;
    var r := 8 * (n % LENGTH_PERIOD);
    assert 8 * n == (k * WRAP) * WRAP + r;
    DropMultiple(k * WRAP, WRAP, r);
    assert 8 * n / WRAP == k * WRAP + r / WRAP;
    DropMultiple(k, WRAP, r / WRAP);
  }

  lemma PadEndsInLength(m: seq<byte>)
    ensures Pad(m)[|Pad(m)| - 8..] == LengthField(|m|)
  {
  }

  // ---- padding is injective ----

  lemma SameLengthFromPad(n: nat, n': nat)
    requires n % LENGTH_PERIOD == n' % LENGTH_PERIOD && n - 64 < n' < n + 64
    ensures n == n'
  {
  }

  /** Different messages, of any lengths, have different padded forms. */
  lemma PadIsInjective(m: seq<byte>, m': seq<byte>)
    requires Pad(m) == Pad(m')
    ensures m == m'
  {
    PadEndsInLength(m);
    PadEndsInLength(m');
    LengthFieldDetermines(|m|, |m'|);
    SameLengthFromPad(|m|, |m'|);
    assert m == Pad(m)[..|m|];
    assert m' == Pad(m')[..|m'|];
  }

  /** One padded message can end another only when their lengths agree modulo 2^61, so below 2^61
      bytes no padded message is a proper suffix of another. */
  lemma PadIsSuffixFree(m: seq<byte>, m': seq<byte>, k: nat)
    requires k <= |Pad(m')| && Pad(m) == Pad(m')[k..]
    ensures |m| % LENGTH_PERIOD == |m'| % LENGTH_PERIOD
    ensures |m| < LENGTH_PERIOD && |m'| < LENGTH_PERIOD ==> k == 0 && m == m'
  {
    hide LengthField;
    PadEndsInLength(m);
    PadEndsInLength(m');
    assert Pad(m)[|Pad(m)| - 8..] == Pad(m')[|Pad(m')| - 8..];
    LengthFieldDetermines(|m|, |m'|);
    if |m| < LENGTH_PERIOD && |m'| < LENGTH_PERIOD {
      assert |m| == |m'|;
      assert Pad(m')[0..] == Pad(m');
      PadIsInjective(m, m');
    }
  }

  // ---- from a collision of digests to a collision of the compression function ----

  /** Two different inputs of the compression function, met while hashing p and p', with one output. */
  ghost predicate CollideAt(p: seq<byte>, i: nat, p': seq<byte>, j: nat)
    requires 64 * i + 64 <= |p| && 64 * j + 64 <= |p'|
  {
    && (Chain(p, i), BlockAt(p, i)) != (Chain(p', j), BlockAt(p', j))
    && Compress(Chain(p, i), BlockAt(p, i)) == Compress(Chain(p', j), BlockAt(p', j))
  }

  ghost predicate ChainsCollide(p: seq<byte>, p': seq<byte>) {
    exists i: nat, j: nat :: 64 * i + 64 <= |p| && 64 * j + 64 <= |p'| && CollideAt(p, i, p', j)
  }

  lemma EncodeQuadIsInjective(q: Quad, q': Quad)
    requires EncodeQuad(q) == EncodeQuad(q')
    ensures q == q'
  {
    hide EncodeWords, DecodeWords;
    DecodeUndoesEncode([q.a, q.b, q.c, q.d]);
    DecodeUndoesEncode([q'.a, q'.b, q'.c, q'.d]);
    assert [q.a, q.b, q.c, q.d] == [q'.a, q'.b, q'.c, q'.d];
    assert [q.a, q.b, q.c, q.d][0] == q.a && [q.a, q.b, q.c, q.d][1] == q.b;
    assert [q.a, q.b, q.c, q.d][2] == q.c && [q.a, q.b, q.c, q.d][3] == q.d;
  }

  lemma DecodeIsInjective(bs: seq<byte>, bs': seq<byte>)
    requires |bs| == |bs'| && |bs| % 4 == 0 && DecodeWords(bs) == DecodeWords(bs')
    ensures bs == bs'
  {
    forall k | 0 <= k < |bs|
      ensures bs[k] == bs'[k]
    {
      var i := k / 4;
      assert DecodeWords(bs)[i] == DecodeWords(bs')[i];
      BytesOfWord(bs[4 * i], bs[4 * i + 1], bs[4 * i + 2], bs[4 * i + 3]);
      BytesOfWord(bs'[4 * i], bs'[4 * i + 1], bs'[4 * i + 2], bs'[4 * i + 3]);
      assert k == 4 * i || k == 4 * i + 1 || k == 4 * i + 2 || k == 4 * i + 3;
    }
  }

  lemma BytesOfWord(b0: byte, b1: byte, b2: byte, b3: byte)
    ensures ByteOf(WordOf(b0, b1, b2, b3), 0) == b0
    ensures ByteOf(WordOf(b0, b1, b2, b3), 1) == b1
    ensures ByteOf(WordOf(b0, b1, b2, b3), 2) == b2
    ensures ByteOf(WordOf(b0, b1, b2, b3), 3) == b3
  {
    var w: int := WordOf(b0, b1, b2, b3);
    var u: int := b1 + 0x100 * b2 + 0x1_0000 * b3;
    DivModUnique(w, 0x100, u, b0);
    DivModUnique(u, 0x100, b2 + 0x100 * b3, b1);
    DivModUnique(w, 0x1_0000, b2 + 0x100 * b3, b0 + 0x100 * b1);
    DivModUnique(b2 + 0x100 * b3, 0x100, b3, b2);
    DivModUnique(w, 0x100_0000, b3, b0 + 0x100 * b1 + 0x1_0000 * b2);
  }

  /** Walks both chains back from their common end. Unless two different inputs collide on the way, the
      last k blocks agree and the chains already agree k blocks before the end. */
  lemma {:induction false} WalkBack(p: seq<byte>, n: nat, p': seq<byte>, n': nat, k: nat)
    requires |p| == 64 * n && |p'| == 64 * n' && k <= n && k <= n'
    requires Chain(p, n) == Chain(p', n')
    ensures ChainsCollide(p, p')
         || (Chain(p, n - k) == Chain(p', n' - k) && p[64 * (n - k)..] == p'[64 * (n' - k)..])
  {
    hide Compress, DecodeWords;
    if k > 0 {
      WalkBack(p, n, p', n', k - 1);
      var i, j := n - k, n' - k;
      if !ChainsCollide(p, p') {
        assert !CollideAt(p, i, p', j);
        DecodeIsInjective(p[64 * i..64 * i + 64], p'[64 * j..64 * j + 64]);
        assert p[64 * i..] == p[64 * i..64 * i + 64] + p[64 * (i + 1)..];
        assert p'[64 * j..] == p'[64 * j..64 * j + 64] + p'[64 * (j + 1)..];
      }
    }
  }

  /** When the shorter of two colliding padded messages is used up without a collision of the
      compression function, it ends the longer one, whose chain has come back to the initial buffer. */
  lemma ShorterEndsLonger(m: seq<byte>, m': seq<byte>)
    requires m != m' && Digest(m) == Digest(m') && |Pad(m)| <= |Pad(m')|
    requires !ChainsCollide(Pad(m), Pad(m'))
    ensures |m| % LENGTH_PERIOD == |m'| % LENGTH_PERIOD && |m| < |m'|
    ensures Chain(Pad(m'), (|Pad(m')| - |Pad(m)|) / 64) == INITIAL
  {
    hide Compress, DecodeWords, EncodeQuad, CollideAt, ChainsCollide;
    var p, p' := Pad(m), Pad(m');
    var n, n' := |p| / 64, |p'| / 64;
    EncodeQuadIsInjective(Chain(p, n), Chain(p', n'));
    WalkBack(p, n, p', n', n);
    assert p[0..] == p;
    PadIsSuffixFree(m, m', 64 * (n' - n));
    if |p| == |p'| {
      assert p'[0..] == p';
      PadIsInjective(m, m');
    }
    assert (|p'| - |p|) / 64 == n' - n;
  }

  lemma CollisionIsSymmetric(p: seq<byte>, p': seq<byte>)
    requires ChainsCollide(p, p')
    ensures ChainsCollide(p', p)
  {
    hide Compress, DecodeWords, Chain;
    var i: nat, j: nat :| 64 * i + 64 <= |p| && 64 * j + 64 <= |p'| && CollideAt(p, i, p', j);
    assert CollideAt(p', j, p, i);
  }

  /** Two different messages with one digest, both shorter than 2^61 bytes, exhibit among the inputs met
      while hashing them two different inputs that the compression function maps to one buffer. */
  lemma DigestCollisionReduces(m: seq<byte>, m': seq<byte>)
    requires m != m' && Digest(m) == Digest(m')
    requires |m| < LENGTH_PERIOD && |m'| < LENGTH_PERIOD
    ensures ChainsCollide(Pad(m), Pad(m'))
  {
    hide Pad, Digest, Chain, ChainsCollide;
    if !ChainsCollide(Pad(m), Pad(m')) {
      if |Pad(m)| <= |Pad(m')| {
        ShorterEndsLonger(m, m');
      } else {
        if ChainsCollide(Pad(m'), Pad(m)) {
          CollisionIsSymmetric(Pad(m'), Pad(m));
        }
        ShorterEndsLonger(m', m);
      }
    }
  }
}
