/** our_md5.c: the byte order conversions and the unrolled transformation. */
module Md5Transform {
  import opened Words
  import opened Md5Compress

  // ---- bytes and words, least significant byte first ----

  function ByteOf(w: word, r: nat): byte
    requires r < 4
  {
    if r == 0 then w % 0x100
    else if r == 1 then w / 0x100 % 0x100
    else if r == 2 then w / 0x1_0000 % 0x100
    else w / 0x100_0000
  }

  function WordOf(b0: byte, b1: byte, b2: byte, b3: byte): word {
    b0 + 0x100 * b1 + 0x1_0000 * b2 + 0x100_0000 * b3
  }

  function EncodeWords(ws: seq<word>): (bs: seq<byte>)
    ensures |bs| == 4 * |ws|
  {
    seq(4 * |ws|, k requires 0 <= k < 4 * |ws| => ByteOf(ws[k / 4], k % 4))
  }

  function DecodeWords(bs: seq<byte>): (ws: seq<word>)
    requires |bs| % 4 == 0
    ensures 4 * |ws| == |bs|
  {
    seq(|bs| / 4, i requires 0 <= i < |bs| / 4 => WordOf(bs[4 * i], bs[4 * i + 1], bs[4 * i + 2], bs[4 * i + 3]))
  }

  lemma WordOfItsBytes(w: word)
    ensures WordOf(ByteOf(w, 0), ByteOf(w, 1), ByteOf(w, 2), ByteOf(w, 3)) == w
  {
    assert w / 0x1_0000 == w / 0x100 / 0x100;
    assert w / 0x100_0000 == w / 0x1_0000 / 0x100;
  }

  lemma EncodedAt(ws: seq<word>, i: nat, r: nat)
    requires i < |ws| && r < 4
    ensures EncodeWords(ws)[4 * i + r] == ByteOf(ws[i], r)
  {
    assert (4 * i + r) / 4 == i && (4 * i + r) % 4 == r;
  }

  lemma DecodeUndoesEncode(ws: seq<word>)
    ensures DecodeWords(EncodeWords(ws)) == ws
  {
    hide EncodeWords, ByteOf, WordOf;
    forall i | 0 <= i < |ws|
      ensures DecodeWords(EncodeWords(ws))[i] == ws[i]
    {
      EncodedAt(ws, i, 0);
      EncodedAt(ws, i, 1);
      EncodedAt(ws, i, 2);
      EncodedAt(ws, i, 3);
      WordOfItsBytes(ws[i]);
    }
  }

  /** The masks and shifts of Encode select the bytes. */
  lemma SelectedByte(w: word)
    ensures And(w, 0xff) == ByteOf(w, 0)
    ensures And(Shr(w, 8), 0xff) == ByteOf(w, 1)
    ensures And(Shr(w, 16), 0xff) == ByteOf(w, 2)
    ensures And(Shr(w, 24), 0xff) == ByteOf(w, 3)
  {
    hide Bitwise, Pow2;
    PowersOfTwo();
    MaskIsMod(w, 8);
    MaskIsMod(w / 0x100, 8);
    MaskIsMod(w / 0x1_0000, 8);
    MaskIsMod(w / 0x100_0000, 8);
  }

  lemma ShiftedByteFits(b: byte, k: nat)
    requires k <= 24
    ensures b * Pow2(k) < WRAP
  {
    hide Pow2;
    PowersOfTwo();
    Pow2Grows(k, 24);
    ProductBelow(b, 0x100, Pow2(k));
  }

  lemma OrAbove(low: word, b: byte, k: nat)
    requires low < Pow2(k) && k <= 24
    ensures Or(low, Shl(b, k)) == low + b * Pow2(k)
  {
    hide Pow2, Bitwise;
    ShiftedByteFits(b, k);
    DisjointOr(b, low, k);
    BitwiseCommutes(OrOp, low, b * Pow2(k));
  }

  /** The shifted bytes of Decode do not overlap. */
  lemma JoinedBytes(b0: byte, b1: byte, b2: byte, b3: byte)
    ensures Or(Or(Or(b0, Shl(b1, 8)), Shl(b2, 16)), Shl(b3, 24)) == WordOf(b0, b1, b2, b3)
  {
    PowersOfTwo();
    OrAbove(b0, b1, 8);
    OrAbove(b0 + 0x100 * b1, b2, 16);
    OrAbove(b0 + 0x100 * b1 + 0x1_0000 * b2, b3, 24);
  }

  lemma NextWord(ws: seq<word>, i: nat)
    requires i < |ws|
    ensures EncodeWords(ws)[..4 * i + 4]
         == EncodeWords(ws)[..4 * i] + [ByteOf(ws[i], 0), ByteOf(ws[i], 1), ByteOf(ws[i], 2), ByteOf(ws[i], 3)]
  {
    hide ByteOf, EncodeWords;
    EncodedAt(ws, i, 0);
    EncodedAt(ws, i, 1);
    EncodedAt(ws, i, 2);
    EncodedAt(ws, i, 3);
  }

  method Encode(output: array<byte>, input: array<word>, len: nat)
    requires len % 4 == 0 && len <= output.Length && len / 4 <= input.Length
    modifies output
    ensures output[..len] == EncodeWords(input[..len / 4])
    ensures output[len..] == old(output[len..])
  {
    hide And, Shr, ByteOf, EncodeWords;
    var i, j := 0, 0;
    ghost var words := input[..len / 4];
    while j < len
      invariant j == 4 * i <= len
      invariant input[..len / 4] == words
      invariant output[..j] == EncodeWords(words)[..j]
      invariant output[len..] == old(output[len..])
    {
      SelectedByte(words[i]);
      NextWord(words, i);
      output[j] := And(input[i], 0xff);
      output[j + 1] := And(Shr(input[i], 8), 0xff);
      output[j + 2] := And(Shr(input[i], 16), 0xff);
      output[j + 3] := And(Shr(input[i], 24), 0xff);
      i, j := i + 1, j + 4;
    }
  }

  /** The input is a pointer into an array: position off. */
  method Decode(output: array<word>, input: array<byte>, off: nat, len: nat)
    requires len % 4 == 0 && len / 4 <= output.Length && off + len <= input.Length
    modifies output
    ensures output[..len / 4] == DecodeWords(input[off..off + len])
    ensures output[len / 4..] == old(output[len / 4..])
  {
    hide Bitwise, Pow2;
    var i, j := 0, 0;
    while j < len
      invariant j == 4 * i <= len
      invariant output[..i] == DecodeWords(input[off..off + len])[..i]
      invariant output[len / 4..] == old(output[len / 4..])
    {
      JoinedBytes(input[off + j], input[off + j + 1], input[off + j + 2], input[off + j + 3]);
      output[i] := Or(Or(Or(input[off + j], Shl(input[off + j + 1], 8)), Shl(input[off + j + 2], 16)),
                      Shl(input[off + j + 3], 24));
      i, j := i + 1, j + 4;
    }
  }

  // ---- the unrolled rounds ----

  const S11 := 7
  const S12 := 12
  const S13 := 17
  const S14 := 22
  const S21 := 5
  const S22 := 9
  const S23 := 14
  const S24 := 20
  const S31 := 4
  const S32 := 11
  const S33 := 16
  const S34 := 23
  const S41 := 6
  const S42 := 10
  const S43 := 15
  const S44 := 21

  lemma SumOfFour(a: word, mixed: word, x: word, ac: word)
    ensures Add(a, Add(Add(mixed, x), ac)) == (a + mixed + x + ac) % WRAP
  {
    AddOfSum(mixed + x, ac, a);
  }

  lemma AddOfSum(s: nat, y: word, a: word)
    ensures (a + (s % WRAP + y) % WRAP) % WRAP == (a + s + y) % WRAP
  {
    var q, r := s / WRAP, s % WRAP;
    var t := (r + y) / WRAP;
    assert a + s + y == (q + t) * WRAP + (a + (r + y) % WRAP);
    DropMultiple(q + t, WRAP, a + (r + y) % WRAP);
  }

  method FF(a: word, b: word, c: word, d: word, x: word, s: nat, ac: word) returns (r: word)
    requires 0 < s < 32
    ensures r == Turn(a, b, F(b, c, d), x, s, ac)
  {
    SumOfFour(a, F(b, c, d), x, ac);
    r := Add(a, Add(Add(F(b, c, d), x), ac));
    r := RotateLeft(r, s);
    r := Add(r, b);
  }

  method GG(a: word, b: word, c: word, d: word, x: word, s: nat, ac: word) returns (r: word)
    requires 0 < s < 32
    ensures r == Turn(a, b, G(b, c, d), x, s, ac)
  {
    SumOfFour(a, G(b, c, d), x, ac);
    r := Add(a, Add(Add(G(b, c, d), x), ac));
    r := RotateLeft(r, s);
    r := Add(r, b);
  }

  method HH(a: word, b: word, c: word, d: word, x: word, s: nat, ac: word) returns (r: word)
    requires 0 < s < 32
    ensures r == Turn(a, b, H(b, c, d), x, s, ac)
  {
    SumOfFour(a, H(b, c, d), x, ac);
    r := Add(a, Add(Add(H(b, c, d), x), ac));
    r := RotateLeft(r, s);
    r := Add(r, b);
  }

  method II(a: word, b: word, c: word, d: word, x: word, s: nat, ac: word) returns (r: word)
    requires 0 < s < 32
    ensures r == Turn(a, b, I(b, c, d), x, s, ac)
  {
    SumOfFour(a, I(b, c, d), x, ac);
    r := Add(a, Add(Add(I(b, c, d), x), ac));
    r := RotateLeft(r, s);
    r := Add(r, b);
  }

  method Round1(a0: word, b0: word, c0: word, d0: word, x: array<word>) returns (a: word, b: word, c: word, d: word)
    requires x.Length == 16
    ensures Quad(a, b, c, d) == Steps(0, 16, Quad(a0, b0, c0, d0), x[..])
  {
    a, b, c, d := a0, b0, c0, d0;
    hide Turn, F, G, H, I;
    ghost var q, w := Quad(a, b, c, d), x[..];
    a := FF(a, b, c, d, x[0], S11, 0xd76aa478);
    assert Quad(d, a, b, c) == Steps(0, 1, q, w);
    d := FF(d, a, b, c, x[1], S12, 0xe8c7b756);
    assert Quad(c, d, a, b) == Steps(0, 2, q, w);
    c := FF(c, d, a, b, x[2], S13, 0x242070db);
    assert Quad(b, c, d, a) == Steps(0, 3, q, w);
    b := FF(b, c, d, a, x[3], S14, 0xc1bdceee);
    assert Quad(a, b, c, d) == Steps(0, 4, q, w);
    a := FF(a, b, c, d, x[4], S11, 0xf57c0faf);
    assert Quad(d, a, b, c) == Steps(0, 5, q, w);
    d := FF(d, a, b, c, x[5], S12, 0x4787c62a);
    assert Quad(c, d, a, b) == Steps(0, 6, q, w);
    c := FF(c, d, a, b, x[6], S13, 0xa8304613);
    assert Quad(b, c, d, a) == Steps(0, 7, q, w);
    b := FF(b, c, d, a, x[7], S14, 0xfd469501);
    assert Quad(a, b, c, d) == Steps(0, 8, q, w);
    a := FF(a, b, c, d, x[8], S11, 0x698098d8);
    assert Quad(d, a, b, c) == Steps(0, 9, q, w);
    d := FF(d, a, b, c, x[9], S12, 0x8b44f7af);
    assert Quad(c, d, a, b) == Steps(0, 10, q, w);
    c := FF(c, d, a, b, x[10], S13, 0xffff5bb1);
    assert Quad(b, c, d, a) == Steps(0, 11, q, w);
    b := FF(b, c, d, a, x[11], S14, 0x895cd7be);
    assert Quad(a, b, c, d) == Steps(0, 12, q, w);
    a := FF(a, b, c, d, x[12], S11, 0x6b901122);
    assert Quad(d, a, b, c) == Steps(0, 13, q, w);
    d := FF(d, a, b, c, x[13], S12, 0xfd987193);
    assert Quad(c, d, a, b) == Steps(0, 14, q, w);
    c := FF(c, d, a, b, x[14], S13, 0xa679438e);
    assert Quad(b, c, d, a) == Steps(0, 15, q, w);
    b := FF(b, c, d, a, x[15], S14, 0x49b40821);
    assert Quad(a, b, c, d) == Steps(0, 16, q, w);
  }

  method Round2(a0: word, b0: word, c0: word, d0: word, x: array<word>) returns (a: word, b: word, c: word, d: word)
    requires x.Length == 16
    ensures Quad(a, b, c, d) == Steps(16, 16, Quad(a0, b0, c0, d0), x[..])
  {
    a, b, c, d := a0, b0, c0, d0;
    hide Turn, F, G, H, I;
    ghost var q, w := Quad(a, b, c, d), x[..];
    a := GG(a, b, c, d, x[1], S21, 0xf61e2562);
    assert Quad(d, a, b, c) == Steps(16, 1, q, w);
    d := GG(d, a, b, c, x[6], S22, 0xc040b340);
    assert Quad(c, d, a, b) == Steps(16, 2, q, w);
    c := GG(c, d, a, b, x[11], S23, 0x265e5a51);
    assert Quad(b, c, d, a) == Steps(16, 3, q, w);
    b := GG(b, c, d, a, x[0], S24, 0xe9b6c7aa);
    assert Quad(a, b, c, d) == Steps(16, 4, q, w);
    a := GG(a, b, c, d, x[5], S21, 0xd62f105d);
    assert Quad(d, a, b, c) == Steps(16, 5, q, w);
    d := GG(d, a, b, c, x[10], S22, 0x2441453);
    assert Quad(c, d, a, b) == Steps(16, 6, q, w);
    c := GG(c, d, a, b, x[15], S23, 0xd8a1e681);
    assert Quad(b, c, d, a) == Steps(16, 7, q, w);
    b := GG(b, c, d, a, x[4], S24, 0xe7d3fbc8);
    assert Quad(a, b, c, d) == Steps(16, 8, q, w);
    a := GG(a, b, c, d, x[9], S21, 0x21e1cde6);
    assert Quad(d, a, b, c) == Steps(16, 9, q, w);
    d := GG(d, a, b, c, x[14], S22, 0xc33707d6);
    assert Quad(c, d, a, b) == Steps(16, 10, q, w);
    c := GG(c, d, a, b, x[3], S23, 0xf4d50d87);
    assert Quad(b, c, d, a) == Steps(16, 11, q, w);
    b := GG(b, c, d, a, x[8], S24, 0x455a14ed);
    assert Quad(a, b, c, d) == Steps(16, 12, q, w);
    a := GG(a, b, c, d, x[13], S21, 0xa9e3e905);
    assert Quad(d, a, b, c) == Steps(16, 13, q, w);
    d := GG(d, a, b, c, x[2], S22, 0xfcefa3f8);
    assert Quad(c, d, a, b) == Steps(16, 14, q, w);
    c := GG(c, d, a, b, x[7], S23, 0x676f02d9);
    assert Quad(b, c, d, a) == Steps(16, 15, q, w);
    b := GG(b, c, d, a, x[12], S24, 0x8d2a4c8a);
    assert Quad(a, b, c, d) == Steps(16, 16, q, w);
  }

  method Round3(a0: word, b0: word, c0: word, d0: word, x: array<word>) returns (a: word, b: word, c: word, d: word)
    requires x.Length == 16
    ensures Quad(a, b, c, d) == Steps(32, 16, Quad(a0, b0, c0, d0), x[..])
  {
    a, b, c, d := a0, b0, c0, d0;
    hide Turn, F, G, H, I;
    ghost var q, w := Quad(a, b, c, d), x[..];
    a := HH(a, b, c, d, x[5], S31, 0xfffa3942);
    assert Quad(d, a, b, c) == Steps(32, 1, q, w);
    d := HH(d, a, b, c, x[8], S32, 0x8771f681);
    assert Quad(c, d, a, b) == Steps(32, 2, q, w);
    c := HH(c, d, a, b, x[11], S33, 0x6d9d6122);
    assert Quad(b, c, d, a) == Steps(32, 3, q, w);
    b := HH(b, c, d, a, x[14], S34, 0xfde5380c);
    assert Quad(a, b, c, d) == Steps(32, 4, q, w);
    a := HH(a, b, c, d, x[1], S31, 0xa4beea44);
    assert Quad(d, a, b, c) == Steps(32, 5, q, w);
    d := HH(d, a, b, c, x[4], S32, 0x4bdecfa9);
    assert Quad(c, d, a, b) == Steps(32, 6, q, w);
    c := HH(c, d, a, b, x[7], S33, 0xf6bb4b60);
    assert Quad(b, c, d, a) == Steps(32, 7, q, w);
    b := HH(b, c, d, a, x[10], S34, 0xbebfbc70);
    assert Quad(a, b, c, d) == Steps(32, 8, q, w);
    a := HH(a, b, c, d, x[13], S31, 0x289b7ec6);
    assert Quad(d, a, b, c) == Steps(32, 9, q, w);
    d := HH(d, a, b, c, x[0], S32, 0xeaa127fa);
    assert Quad(c, d, a, b) == Steps(32, 10, q, w);
    c := HH(c, d, a, b, x[3], S33, 0xd4ef3085);
    assert Quad(b, c, d, a) == Steps(32, 11, q, w);
    b := HH(b, c, d, a, x[6], S34, 0x4881d05);
    assert Quad(a, b, c, d) == Steps(32, 12, q, w);
    a := HH(a, b, c, d, x[9], S31, 0xd9d4d039);
    assert Quad(d, a, b, c) == Steps(32, 13, q, w);
    d := HH(d, a, b, c, x[12], S32, 0xe6db99e5);
    assert Quad(c, d, a, b) == Steps(32, 14, q, w);
    c := HH(c, d, a, b, x[15], S33, 0x1fa27cf8);
    assert Quad(b, c, d, a) == Steps(32, 15, q, w);
    b := HH(b, c, d, a, x[2], S34, 0xc4ac5665);
    assert Quad(a, b, c, d) == Steps(32, 16, q, w);
  }

  method Round4(a0: word, b0: word, c0: word, d0: word, x: array<word>) returns (a: word, b: word, c: word, d: word)
    requires x.Length == 16
    ensures Quad(a, b, c, d) == Steps(48, 16, Quad(a0, b0, c0, d0), x[..])
  {
    a, b, c, d := a0, b0, c0, d0;
    hide Turn, F, G, H, I;
    ghost var q, w := Quad(a, b, c, d), x[..];
    a := II(a, b, c, d, x[0], S41, 0xf4292244);
    assert Quad(d, a, b, c) == Steps(48, 1, q, w);
    d := II(d, a, b, c, x[7], S42, 0x432aff97);
    assert Quad(c, d, a, b) == Steps(48, 2, q, w);
    c := II(c, d, a, b, x[14], S43, 0xab9423a7);
    assert Quad(b, c, d, a) == Steps(48, 3, q, w);
    b := II(b, c, d, a, x[5], S44, 0xfc93a039);
    assert Quad(a, b, c, d) == Steps(48, 4, q, w);
    a := II(a, b, c, d, x[12], S41, 0x655b59c3);
    assert Quad(d, a, b, c) == Steps(48, 5, q, w);
    d := II(d, a, b, c, x[3], S42, 0x8f0ccc92);
    assert Quad(c, d, a, b) == Steps(48, 6, q, w);
    c := II(c, d, a, b, x[10], S43, 0xffeff47d);
    assert Quad(b, c, d, a) == Steps(48, 7, q, w);
    b := II(b, c, d, a, x[1], S44, 0x85845dd1);
    assert Quad(a, b, c, d) == Steps(48, 8, q, w);
    a := II(a, b, c, d, x[8], S41, 0x6fa87e4f);
    assert Quad(d, a, b, c) == Steps(48, 9, q, w);
    d := II(d, a, b, c, x[15], S42, 0xfe2ce6e0);
    assert Quad(c, d, a, b) == Steps(48, 10, q, w);
    c := II(c, d, a, b, x[6], S43, 0xa3014314);
    assert Quad(b, c, d, a) == Steps(48, 11, q, w);
    b := II(b, c, d, a, x[13], S44, 0x4e0811a1);
    assert Quad(a, b, c, d) == Steps(48, 12, q, w);
    a := II(a, b, c, d, x[4], S41, 0xf7537e82);
    assert Quad(d, a, b, c) == Steps(48, 13, q, w);
    d := II(d, a, b, c, x[11], S42, 0xbd3af235);
    assert Quad(c, d, a, b) == Steps(48, 14, q, w);
    c := II(c, d, a, b, x[2], S43, 0x2ad7d2bb);
    assert Quad(b, c, d, a) == Steps(48, 15, q, w);
    b := II(b, c, d, a, x[9], S44, 0xeb86d391);
    assert Quad(a, b, c, d) == Steps(48, 16, q, w);
  }

  /** The block is a pointer into an array: position off. */
  method MD5Transform(state: array<word>, block: array<byte>, off: nat)
    requires state.Length == 4 && off + 64 <= block.Length
    modifies state
    ensures QuadOf(state[..]) == Compress(old(QuadOf(state[..])), DecodeWords(block[off..off + 64]))
  {
    hide Steps, DecodeWords;
    var a, b, c, d := state[0], state[1], state[2], state[3];
    var x := new word[16];
    Decode(x, block, off, 64);
    ghost var q, w := Quad(a, b, c, d), DecodeWords(block[off..off + 64]);
    assert x[..] == w;
    a, b, c, d := Round1(a, b, c, d, x);
    a, b, c, d := Round2(a, b, c, d, x);
    a, b, c, d := Round3(a, b, c, d, x);
    a, b, c, d := Round4(a, b, c, d, x);
    StepsCompose(0, 16, 16, q, w);
    StepsCompose(0, 32, 16, q, w);
    StepsCompose(0, 48, 16, q, w);
    state[0] := Add(state[0], a);
    state[1] := Add(state[1], b);
    state[2] := Add(state[2], c);
    state[3] := Add(state[3], d);
  }

  function QuadOf(s: seq<word>): Quad
    requires |s| == 4
  {
    Quad(s[0], s[1], s[2], s[3])
  }
}
