/** our_md5.c: the streaming context. */
module Md5Context {
  import opened Words
  import opened Md5Compress
  import opened Md5Transform
  import opened Md5Message

  // ---- the bit counter: two words, the carry added by hand ----

  /** The low and the high word that count n bytes, in bits modulo 2^64. */
  ghost predicate CountsBytes(low: word, high: word, n: nat) {
    low == 8 * n % WRAP && high == 8 * n / WRAP % WRAP
  }

  /** The low word grows by the low part of the new bits, with a carry, and the high word by the rest. */
  function NextLow(low: word, len: word): word { Add(low, Shl(len, 3)) }

  function NextHigh(low: word, high: word, len: word): word {
    var carried := if NextLow(low, len) < Shl(len, 3) then Add(high, 1) else high;
    Add(carried, Shr(len, 29))
  }

  lemma ShiftsOfLength(len: word)
    ensures Shl(len, 3) == 8 * len % WRAP && Shr(len, 29) == 8 * len / WRAP
  {
    assert Pow2(3) == 8;
    PowersOfTwo();
    assert Pow2(28) == 0x1000_0000;
  }

  lemma SumOfParts(low: word, high: word, q: nat, l: word, h: nat)
    requires high == q % WRAP
    ensures (q * WRAP + low + (h * WRAP + l)) % WRAP == (low + l) % WRAP
    ensures (q * WRAP + low + (h * WRAP + l)) / WRAP % WRAP
         == (high + (if (low + l) % WRAP < l then 1 else 0) + h) % WRAP
  {
    var s := low + l;
    assert q * WRAP + low + (h * WRAP + l) == (q + h) * WRAP + s;
    DropMultiple(q + h, WRAP, s);
    assert s / WRAP == if s % WRAP < l then 1 else 0;
  }

  lemma AddTwice(x: word, y: word, z: word)
    ensures Add(Add(x, y), z) == (x + y + z) % WRAP && Add(x, 0) == x
  {
  }

  /** The counter stays right across every wrap of either word. */
  lemma CounterAdvances(low: word, high: word, n: nat, len: word)
    requires CountsBytes(low, high, n)
    ensures CountsBytes(NextLow(low, len), NextHigh(low, high, len), n + len)
  {
    hide Pow2;
    ShiftsOfLength(len);
    var q, l, h := 8 * n / WRAP, 8 * len % WRAP, 8 * len / WRAP;
    assert 8 * (n + len) == q * WRAP + low + (h * WRAP + l);
    SumOfParts(low, high, q, l, h);
    AddTwice(high, if NextLow(low, len) < l then 1 else 0, h);
  }

  /** The number of buffered bytes, from the low word. */
  function IndexOf(low: word): word { And(Shr(low, 3), 0x3F) }

  lemma IndexIsTailLength(low: word, high: word, n: nat)
    requires CountsBytes(low, high, n)
    ensures IndexOf(low) == n % 64
  {
    hide Bitwise;
    assert Pow2(3) == 8 && Pow2(6) == 64;
    MaskIsMod(low / 8, 6);
    assert n == 8 * n / WRAP * 0x2000_0000 + low / 8;
    DropMultiple(8 * n / WRAP * 0x80_0000, 64, low / 8);
  }

  // ---- when the block loop ends ----

  /** The index i of the block loop after k rounds, and its test, in 32-bit arithmetic. */
  function LoopIndex(partLen: word, k: nat): word { (partLen + 64 * k) % WRAP }
  predicate LoopTest(i: word, inputLen: word) { Add(i, 63) < inputLen }

  ghost predicate LoopEndsAt(index: word, inputLen: word, k: nat)
    requires index < 64
  {
    !LoopTest(LoopIndex(64 - index, k), inputLen)
  }

  /** The loop ends, at some round, exactly when the buffered bytes and the new ones together count less
      than 2^32. */
  lemma LoopEndsWhenShort(index: word, inputLen: word)
    requires index < 64 && 64 - index <= inputLen
    ensures (exists k: nat :: LoopEndsAt(index, inputLen, k)) <==> index + inputLen < WRAP
  {
    var partLen := 64 - index;
    if index + inputLen < WRAP {
      var k := (inputLen - partLen) / 64;
      assert partLen + 64 * k <= inputLen < partLen + 64 * k + 64;
      assert LoopIndex(partLen, k) == partLen + 64 * k;
      assert partLen + 64 * k + 63 < WRAP;
      assert LoopEndsAt(index, inputLen, k);
    } else {
      forall k: nat
        ensures !LoopEndsAt(index, inputLen, k)
      {
        LoopNeverEnds(index, inputLen, k);
      }
    }
  }

  lemma LoopNeverEnds(index: word, inputLen: word, k: nat)
    requires 0 < index < 64 && index + inputLen >= WRAP
    ensures LoopTest(LoopIndex(64 - index, k), inputLen)
  {
    var i := LoopIndex(64 - index, k);
    var q := (64 - index + 64 * k) / WRAP;
    assert i == 64 * (k + 1 - q * 0x400_0000) - index;
    var j := k + 1 - q * 0x400_0000;
    assert i == 64 * j - index && 1 <= j <= 0x400_0000;
  }

  /** Within that bound the test is not changed by the wrap of i + 63. */
  lemma LoopTestIsExact(index: word, inputLen: word, i: word, n: nat)
    requires index + inputLen < WRAP && i <= inputLen && index + i == 64 * n
    ensures LoopTest(i, inputLen) <==> i + 63 < inputLen
  {
  }

  // ---- where the new bytes land ----

  lemma ChainStep(m: seq<byte>, n: nat, block: seq<byte>)
    requires 64 * n + 64 <= |m| && block == m[64 * n..64 * n + 64]
    ensures Chain(m, n + 1) == Compress(Chain(m, n), DecodeWords(block))
  {
    hide Compress, DecodeWords;
  }

  lemma FirstBlock(before: seq<byte>, input: seq<byte>, partLen: nat)
    requires partLen == 64 - |before| % 64 <= |input|
    ensures (before + input)[|before| / 64 * 64..|before| / 64 * 64 + 64]
         == before[|before| / 64 * 64..] + input[..partLen]
  {
  }

  lemma InputBlock(before: seq<byte>, input: seq<byte>, i: nat, n: nat)
    requires |before| + i == 64 * n && i + 64 <= |input|
    ensures (before + input)[64 * n..64 * n + 64] == input[i..i + 64]
  {
  }

  lemma InputTail(before: seq<byte>, input: seq<byte>, i: nat, n: nat)
    requires |before| + i == 64 * n && i <= |input| < i + 64
    ensures |before + input| / 64 == n && |before + input| % 64 == |input| - i
    ensures (before + input)[64 * n..] == input[i..]
  {
  }

  lemma JoinTail(buf: seq<byte>, to: nat, n: nat, tail: seq<byte>)
    requires to + n <= |buf| && buf[to..to + n] == tail
    ensures buf[..to + n] == buf[..to] + tail
  {
  }

  lemma LongerTail(before: seq<byte>, input: seq<byte>)
    requires |before| % 64 + |input| < 64
    ensures |before + input| / 64 == |before| / 64 && |before + input| % 64 == |before| % 64 + |input|
    ensures (before + input)[|before| / 64 * 64..] == before[|before| / 64 * 64..] + input
  {
  }

  // ---- the padding Final chooses ----

  lemma PadLength(n: nat)
    ensures 1 + ZeroCount(n) == if n % 64 < 56 then 56 - n % 64 else 120 - n % 64
  {
  }

  /** The static table PADDING. */
  method PaddingTable() returns (table: array<byte>)
    ensures fresh(table) && table[..] == [0x80] + Zeros(63)
  {
    table := new byte[64](k => if k == 0 then 0x80 else 0);
  }

  lemma PaddingFromTable(table: seq<byte>, n: nat)
    requires table == [0x80] + Zeros(63)
    ensures table[..1 + ZeroCount(n)] == Padding(n)
  {
  }

  lemma LengthWords(ws: seq<word>, n: nat)
    requires |ws| == 2 && CountsBytes(ws[0], ws[1], n)
    ensures EncodeWords(ws) == LengthField(n)
  {
    assert ws == [8 * n % WRAP, 8 * n / WRAP % WRAP];
  }

  lemma StateBytes(ws: seq<word>)
    requires |ws| == 4
    ensures EncodeWords(ws) == EncodeQuad(QuadOf(ws))
  {
    assert ws == [ws[0], ws[1], ws[2], ws[3]];
  }

  lemma StartsCounting(ws: seq<word>)
    requires |ws| == 4 && QuadOf(ws) == INITIAL
    ensures CountsUpAndDown(EncodeWords(ws))
  {
    StateBytes(ws);
    InitialBytes();
  }

  lemma PadParts(m: seq<byte>)
    ensures Pad(m) == m + Padding(|m|) + LengthField(|m|)
  {
  }

  // ---- the context ----

  /** A copy of n bytes between different arrays. */
  method CopyBytes(dst: array<byte>, to: nat, src: array<byte>, from: nat, n: nat)
    requires dst != src && to + n <= dst.Length && from + n <= src.Length
    modifies dst
    ensures dst[..to] == old(dst[..to]) && dst[to + n..] == old(dst[to + n..])
    ensures dst[to..to + n] == src[from..from + n]
  {
    forall k | 0 <= k < n {
      dst[to + k] := src[from + k];
    }
  }

  class Context {
    const state: array<word>
    const count: array<word>
    const buffer: array<byte>
    /** Every byte fed since initialisation. */
    ghost var message: seq<byte>

    ghost predicate Shape()
      reads this
    {
      && state.Length == 4 && count.Length == 2 && buffer.Length == 64
      && state != count && buffer as object != state && buffer as object != count
    }

    /** The buffer holds the incomplete last block; the rest of the message is in the chain. */
    ghost predicate Valid()
      reads this, state, count, buffer
    {
      && Shape()
      && CountsBytes(count[0], count[1], |message|)
      && QuadOf(state[..]) == Chain(message, |message| / 64)
      && buffer[..|message| % 64] == message[|message| / 64 * 64..]
    }

    constructor ()
      ensures Shape() && fresh(state) && fresh(count) && fresh(buffer)
    {
      state, count, buffer := new word[4], new word[2], new byte[64];
      message := [];
    }

    /** our_MD5Init. The buffer is left as it is. */
    method Init()
      requires Shape()
      modifies this, state, count
      ensures Valid() && message == []
      ensures CountsUpAndDown(EncodeWords(state[..]))
    {
      hide EncodeWords, EncodeQuad, CountsUpAndDown;
      count[0], count[1] := 0, 0;
      state[0], state[1], state[2], state[3] := 0x67452301, 0xefcdab89, 0x98badcfe, 0x10325476;
      message := [];
      StartsCounting(state[..]);
    }

    /** ourMD5Update */
    method Update(input: array<byte>, inputLen: word)
      requires Valid() && inputLen <= input.Length
      requires input != buffer && input as object != state && input as object != count
      requires |message| % 64 + inputLen < WRAP
      modifies this, state, count, buffer
      ensures Valid() && message == old(message) + input[..inputLen]
    {
      hide Compress, DecodeWords, Chain, IndexOf, NextLow, NextHigh, CountsBytes, QuadOf;
      ghost var before := message;
      IndexIsTailLength(count[0], count[1], |before|);
      CounterAdvances(count[0], count[1], |before|, inputLen);
      var index := IndexOf(count[0]);
      count[0], count[1] := NextLow(count[0], inputLen), NextHigh(count[0], count[1], inputLen);
      message := before + input[..inputLen];
      var i;
      i, index := TransformFull(before, input, inputLen, index);
      if inputLen - i != 0 {
        CopyBytes(buffer, index, input, i, inputLen - i);
        JoinTail(buffer[..], index, inputLen - i, input[i..inputLen]);
      }
    }

    /** The part of ourMD5Update that transforms as many blocks as possible: i bytes of the input are used
        up, and the others go to the given position of the buffer. */
    method TransformFull(ghost before: seq<byte>, input: array<byte>, inputLen: word, index: word)
      returns (i: word, position: word)
      requires Shape() && inputLen <= input.Length
      requires input != buffer && input as object != state && input as object != count
      requires index == |before| % 64 && index + inputLen < WRAP
      requires QuadOf(state[..]) == Chain(before, |before| / 64) && buffer[..index] == before[|before| / 64 * 64..]
      modifies state, buffer
      ensures var m := before + input[..inputLen];
        && QuadOf(state[..]) == Chain(m, |m| / 64)
        && i <= inputLen && position + (inputLen - i) == |m| % 64
        && buffer[..position] + input[i..inputLen] == m[|m| / 64 * 64..]
    {
      hide Compress, DecodeWords, Chain, LoopTest, QuadOf;
      ghost var fed := input[..inputLen];
      ghost var m := before + fed;
      ChainOfPrefix(before, m, |before| / 64);
      var partLen := 64 - index;
      if inputLen >= partLen {
        CopyBytes(buffer, index, input, 0, partLen);
        FirstBlock(before, fed, partLen);
        assert buffer[0..64] == buffer[..index] + buffer[index..index + partLen];
        ChainStep(m, |before| / 64, buffer[0..64]);
        MD5Transform(state, buffer, 0);
        i := partLen;
        ghost var n := |before| / 64 + 1;
        LoopTestIsExact(index, inputLen, i, 1);
        while LoopTest(i, inputLen)
          invariant |before| + i == 64 * n && partLen <= i <= inputLen
          invariant LoopTest(i, inputLen) <==> i + 63 < inputLen
          invariant QuadOf(state[..]) == Chain(m, n)
          decreases inputLen - i
          modifies state
        {
          InputBlock(before, fed, i, n);
          ChainStep(m, n, input[i..i + 64]);
          MD5Transform(state, input, i);
          i := i + 64;
          n := n + 1;
          LoopTestIsExact(index, inputLen, i, n - |before| / 64);
        }
        position := 0;
        InputTail(before, fed, i, n);
      } else {
        i, position := 0, index;
        LongerTail(before, fed);
      }
    }

    /** our_MD5Final. The context is wiped afterwards. */
    method Final(digest: array<byte>)
      requires Valid() && digest.Length == 16
      requires digest != buffer && digest as object != state && digest as object != count
      modifies this, state, count, buffer, digest
      ensures digest[..] == Digest(old(message))
      ensures state[..] == [0, 0, 0, 0] && count[..] == [0, 0] && buffer[..] == Zeros(64)
    {
      hide Compress, Chain, EncodeWords, IndexOf, And, Pad, Zeros, ZeroCount, Padding, LengthField, CountsBytes;
      ghost var m := message;
      var bits := new byte[8];
      Encode(bits, count, 8);
      assert bits[..8] == LengthField(|m|) by {
        assert count[..2] == count[..];
        LengthWords(count[..2], |m|);
      }
      IndexIsTailLength(count[0], count[1], |m|);
      var index := IndexOf(count[0]);
      var padLen := if index < 56 then 56 - index else 120 - index;
      PadLength(|m|);
      var padding := PaddingTable();
      PaddingFromTable(padding[..], |m|);
      assert padding[..padLen] == padding[..][..padLen];
      Update(padding, padLen);
      Update(bits, 8);
      PadParts(m);
      Encode(digest, state, 16);
      assert digest[..] == digest[..16];
      assert state[..4] == state[..];
      StateBytes(state[..]);
      Wipe();
    }

    /** Every array of the context is zeroed. */
    method Wipe()
      requires Shape()
      modifies state, count, buffer
      ensures state[..] == [0, 0, 0, 0] && count[..] == [0, 0] && buffer[..] == Zeros(64)
    {
      state[0], state[1], state[2], state[3] := 0, 0, 0, 0;
      count[0], count[1] := 0, 0;
      forall k | 0 <= k < 64 {
        buffer[k] := 0;
      }
    }
  }

  // ---- a message in pieces ----

  function Contents(pieces: seq<array<byte>>): seq<byte>
    reads pieces
  {
    if pieces == [] then [] else Contents(pieces[..|pieces| - 1]) + pieces[|pieces| - 1][..]
  }

  /** The call for piece k meets the condition of LoopEndsWhenShort. */
  ghost predicate CallEnds(pieces: seq<array<byte>>, k: nat)
    requires k < |pieces|
    reads pieces
  {
    |Contents(pieces[..k])| % 64 + pieces[k].Length < WRAP
  }

  lemma NoPieces(pieces: seq<array<byte>>)
    ensures Contents(pieces[..0]) == []
  {
  }

  lemma NextPiece(pieces: seq<array<byte>>, i: nat)
    requires i < |pieces| && CallEnds(pieces, i)
    ensures |Contents(pieces[..i])| % 64 + pieces[i].Length < WRAP
    ensures Contents(pieces[..i + 1]) == Contents(pieces[..i]) + pieces[i][..pieces[i].Length]
  {
    assert pieces[i][..pieces[i].Length] == pieces[i][..];
    assert pieces[..i + 1][..i] == pieces[..i];
  }

  /** However a message is cut into pieces, empty ones included and of any number, the three calls give the
      digest of the whole, as long as each call ends. */
  method DigestOfPieces(pieces: seq<array<byte>>) returns (digest: array<byte>)
    requires forall k :: 0 <= k < |pieces| ==> CallEnds(pieces, k)
    ensures fresh(digest) && digest[..] == Digest(Contents(pieces))
  {
    hide Digest, Context.Valid, Contents, CallEnds;
    digest := new byte[16];
    var ctx := new Context();
    ctx.Init();
    var i := 0;
    NoPieces(pieces);
    ghost var fed: seq<byte> := [];
    while i < |pieces|
      invariant 0 <= i <= |pieces| && ctx.Valid()
      invariant ctx.message == fed && fed == Contents(pieces[..i])
      modifies ctx, ctx.state, ctx.count, ctx.buffer
    {
      var piece := pieces[i];
      NextPiece(pieces, i);
      ghost var longer := fed + piece[..piece.Length];
      ctx.Update(piece, piece.Length);
      assert ctx.message == longer;
      fed := longer;
      i := i + 1;
    }
    assert pieces[..i] == pieces;
    assert ctx.message == fed;
    ctx.Final(digest);
  }
}
