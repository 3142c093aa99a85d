/** our_md5hl.c: the digest as hexadecimal text, of a file read in pieces or of data in memory. */
module Md5Text {
  import opened Words
  import opened Md5Message
  import opened Md5Context

  const HEX_DIGITS: seq<cchar> := "0123456789abcdef"

  /** Two lower-case digits for each byte, the high half first. */
  function Hex(d: seq<byte>): (s: seq<cchar>)
    ensures |s| == 2 * |d|
  {
    seq(2 * |d|, k requires 0 <= k < 2 * |d| => HEX_DIGITS[if k % 2 == 0 then d[k / 2] / 16 else d[k / 2] % 16])
  }

  lemma HexPair(d: seq<byte>, i: nat)
    requires i < |d|
    ensures Hex(d)[..2 * i + 2] == Hex(d)[..2 * i] + [HEX_DIGITS[d[i] / 16], HEX_DIGITS[d[i] % 16]]
  {
    assert 2 * i / 2 == i && (2 * i + 1) / 2 == i;
  }

  lemma Halves(b: byte)
    ensures Shr(b, 4) == b / 16 && And(b, 0x0f) == b % 16
  {
    assert Pow2(4) == 16;
    MaskIsMod(b, 4);
  }

  predicate IsHexDigit(c: cchar) { '0' <= c <= '9' || 'a' <= c <= 'f' }

  function DigitValue(c: cchar): (v: nat)
    requires IsHexDigit(c)
    ensures v < 16
  {
    if c <= '9' then c as int - '0' as int else c as int - 'a' as int + 10
  }

  predicate IsHexText(s: seq<cchar>) {
    |s| % 2 == 0 && forall k :: 0 <= k < |s| ==> IsHexDigit(s[k])
  }

  function ReadHex(s: seq<cchar>): (d: seq<byte>)
    requires IsHexText(s)
    ensures 2 * |d| == |s|
  {
    seq(|s| / 2, i requires 0 <= i < |s| / 2 => 16 * DigitValue(s[2 * i]) + DigitValue(s[2 * i + 1]))
  }

  lemma DigitOfValue(v: nat)
    requires v < 16
    ensures IsHexDigit(HEX_DIGITS[v]) && DigitValue(HEX_DIGITS[v]) == v
  {
    if v < 8 {
      assert v == 0 || v == 1 || v == 2 || v == 3 || v == 4 || v == 5 || v == 6 || v == 7;
    } else {
      assert v == 8 || v == 9 || v == 10 || v == 11 || v == 12 || v == 13 || v == 14 || v == 15;
    }
  }

  lemma ValueOfDigit(c: cchar)
    requires IsHexDigit(c)
    ensures HEX_DIGITS[DigitValue(c)] == c
  {
    DigitOfValue(DigitValue(c));
  }

  /** The text is hexadecimal and gives the bytes back. */
  lemma HexReadsBack(d: seq<byte>)
    ensures IsHexText(Hex(d)) && ReadHex(Hex(d)) == d
  {
    forall k | 0 <= k < 2 * |d|
      ensures IsHexDigit(Hex(d)[k]) && DigitValue(Hex(d)[k]) == if k % 2 == 0 then d[k / 2] / 16 else d[k / 2] % 16
    {
      DigitOfValue(if k % 2 == 0 then d[k / 2] / 16 else d[k / 2] % 16);
    }
    forall i | 0 <= i < |d|
      ensures ReadHex(Hex(d))[i] == d[i]
    {
      assert 2 * i / 2 == i && (2 * i + 1) / 2 == i;
    }
  }

  /** And every hexadecimal text is the text of the bytes it denotes. */
  lemma ReadHexPrintsBack(s: seq<cchar>)
    requires IsHexText(s)
    ensures Hex(ReadHex(s)) == s
  {
    var d := ReadHex(s);
    forall k | 0 <= k < |s|
      ensures Hex(d)[k] == s[k]
    {
      var i := k / 2;
      assert d[i] / 16 == DigitValue(s[2 * i]) && d[i] % 16 == DigitValue(s[2 * i + 1]);
      ValueOfDigit(s[k]);
    }
  }

  /** An open file: the bytes not yet read. */
  class InFile {
    var rest: seq<byte>

    constructor (content: seq<byte>)
      ensures rest == content
    {
      rest := content;
    }

    /** fread, which may return less than the buffer holds, but nothing only at the end. */
    method Read(buffer: array<byte>) returns (n: nat)
      requires 0 < buffer.Length
      modifies this`rest, buffer
      ensures n <= buffer.Length && (n == 0 <==> old(rest) == [])
      ensures old(rest) == buffer[..n] + rest
    {
      var most := if |rest| < buffer.Length then |rest| else buffer.Length;
      n :| 0 <= n <= most && (n == 0 <==> most == 0);
      forall k | 0 <= k < n {
        buffer[k] := rest[k];
      }
      rest := rest[n..];
    }
  }

  /** our_MD5End: writes into the caller's buffer, or into a new one. */
  method End(ctx: Context, buf: array?<cchar>) returns (text: array<cchar>)
    requires ctx.Valid()
    requires buf != null ==> buf.Length >= 33
    requires buf != null ==> buf as object != ctx.state && buf as object != ctx.count && buf as object != ctx.buffer
    modifies ctx, ctx.state, ctx.count, ctx.buffer, buf
    ensures buf != null ==> text == buf
    ensures buf == null ==> fresh(text)
    ensures text.Length >= 33 && text[..32] == Hex(Digest(old(ctx.message))) && text[32] == '\0'
  {
    hide Digest, Hex, Shr, And, Context.Valid;
    if buf == null {
      text := new cchar[33];
    } else {
      text := buf;
    }
    var digest := new byte[16];
    ctx.Final(digest);
    ghost var sum := digest[..];
    assert sum == Digest(old(ctx.message));
    var i := 0;
    while i < 16
      invariant 0 <= i <= 16
      invariant digest[..] == sum && text[..2 * i] == Hex(sum)[..2 * i]
      modifies text
    {
      HexPair(sum, i);
      Halves(digest[i]);
      text[i + i] := HEX_DIGITS[Shr(digest[i], 4)];
      text[i + i + 1] := HEX_DIGITS[And(digest[i], 0x0f)];
      assert text[..2 * i + 2] == text[..2 * i] + [text[2 * i], text[2 * i + 1]];
      i := i + 1;
    }
    assert text[..2 * i] == Hex(sum);
    text[i + i] := '\0';
    assert text[..32] == Hex(sum);
  }

  lemma JoinPiece(done: seq<byte>, piece: seq<byte>, rest: seq<byte>)
    ensures done + (piece + rest) == (done + piece) + rest
  {
  }

  lemma EmptyJoin(s: seq<byte>)
    ensures [] + s == s
  {
  }

  /** our_MD5File. A file that cannot be opened gives null. */
  method FileDigest(f: InFile?, bufferSize: word, buf: array?<cchar>) returns (text: array?<cchar>)
    requires 0 < bufferSize < 0x8000_0000
    requires buf != null ==> buf.Length >= 33
    modifies f, buf
    ensures f == null ==> text == null
    ensures f != null ==> text != null && text.Length >= 33
    ensures f != null ==> text[..32] == Hex(Digest(old(f.rest))) && text[32] == '\0' && f.rest == []
    ensures buf != null && f != null ==> text == buf
    ensures buf == null && f != null ==> fresh(text)
  {
    hide Digest, Hex, Context.Valid;
    var buffer := new byte[bufferSize];
    var ctx := new Context();
    ctx.Init();
    if f == null {
      return null;
    }
    ghost var content := f.rest;
    var n := f.Read(buffer);
    ghost var piece := buffer[..n];
    while n > 0
      invariant ctx.Valid() && n <= bufferSize
      invariant piece == buffer[..n] && content == ctx.message + (piece + f.rest)
      invariant n == 0 ==> f.rest == []
      decreases |f.rest| + n
      modifies ctx, ctx.state, ctx.count, ctx.buffer, buffer, f
    {
      JoinPiece(ctx.message, piece, f.rest);
      ctx.Update(buffer, n);
      n := f.Read(buffer);
      piece := buffer[..n];
    }
    assert content == ctx.message;
    text := End(ctx, buf);
  }

  /** our_MD5Data */
  method DataDigest(data: array<byte>, len: word, buf: array?<cchar>) returns (text: array<cchar>)
    requires len <= data.Length
    requires buf != null ==> buf.Length >= 33
    modifies buf
    ensures text.Length >= 33 && text[..32] == Hex(Digest(old(data[..len]))) && text[32] == '\0'
    ensures buf != null ==> text == buf
  {
    hide Digest, Hex, Context.Valid;
    var ctx := new Context();
    ctx.Init();
    ghost var fed := data[..len];
    EmptyJoin(fed);
    ctx.Update(data, len);
    assert ctx.message == fed;
    text := End(ctx, buf);
  }
}
