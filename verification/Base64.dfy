/** Base64.c: the encoding of section 4 of RFC 4648 with its lenient decoder. */
module Base64 {
  import opened Words

  // ---- the alphabet ----

  const BASE64_CHARS: string := "ABCDEFGHIJKLMNOPQRSTUVWXYZ" + "abcdefghijklmnopqrstuvwxyz" + "0123456789+/"

  function AlphabetChar(v: nat): cchar
    requires v < 64
  {
    if v < 26 then (v + 65) as char
    else if v < 52 then (v - 26 + 97) as char
    else if v < 62 then (v - 52 + 48) as char
    else if v == 62 then '+' else '/'
  }

  predicate InAlphabet(c: cchar) {
    'A' <= c <= 'Z' || 'a' <= c <= 'z' || '0' <= c <= '9' || c == '+' || c == '/'
  }

  /** The value of a character; one outside the alphabet counts as 'A'. */
  function Sextet(c: cchar): (v: nat)
    ensures v < 64
  {
    if 'A' <= c <= 'Z' then c as int - 65
    else if 'a' <= c <= 'z' then 26 + (c as int - 97)
    else if '0' <= c <= '9' then 52 + (c as int - 48)
    else if c == '+' then 62
    else if c == '/' then 63
    else 0
  }

  lemma CharOfSextet(v: nat)
    requires v < 64
    ensures InAlphabet(AlphabetChar(v)) && Sextet(AlphabetChar(v)) == v
  {
  }

  lemma SextetOfChar(c: cchar)
    ensures AlphabetChar(Sextet(c)) == if InAlphabet(c) then c else 'A'
  {
  }

  lemma CharsAreTheAlphabet(v: nat)
    requires v < 64
    ensures |BASE64_CHARS| == 64 && BASE64_CHARS[v] == AlphabetChar(v)
  {
  }

  // ---- groups: three bytes or four characters, as one 24-bit number ----

  type group = g: nat | g < 0x100_0000

  function FromBytes(a: byte, b: byte, c: byte): group { 0x1_0000 * a + 0x100 * b + c }

  function FromSextets(p: nat, q: nat, r: nat, t: nat): group
    requires p < 64 && q < 64 && r < 64 && t < 64
  {
    0x4_0000 * p + 0x1000 * q + 64 * r + t
  }

  function SextetOf(g: group, r: nat): (v: nat)
    requires r < 4
    ensures v < 64
  {
    if r == 0 then g / 0x4_0000
    else if r == 1 then g / 0x1000 % 64
    else if r == 2 then g / 64 % 64
    else g % 64
  }

  function ByteOf(g: group, k: nat): byte
    requires k < 3
  {
    if k == 0 then g / 0x1_0000
    else if k == 1 then g / 0x100 % 0x100
    else g % 0x100
  }

  lemma SextetsRejoin(g: group)
    ensures FromSextets(SextetOf(g, 0), SextetOf(g, 1), SextetOf(g, 2), SextetOf(g, 3)) == g
  {
    assert g / 0x4_0000 == g / 0x1000 / 64;
    assert g / 0x1000 == g / 64 / 64;
  }

  lemma BytesRejoin(g: group)
    ensures FromBytes(ByteOf(g, 0), ByteOf(g, 1), ByteOf(g, 2)) == g
  {
    assert g / 0x1_0000 == g / 0x100 / 0x100;
  }

  lemma BytesOfJoined(a: byte, b: byte, c: byte)
    ensures var g := FromBytes(a, b, c); ByteOf(g, 0) == a && ByteOf(g, 1) == b && ByteOf(g, 2) == c
  {
    var g := FromBytes(a, b, c);
    DivModUnique(g, 0x1_0000, a, 0x100 * b + c);
    DivModUnique(g, 0x100, 0x100 * a + b, c);
    DivModUnique(0x100 * a + b, 0x100, a, b);
  }

  lemma SextetsOfJoined(p: nat, q: nat, r: nat, t: nat)
    requires p < 64 && q < 64 && r < 64 && t < 64
    ensures var g := FromSextets(p, q, r, t);
      SextetOf(g, 0) == p && SextetOf(g, 1) == q && SextetOf(g, 2) == r && SextetOf(g, 3) == t
  {
    var g := FromSextets(p, q, r, t);
    DivModUnique(g, 0x4_0000, p, 0x1000 * q + 64 * r + t);
    DivModUnique(g, 0x1000, 64 * p + q, 64 * r + t);
    DivModUnique(g, 64, 0x1000 * p + 64 * q + r, t);
    DivModUnique(64 * p + q, 64, p, q);
    DivModUnique(0x1000 * p + 64 * q + r, 64, 64 * p + q, r);
  }

  // ---- the whole text ----

  /** The bytes of the last group are completed with zero bytes. */
  function ByteAt(x: seq<byte>, k: nat): byte { if k < |x| then x[k] else 0 }

  function GroupAt(x: seq<byte>, i: nat): group {
    FromBytes(ByteAt(x, 3 * i), ByteAt(x, 3 * i + 1), ByteAt(x, 3 * i + 2))
  }

  /** Position p of the encoding: a character of the group p / 3, or '=' past the bits there are. */
  function EncodedAt(x: seq<byte>, p: nat): cchar {
    var i, r := p / 4, p % 4;
    if 3 * i + r > |x| then '='
    else AlphabetChar(SextetOf(GroupAt(x, i), r))
  }

  function Encode(x: seq<byte>): (s: seq<cchar>)
    ensures |s| == 4 * ((|x| + 2) / 3)
  {
    seq(4 * ((|x| + 2) / 3), p requires p >= 0 => EncodedAt(x, p))
  }

  function CharGroupAt(s: seq<cchar>, i: nat): group
    requires 4 * i + 4 <= |s|
  {
    FromSextets(Sextet(s[4 * i]), Sextet(s[4 * i + 1]), Sextet(s[4 * i + 2]), Sextet(s[4 * i + 3]))
  }

  /** An incomplete last group is dropped. */
  function Decode(s: seq<cchar>): (x: seq<byte>)
    ensures |x| == 3 * (|s| / 4)
  {
    seq(3 * (|s| / 4), k requires 0 <= k < 3 * (|s| / 4) => ByteOf(CharGroupAt(s, k / 3), k % 3))
  }

  function TrimZeros(x: seq<byte>): seq<byte> {
    if x != [] && x[|x| - 1] == 0 then TrimZeros(x[..|x| - 1]) else x
  }

  /** The full groups of s, with 'A' for every '=' and every other character outside the alphabet. */
  function Normal(s: seq<cchar>): (t: seq<cchar>)
    ensures |t| == 4 * (|s| / 4)
  {
    seq(4 * (|s| / 4), k requires 0 <= k < 4 * (|s| / 4) => if InAlphabet(s[k]) then s[k] else 'A')
  }

  predicate IsNormal(s: seq<cchar>) {
    |s| % 4 == 0 && forall k :: 0 <= k < |s| ==> InAlphabet(s[k])
  }

  // ---- encode, then decode ----

  lemma SextetOfEncoded(x: seq<byte>, i: nat, r: nat)
    requires 3 * i < |x| && r < 4
    ensures Sextet(Encode(x)[4 * i + r]) == SextetOf(GroupAt(x, i), r)
  {
    hide SextetOf, FromBytes;
    assert (4 * i + r) / 4 == i && (4 * i + r) % 4 == r;
    CharOfSextet(SextetOf(GroupAt(x, i), r));
    if 3 * i + r > |x| {
      MissingSextet(x, i, r);
    }
  }

  /** The characters that '=' stands for carry no bit. */
  lemma MissingSextet(x: seq<byte>, i: nat, r: nat)
    requires 3 * i < |x| < 3 * i + r && r < 4
    ensures SextetOf(GroupAt(x, i), r) == 0
  {
    var g: int, a: int, b: int := GroupAt(x, i), ByteAt(x, 3 * i), ByteAt(x, 3 * i + 1);
    assert g == 0x1_0000 * a + 0x100 * b;
    DivModUnique(g, 64, 0x400 * a + 4 * b, 0);
    if r == 2 {
      DivModUnique(0x400 * a, 64, 0x10 * a, 0);
    }
  }

  lemma EncodedGroup(x: seq<byte>, i: nat)
    requires 3 * i < |x|
    ensures CharGroupAt(Encode(x), i) == GroupAt(x, i)
  {
    hide SextetOf, FromBytes;
    SextetOfEncoded(x, i, 0);
    SextetOfEncoded(x, i, 1);
    SextetOfEncoded(x, i, 2);
    SextetOfEncoded(x, i, 3);
    SextetsRejoin(GroupAt(x, i));
  }

  lemma DecodedAt(s: seq<cchar>, k: nat)
    requires k < 3 * (|s| / 4)
    ensures Decode(s)[k] == ByteOf(CharGroupAt(s, k / 3), k % 3)
  {
  }

  lemma DecodedByte(x: seq<byte>, k: nat)
    requires 3 * (k / 3) < |x|
    ensures Decode(Encode(x))[k] == ByteAt(x, k)
  {
    hide Encode, Decode, CharGroupAt, ByteOf, FromBytes, ByteAt;
    DecodedAt(Encode(x), k);
    var i, r := k / 3, k % 3;
    EncodedGroup(x, i);
    BytesOfJoined(ByteAt(x, 3 * i), ByteAt(x, 3 * i + 1), ByteAt(x, 3 * i + 2));
    assert r == 0 || r == 1 || r == 2;
  }

  lemma CompletedLength(n: nat)
    ensures 3 * ((n + 2) / 3) == n + (3 - n % 3) % 3
  {
  }

  lemma CompletedAt(x: seq<byte>, z: nat, k: nat)
    requires k < |x| + z
    ensures (x + Zeros(z))[k] == ByteAt(x, k)
  {
  }

  /** Decoding an encoding gives the bytes back, then a zero for each byte the last group lacked. */
  lemma DecodeOfEncode(x: seq<byte>)
    ensures Decode(Encode(x)) == x + Zeros((3 - |x| % 3) % 3)
  {
    hide Encode, Decode, ByteAt;
    var y, z := Decode(Encode(x)), (3 - |x| % 3) % 3;
    CompletedLength(|x|);
    forall k | 0 <= k < |x| + z
      ensures y[k] == (x + Zeros(z))[k]
    {
      DecodedByte(x, k);
      CompletedAt(x, z, k);
    }
  }

  lemma {:induction false} TrimDropsZeros(x: seq<byte>, n: nat)
    ensures TrimZeros(x + Zeros(n)) == TrimZeros(x)
  {
    var y := x + Zeros(n);
    if n == 0 {
      assert y == x;
    } else {
      assert y[..|y| - 1] == x + Zeros(n - 1);
      TrimDropsZeros(x, n - 1);
    }
  }

  /** Exactly the trailing zeros are dropped. */
  lemma {:induction false} TrimSplits(x: seq<byte>)
    ensures |TrimZeros(x)| <= |x|
    ensures x == TrimZeros(x) + Zeros(|x| - |TrimZeros(x)|)
    ensures TrimZeros(x) == [] || TrimZeros(x)[|TrimZeros(x)| - 1] != 0
  {
    if x != [] && x[|x| - 1] == 0 {
      var n := |x| - 1;
      TrimSplits(x[..n]);
      assert Zeros(|x| - |TrimZeros(x)|) == Zeros(n - |TrimZeros(x)|) + [0];
      assert x == x[..n] + [0];
    } else {
      assert x + Zeros(0) == x;
    }
  }

  lemma {:induction false} TrimUnchanged(x: seq<byte>)
    ensures |TrimZeros(x)| <= |x|
    ensures TrimZeros(x) == x <==> (x == [] || x[|x| - 1] != 0)
  {
    if x != [] && x[|x| - 1] == 0 {
      TrimUnchanged(x[..|x| - 1]);
    }
  }

  /** The trimming decoder gives the bytes without their trailing zeros, so exactly the bytes when they
      do not end in zero. */
  lemma TrimmedDecodeOfEncode(x: seq<byte>)
    ensures TrimZeros(Decode(Encode(x))) == TrimZeros(x)
    ensures TrimZeros(Decode(Encode(x))) == x <==> (x == [] || x[|x| - 1] != 0)
  {
    DecodeOfEncode(x);
    TrimDropsZeros(x, (3 - |x| % 3) % 3);
    TrimUnchanged(x);
  }

  // ---- the encoding is injective and respects group boundaries ----

  lemma EqualsSign(x: seq<byte>, i: nat, r: nat)
    requires 3 * i < |x| && r < 4
    ensures EncodedAt(x, 4 * i + r) == '=' <==> 3 * i + r > |x|
  {
    hide SextetOf, GroupAt;
    assert (4 * i + r) / 4 == i && (4 * i + r) % 4 == r;
    CharOfSextet(SextetOf(GroupAt(x, i), r));
  }

  lemma PaddingShowsRemainder(x: seq<byte>)
    requires x != []
    ensures var s := Encode(x);
      && (s[|s| - 1] == '=' <==> |x| % 3 != 0)
      && (s[|s| - 2] == '=' <==> |x| % 3 == 1)
  {
    hide EncodedAt;
    var i := (|x| + 2) / 3 - 1;
    EqualsSign(x, i, 3);
    EqualsSign(x, i, 2);
  }

  /** Byte strings of any two lengths with one encoding are equal. */
  lemma EncodeIsInjective(x: seq<byte>, y: seq<byte>)
    requires Encode(x) == Encode(y)
    ensures x == y
  {
    hide Encode, Decode;
    assert |Encode(x)| == |Encode(y)|;
    if x != [] && y != [] {
      PaddingShowsRemainder(x);
      PaddingShowsRemainder(y);
    }
    assert |x| == |y|;
    DecodeOfEncode(x);
    DecodeOfEncode(y);
    assert x == (x + Zeros((3 - |x| % 3) % 3))[..|x|];
    assert y == (y + Zeros((3 - |y| % 3) % 3))[..|y|];
  }

  lemma GroupOfJoined(x: seq<byte>, y: seq<byte>, i: nat)
    requires |x| % 3 == 0
    ensures 3 * i < |x| ==> GroupAt(x + y, i) == GroupAt(x, i)
    ensures 3 * i >= |x| ==> GroupAt(x + y, i) == GroupAt(y, i - |x| / 3)
  {
    hide FromBytes;
  }

  lemma EncodedInGroup(x: seq<byte>, i: nat, r: nat)
    requires r < 4
    ensures EncodedAt(x, 4 * i + r) == if 3 * i + r > |x| then '=' else AlphabetChar(SextetOf(GroupAt(x, i), r))
  {
    hide GroupAt, SextetOf, AlphabetChar;
    DivModUnique(4 * i + r, 4, i, r);
  }

  lemma JoinedAt(x: seq<byte>, y: seq<byte>, p: nat)
    requires |x| % 3 == 0 && p < |Encode(x + y)|
    ensures EncodedAt(x + y, p) == if p < |Encode(x)| then EncodedAt(x, p) else EncodedAt(y, p - |Encode(x)|)
  {
    hide GroupAt, SextetOf, AlphabetChar, EncodedAt;
    var i, r, n := p / 4, p % 4, |x| / 3;
    GroupOfJoined(x, y, i);
    EncodedInGroup(x + y, i, r);
    if i < n {
      EncodedInGroup(x, i, r);
    } else {
      EncodedInGroup(y, i - n, r);
      assert 4 * (i - n) + r == p - |Encode(x)|;
    }
  }

  /** After whole groups the encoding starts afresh. */
  lemma EncodeJoins(x: seq<byte>, y: seq<byte>)
    requires |x| % 3 == 0
    ensures Encode(x + y) == Encode(x) + Encode(y)
  {
    hide EncodedAt;
    assert |Encode(x + y)| == |Encode(x)| + |Encode(y)|;
    forall p | 0 <= p < |Encode(x + y)|
      ensures Encode(x + y)[p] == (Encode(x) + Encode(y))[p]
    {
      JoinedAt(x, y, p);
    }
  }

  // ---- decode, then encode ----

  lemma DecodedGroup(s: seq<cchar>, i: nat)
    requires 4 * i + 4 <= |s|
    ensures GroupAt(Decode(s), i) == CharGroupAt(s, i)
  {
    hide CharGroupAt, ByteOf, FromBytes;
    assert 3 * i / 3 == i && (3 * i + 1) / 3 == i && (3 * i + 2) / 3 == i;
    assert 3 * i % 3 == 0 && (3 * i + 1) % 3 == 1 && (3 * i + 2) % 3 == 2;
    BytesRejoin(CharGroupAt(s, i));
  }

  lemma EncodedChar(s: seq<cchar>, k: nat)
    requires k < 4 * (|s| / 4)
    ensures EncodedAt(Decode(s), k) == if InAlphabet(s[k]) then s[k] else 'A'
  {
    hide SextetOf, FromSextets, GroupAt, AlphabetChar, Sextet, InAlphabet;
    var i := k / 4;
    DecodedGroup(s, i);
    SextetsOfJoined(Sextet(s[4 * i]), Sextet(s[4 * i + 1]), Sextet(s[4 * i + 2]), Sextet(s[4 * i + 3]));
    SextetOfChar(s[k]);
    assert k == 4 * i || k == 4 * i + 1 || k == 4 * i + 2 || k == 4 * i + 3;
  }

  /** Encoding what any text decodes to gives the normal form of the text. */
  lemma EncodeOfDecode(s: seq<cchar>)
    ensures Encode(Decode(s)) == Normal(s)
  {
    forall k | 0 <= k < 4 * (|s| / 4)
      ensures Encode(Decode(s))[k] == Normal(s)[k]
    {
      EncodedChar(s, k);
    }
  }

  /** The normal form is normal, reached in one step, and only normal text is its own. */
  lemma NormalIsIdempotent(s: seq<cchar>)
    ensures IsNormal(Normal(s)) && Normal(Normal(s)) == Normal(s)
    ensures Encode(Decode(s)) == s <==> IsNormal(s)
  {
    EncodeOfDecode(s);
    if Normal(s) == s {
      assert |s| % 4 == 0;
    }
  }
}
