/** Base64.c: the procedures, with the C operators of their shift and mask expressions. */
module Base64Code {
  import opened Words
  import opened Base64

  // ---- the shift and mask expressions select the parts of the group ----

  lemma SmallPowers()
    ensures Pow2(2) == 4 && Pow2(4) == 16 && Pow2(6) == 64 && Pow2(8) == 0x100
  {
    PowersOfTwo();
    assert Pow2(6) == 64;
  }

  /** Or joins a shifted number and one below the shift. */
  lemma OrOfShifted(x: word, y: word, k: nat)
    requires k <= 8 && x < 0x100 && y < Pow2(k)
    ensures Or(Shl(x, k), y) == x * Pow2(k) + y
  {
    hide Pow2, Bitwise;
    PowersOfTwo();
    Pow2Grows(k, 8);
    ProductBelow(x, 0x100, Pow2(k));
    DisjointOr(x, y, k);
  }

  lemma SextetParts(a: byte, b: byte, c: byte)
    ensures SextetOf(FromBytes(a, b, c), 0) == a / 4
    ensures SextetOf(FromBytes(a, b, c), 1) == a % 4 * 16 + b / 16
    ensures SextetOf(FromBytes(a, b, c), 2) == b % 16 * 4 + c / 64
    ensures SextetOf(FromBytes(a, b, c), 3) == c % 64
  {
    var g := FromBytes(a, b, c);
    DivModUnique(g, 0x4_0000, a / 4, 0x1_0000 * (a % 4) + 0x100 * b + c);
    DivModUnique(g, 0x1000, 16 * a + b / 16, 0x100 * (b % 16) + c);
    DivModUnique(16 * a + b / 16, 64, a / 4, a % 4 * 16 + b / 16);
    DivModUnique(g, 64, 0x400 * a + 4 * b + c / 64, c % 64);
    DivModUnique(0x400 * a + 4 * b + c / 64, 64, 16 * a + b / 16, b % 16 * 4 + c / 64);
  }

  lemma ByteParts(p: nat, q: nat, r: nat, t: nat)
    requires p < 64 && q < 64 && r < 64 && t < 64
    ensures ByteOf(FromSextets(p, q, r, t), 0) == p * 4 + q / 16
    ensures ByteOf(FromSextets(p, q, r, t), 1) == (q * 16 + r / 4) % 0x100
    ensures ByteOf(FromSextets(p, q, r, t), 2) == (r * 64 + t) % 0x100
  {
    var g := FromSextets(p, q, r, t);
    DivModUnique(g, 0x1_0000, p * 4 + q / 16, 0x1000 * (q % 16) + 64 * r + t);
    DivModUnique(g, 0x100, 0x400 * p + (q * 16 + r / 4), 64 * (r % 4) + t);
    DropMultiple(4 * p, 0x100, q * 16 + r / 4);
    DropMultiple(0x400 * p + 0x10 * q, 0x100, r * 64 + t);
  }

  lemma MaskSix(x: word)
    ensures And(x, 0x3F) == x % 64
  {
    hide Bitwise;
    SmallPowers();
    MaskIsMod(x, 6);
  }

  lemma MaskTwo(x: word)
    ensures And(x, 0x3) == x % 4
  {
    hide Bitwise;
    SmallPowers();
    MaskIsMod(x, 2);
  }

  /** The two middle expressions of a group before their mask. */
  lemma MiddleExpressions(a: byte, b: byte, c: byte)
    ensures Or(Shl(And(a, 0x3), 4), Shr(b, 4)) == a % 4 * 16 + b / 16
    ensures Or(Shl(b, 2), Shr(c, 6)) == b * 4 + c / 64
  {
    hide Or, Shl, And;
    SmallPowers();
    MaskTwo(a);
    OrOfShifted(a % 4, b / 16, 4);
    OrOfShifted(b, c / 64, 2);
  }

  lemma SextetExpressions(a: byte, b: byte, c: byte)
    ensures And(Shr(a, 2), 0x3F) == SextetOf(FromBytes(a, b, c), 0)
    ensures And(Or(Shl(And(a, 0x3), 4), Shr(b, 4)), 0x3F) == SextetOf(FromBytes(a, b, c), 1)
    ensures And(Or(Shl(b, 2), Shr(c, 6)), 0x3F) == SextetOf(FromBytes(a, b, c), 2)
    ensures And(c, 0x3F) == SextetOf(FromBytes(a, b, c), 3)
  {
    hide Or, Shl, And, SextetOf, FromBytes;
    SextetParts(a, b, c);
    SmallPowers();
    MaskSix(a / 4);
    MiddleExpressions(a, b, c);
    MaskSix(a % 4 * 16 + b / 16);
    MaskSix(b * 4 + c / 64);
    MaskSix(c);
    MiddleSextet(b, c);
  }

  lemma MiddleSextet(b: byte, c: byte)
    ensures (b * 4 + c / 64) % 64 == b % 16 * 4 + c / 64
  {
    DivModUnique(b * 4 + c / 64, 64, b / 16, b % 16 * 4 + c / 64);
  }

  /** The last group, when bytes are missing, is completed with zeros. */
  lemma LastSextetExpressions(a: byte, b: byte)
    ensures And(Shl(And(a, 0x3), 4), 0x3F) == SextetOf(FromBytes(a, 0, 0), 1)
    ensures And(Shl(b, 2), 0x3F) == SextetOf(FromBytes(a, b, 0), 2)
  {
    hide Or, And, SextetOf, FromBytes;
    SextetParts(a, 0, 0);
    SextetParts(a, b, 0);
    SmallPowers();
    MaskTwo(a);
    MaskSix(a % 4 * 16);
    MaskSix(b * 4);
    MiddleSextet(b, 0);
  }

  lemma ByteExpressions(p: word, q: word, r: word, t: word)
    requires p < 64 && q < 64 && r < 64 && t < 64
    ensures Or(Shl(p, 2), Shr(q, 4)) % 0x100 == ByteOf(FromSextets(p, q, r, t), 0)
    ensures Or(Shl(q, 4), Shr(r, 2)) % 0x100 == ByteOf(FromSextets(p, q, r, t), 1)
    ensures Or(Shl(r, 6), t) % 0x100 == ByteOf(FromSextets(p, q, r, t), 2)
  {
    hide Or, Shl, ByteOf, FromSextets;
    ByteParts(p, q, r, t);
    SmallPowers();
    OrOfShifted(p, q / 16, 2);
    OrOfShifted(q, r / 4, 4);
    OrOfShifted(r, t, 6);
  }

  // ---- base64Encode ----

  /** Four characters for each group, in 32-bit arithmetic. */
  function ResultBytes(origLength: word): word {
    4 * (origLength / 3 + if origLength > origLength / 3 * 3 then 1 else 0) % WRAP
  }

  /** The size of the result is computed without wrap exactly up to this length. */
  lemma ResultBytesFit(origLength: word)
    ensures ResultBytes(origLength) == 4 * ((origLength + 2) / 3) <==> origLength <= 0xBFFF_FFFD
  {
  }

  function CharOf(v: word): (c: cchar)
    requires v < 64
    ensures c == AlphabetChar(v)
  {
    CharsAreTheAlphabet(v);
    BASE64_CHARS[v]
  }

  method Base64Encode(orig: array?<byte>, origLength: word) returns (result: array?<cchar>)
    requires orig != null ==> origLength <= orig.Length
    requires origLength <= 0xBFFF_FFFD
    ensures orig == null ==> result == null
    ensures orig != null ==> result != null && fresh(result) && result[..] == Encode(orig[..origLength]) + ['\0']
  {
    hide EncodedAt, ResultBytes;
    if orig == null {
      return null;
    }
    ghost var x := orig[..origLength];
    var groups := origLength / 3;
    var havePadding := origLength > groups * 3;
    var havePadding2 := origLength == groups * 3 + 2;
    var numResultBytes := ResultBytes(origLength);
    ResultBytesFit(origLength);
    result := new cchar[numResultBytes + 1];
    var i := 0;
    while i < groups
      invariant i <= groups
      invariant result[..4 * i] == Encode(x)[..4 * i]
    {
      PutFullGroup(result, orig, x, i);
      i := i + 1;
    }
    if havePadding {
      PutLastGroup(result, orig, x, i, havePadding2);
    }
    result[numResultBytes] := '\0';
    assert result[..numResultBytes] == Encode(x);
  }

  /** One pass of the loop. */
  method PutFullGroup(result: array<cchar>, orig: array<byte>, ghost x: seq<byte>, i: nat)
    requires result as object != orig && |x| <= orig.Length && x == orig[..|x|]
    requires 3 * i + 3 <= |x| && |Encode(x)| <= result.Length
    requires result[..4 * i] == Encode(x)[..4 * i]
    modifies result
    ensures result[..4 * i + 4] == Encode(x)[..4 * i + 4]
  {
    hide Shl, Shr, Or, And, SextetOf, FromBytes, AlphabetChar, EncodedAt;
    FullGroup(x, i, 0);
    FullGroup(x, i, 1);
    FullGroup(x, i, 2);
    FullGroup(x, i, 3);
    SextetExpressions(orig[3 * i], orig[3 * i + 1], orig[3 * i + 2]);
    result[4 * i] := CharOf(And(Shr(orig[3 * i], 2), 0x3F));
    result[4 * i + 1] := CharOf(And(Or(Shl(And(orig[3 * i], 0x3), 4), Shr(orig[3 * i + 1], 4)), 0x3F));
    result[4 * i + 2] := CharOf(And(Or(Shl(orig[3 * i + 1], 2), Shr(orig[3 * i + 2], 6)), 0x3F));
    result[4 * i + 3] := CharOf(And(orig[3 * i + 2], 0x3F));
  }

  /** The two padding cases. */
  method PutLastGroup(result: array<cchar>, orig: array<byte>, ghost x: seq<byte>, i: nat, havePadding2: bool)
    requires result as object != orig && |x| <= orig.Length && x == orig[..|x|]
    requires 3 * i < |x| < 3 * i + 3 && |Encode(x)| <= result.Length
    requires havePadding2 <==> |x| == 3 * i + 2
    requires result[..4 * i] == Encode(x)[..4 * i]
    modifies result
    ensures result[..|Encode(x)|] == Encode(x)
  {
    hide Shl, Shr, Or, And, SextetOf, FromBytes, AlphabetChar, EncodedAt;
    LastGroup(x, i, 0);
    LastGroup(x, i, 1);
    LastGroup(x, i, 2);
    LastGroup(x, i, 3);
    SextetExpressions(orig[3 * i], ByteAt(x, 3 * i + 1), 0);
    LastSextetExpressions(orig[3 * i], ByteAt(x, 3 * i + 1));
    result[4 * i] := CharOf(And(Shr(orig[3 * i], 2), 0x3F));
    if havePadding2 {
      result[4 * i + 1] := CharOf(And(Or(Shl(And(orig[3 * i], 0x3), 4), Shr(orig[3 * i + 1], 4)), 0x3F));
      result[4 * i + 2] := CharOf(And(Shl(orig[3 * i + 1], 2), 0x3F));
    } else {
      result[4 * i + 1] := CharOf(And(Shl(And(orig[3 * i], 0x3), 4), 0x3F));
      result[4 * i + 2] := '=';
    }
    result[4 * i + 3] := '=';
  }

  lemma FullGroup(x: seq<byte>, i: nat, r: nat)
    requires 3 * i + 3 <= |x| && r < 4
    ensures Encode(x)[4 * i + r] == AlphabetChar(SextetOf(FromBytes(x[3 * i], x[3 * i + 1], x[3 * i + 2]), r))
  {
    hide SextetOf, FromBytes, AlphabetChar;
    assert (4 * i + r) / 4 == i && (4 * i + r) % 4 == r;
  }

  lemma LastGroup(x: seq<byte>, i: nat, r: nat)
    requires 3 * i < |x| < 3 * i + 3 && r < 4
    ensures Encode(x)[4 * i + r] == if 3 * i + r > |x| then '='
                                    else AlphabetChar(SextetOf(FromBytes(x[3 * i], ByteAt(x, 3 * i + 1), 0), r))
  {
    hide SextetOf, FromBytes, AlphabetChar;
    assert GroupAt(x, i) == FromBytes(x[3 * i], ByteAt(x, 3 * i + 1), 0);
    assert (4 * i + r) / 4 == i && (4 * i + r) % 4 == r;
  }

  // ---- base64Decode ----

  /** The table's entry for the character with code i; 0x80 marks an invalid one. */
  function TableEntry(i: byte): byte {
    var c := i as char;
    if InAlphabet(c) then Sextet(c) else if c == '=' then 0 else 0x80
  }

  lemma EntryIsSextet(c: cchar)
    ensures (if And(TableEntry(c as int), 0x80) != 0 then 0 else TableEntry(c as int)) == Sextet(c)
  {
    var v := TableEntry(c as int);
    if v != 0x80 {
      MaskHighBit(v);
    } else {
      assert Bitwise(AndOp, 0x80, 0x80) == 0x80 by { BitwiseSelf(0x80); }
    }
  }

  lemma MaskHighBit(v: nat)
    requires v < 64
    ensures Bitwise(AndOp, v, 0x80) == 0
  {
    hide Bitwise;
    AndStep(v, 64);
    AndStep(v / 2, 32);
    AndStep(v / 2 / 2, 16);
    AndStep(v / 2 / 2 / 2, 8);
    AndStep(v / 2 / 2 / 2 / 2, 4);
    AndStep(v / 2 / 2 / 2 / 2 / 2, 2);
    assert v / 2 / 2 / 2 / 2 / 2 / 2 == 0;
    AndZeroLeft(2);
  }

  lemma AndZeroLeft(m: nat)
    ensures Bitwise(AndOp, 0, m) == 0
  {
    BitwiseCommutes(AndOp, 0, m);
    AndZero(m);
  }

  lemma AndStep(v: nat, m: nat)
    ensures Bitwise(AndOp, v, 2 * m) == 2 * Bitwise(AndOp, v / 2, m)
  {
  }

  lemma {:induction false} BitwiseSelf(v: nat)
    ensures Bitwise(AndOp, v, v) == v
  {
    if v > 0 {
      BitwiseSelf(v / 2);
    }
  }

  /** The static decode table, filled at the first call. */
  class Decoder {
    const table: array<byte>
    var haveInited: bool

    ghost predicate Valid()
      reads this, table
    {
      table.Length == 256 && (haveInited ==> forall i :: 0 <= i < 256 ==> table[i] == TableEntry(i))
    }

    constructor ()
      ensures Valid() && fresh(table)
    {
      table := new byte[256];
      haveInited := false;
    }

    /** initBase64DecodeTable */
    method InitTable()
      requires table.Length == 256
      modifies table
      ensures forall i :: 0 <= i < 256 ==> table[i] == TableEntry(i)
    {
      for i := 0 to 256
        invariant forall k :: 0 <= k < i ==> table[k] == 0x80
      {
        table[i] := 0x80;
      }
      for i := 65 to 91
        invariant forall k :: 0 <= k < 256 ==> table[k] == if 65 <= k < i then k - 65 else 0x80
      {
        table[i] := i - 65;
      }
      for i := 97 to 123
        invariant forall k :: 0 <= k < 256 ==>
          table[k] == if 65 <= k < 91 then k - 65 else if 97 <= k < i then 26 + (k - 97) else 0x80
      {
        table[i] := 26 + (i - 97);
      }
      for i := 48 to 58
        invariant forall k :: 0 <= k < 256 ==>
          table[k] == if 65 <= k < 91 then k - 65 else if 97 <= k < 123 then 26 + (k - 97)
                      else if 48 <= k < i then 52 + (k - 48) else 0x80
      {
        table[i] := 52 + (i - 48);
      }
      table['+' as int] := 62;
      table['/' as int] := 63;
      table['=' as int] := 0;
    }

    /** base64Decode. The input is the string before its terminating NUL. */
    method Base64Decode(input: seq<cchar>, trimTrailingZeros: bool) returns (result: array<byte>)
      requires Valid() && |input| < 0x8000_0000
      modifies this, table
      ensures Valid() && haveInited && fresh(result)
      ensures result[..] == if trimTrailingZeros then TrimZeros(Decode(input)) else Decode(input)
    {
      hide TableEntry, Decode, TrimZeros;
      if !haveInited {
        InitTable();
        haveInited := true;
      }
      var out := new byte[|input| + 1];
      var k := DecodeGroups(input, out);
      if trimTrailingZeros {
        k := TrimmedLength(out, k);
      }
      result := new byte[k];
      forall m | 0 <= m < k {
        result[m] := out[m];
      }
      assert result[..] == out[..k];
    }

    /** The loop over the full groups. */
    method DecodeGroups(input: seq<cchar>, out: array<byte>) returns (k: nat)
      requires Valid() && haveInited && |input| < 0x8000_0000
      requires out.Length == |input| + 1 && out != table
      modifies out
      ensures k <= out.Length && out[..k] == Decode(input)
    {
      hide ByteOf, Sextet, TableEntry, FromSextets, Decode;
      ghost var x := Decode(input);
      var outTmp := new byte[4];
      var jMax, j := |input| - 3, 0;
      k := 0;
      while j < jMax
        invariant j % 4 == 0 && j <= |input| && k == 3 * (j / 4)
        invariant k <= |x| && out[..k] == x[..k]
        modifies out, outTmp
      {
        LookUp(input, j, outTmp);
        GroupDecodes(input, j);
        ghost var at := k;
        k := PutBytes(out, k, outTmp);
        assert out[..k] == out[..at] + out[at..k];
        j := j + 4;
      }
    }

    /** The inner loop: the four characters from position j, an invalid one as if it were 'A'. */
    method LookUp(input: seq<cchar>, j: nat, outTmp: array<byte>)
      requires Valid() && haveInited && j + 4 <= |input|
      requires outTmp.Length == 4 && outTmp != table
      modifies outTmp
      ensures forall m :: 0 <= m < 4 ==> outTmp[m] == Sextet(input[j + m])
    {
      hide And, Sextet, TableEntry;
      var inTmp := new cchar[4];
      var i := 0;
      while i < 4
        invariant 0 <= i <= 4
        invariant forall m :: 0 <= m < i ==> outTmp[m] == Sextet(input[j + m])
        modifies inTmp, outTmp
      {
        inTmp[i] := input[i + j];
        outTmp[i] := table[inTmp[i] as int];
        EntryIsSextet(input[i + j]);
        if And(outTmp[i], 0x80) != 0 {
          outTmp[i] := 0;
        }
        i := i + 1;
      }
    }
  }

  /** The three assignments to out[k++]. */
  method PutBytes(out: array<byte>, k: nat, outTmp: array<byte>) returns (k': nat)
    requires outTmp.Length == 4 && out != outTmp && k + 3 <= out.Length
    requires forall m :: 0 <= m < 4 ==> outTmp[m] < 64
    modifies out
    ensures k' == k + 3 && out[..k] == old(out[..k])
    ensures var g := FromSextets(outTmp[0], outTmp[1], outTmp[2], outTmp[3]);
      out[k..k'] == [ByteOf(g, 0), ByteOf(g, 1), ByteOf(g, 2)]
  {
    hide Shl, Shr, Or, ByteOf, FromSextets;
    ByteExpressions(outTmp[0], outTmp[1], outTmp[2], outTmp[3]);
    k' := k;
    out[k'] := Or(Shl(outTmp[0], 2), Shr(outTmp[1], 4)) % 0x100;
    k' := k' + 1;
    out[k'] := Or(Shl(outTmp[1], 4), Shr(outTmp[2], 2)) % 0x100;
    k' := k' + 1;
    out[k'] := Or(Shl(outTmp[2], 6), outTmp[3]) % 0x100;
    k' := k' + 1;
  }

  /** The trimming loop: how many of the first n bytes are left without their trailing zeros. */
  method TrimmedLength(out: array<byte>, n: nat) returns (k: nat)
    requires n <= out.Length
    ensures k <= n && out[..k] == TrimZeros(out[..n])
  {
    k := n;
    while k > 0 && out[k - 1] == 0
      invariant 0 <= k <= n && TrimZeros(out[..k]) == TrimZeros(out[..n])
    {
      assert out[..k][..k - 1] == out[..k - 1];
      k := k - 1;
    }
  }

  lemma GroupDecodes(s: seq<cchar>, j: nat)
    requires j % 4 == 0 && j + 4 <= |s|
    ensures var k, g := 3 * (j / 4), FromSextets(Sextet(s[j]), Sextet(s[j + 1]), Sextet(s[j + 2]), Sextet(s[j + 3]));
      k + 3 <= |Decode(s)| && Decode(s)[..k + 3] == Decode(s)[..k] + [ByteOf(g, 0), ByteOf(g, 1), ByteOf(g, 2)]
  {
    hide ByteOf, Sextet, FromSextets;
  }
}
