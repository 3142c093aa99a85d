/** C's fixed-width unsigned integers and characters, written as bounded naturals so that every
    wrap-around and truncation is visible, together with the operators the sources use on them. */
module Words {
  type byte = x: int | 0 <= x < 0x100
  type word = x: int | 0 <= x < 0x1_0000_0000
  /** A C char holds one byte. */
  type cchar = c: char | c as int < 0x100 witness 'A'

  const WRAP: nat := 0x1_0000_0000

  function Pow2(k: nat): (p: nat)
    ensures p > 0
  {
    if k == 0 then 1 else 2 * Pow2(k - 1)
  }

  lemma PowersOfTwo()
    ensures Pow2(8) == 0x100
    ensures Pow2(16) == 0x1_0000
    ensures Pow2(24) == 0x100_0000
    ensures Pow2(32) == WRAP
  {
    assert Pow2(12) == 0x1000;
    assert Pow2(20) == 0x10_0000;
    assert Pow2(28) == 0x1000_0000;
  }

  function Zeros(n: nat): (s: seq<byte>)
    ensures |s| == n
  {
    seq(n, _ => 0)
  }

  // ---- bitwise operators ----

  datatype BitOp = AndOp | OrOp | XorOp {
    predicate Apply(p: bool, q: bool) {
      match this
      case AndOp => p && q
      case OrOp => p || q
      case XorOp => p != q
    }
  }

  /** The operator applied to every pair of bits of x and y, least significant first. */
  function Bitwise(op: BitOp, x: nat, y: nat): nat
    decreases x + y
  {
    if x == 0 && y == 0 then 0
    else (if op.Apply(x % 2 == 1, y % 2 == 1) then 1 else 0) + 2 * Bitwise(op, x / 2, y / 2)
  }

  lemma BitwiseBound(op: BitOp, k: nat, x: nat, y: nat)
    requires x < Pow2(k) && y < Pow2(k)
    ensures Bitwise(op, x, y) < Pow2(k)
  {
    if k > 0 && !(x == 0 && y == 0) {
      BitwiseBound(op, k - 1, x / 2, y / 2);
    }
  }

  function Word(op: BitOp, x: word, y: word): word {
    PowersOfTwo();
    BitwiseBound(op, 32, x, y);
    Bitwise(op, x, y)
  }

  function And(x: word, y: word): word { Word(AndOp, x, y) }
  function Or(x: word, y: word): word { Word(OrOp, x, y) }
  function Xor(x: word, y: word): word { Word(XorOp, x, y) }
  function Not(x: word): word { 0xffff_ffff - x }

  lemma AndOdd(x: nat, m: nat)
    ensures Bitwise(AndOp, x, 2 * m + 1) == x % 2 + 2 * Bitwise(AndOp, x / 2, m)
  {
    DivModUnique(2 * m + 1, 2, m, 1);
  }

  /** Masking with 2^k - 1 keeps the low k bits. */
  lemma {:induction false} MaskIsMod(x: nat, k: nat)
    ensures Bitwise(AndOp, x, Pow2(k) - 1) == x % Pow2(k)
  {
    if k == 0 {
      AndZero(x);
    } else {
      MaskIsMod(x / 2, k - 1);
      MaskStep(x, Pow2(k - 1));
    }
  }

  lemma MaskStep(x: nat, p: nat)
    requires p > 0 && Bitwise(AndOp, x / 2, p - 1) == x / 2 % p
    ensures Bitwise(AndOp, x, 2 * p - 1) == x % (2 * p)
  {
    hide Bitwise;
    AndOdd(x, p - 1);
    ModDouble(x, p);
  }

  lemma {:induction false} AndZero(x: nat)
    ensures Bitwise(AndOp, x, 0) == 0
  {
    if x > 0 {
      AndZero(x / 2);
    }
  }

  lemma ModDouble(x: nat, p: nat)
    requires p > 0
    ensures x % (2 * p) == x % 2 + 2 * (x / 2 % p)
  {
    var h := x / 2;
    var q, r := h / p, h % p;
    assert x == x % 2 + 2 * (q * p + r);
    assert x == q * (2 * p) + (x % 2 + 2 * r);
    DivModUnique(x, 2 * p, q, x % 2 + 2 * r);
  }

  lemma LeastMultiple(n: int, d: int)
    requires n > 0 && d > 0
    ensures n * d >= d
  {
  }

  lemma DivModUnique(x: int, d: int, q: int, r: int)
    requires x == q * d + r && 0 <= r < d
    ensures x / d == q && x % d == r
  {
    var q', r' := x / d, x % d;
    if q > q' {
      assert (q - q') * d == q * d - q' * d;
      LeastMultiple(q - q', d);
    } else if q < q' {
      assert (q' - q) * d == q' * d - q * d;
      LeastMultiple(q' - q, d);
    }
  }

  lemma OrEven(u: nat, y: nat)
    ensures Bitwise(OrOp, 2 * u, y) == y % 2 + 2 * Bitwise(OrOp, u, y / 2)
  {
  }

  lemma DropMultiple(q: nat, d: nat, r: nat)
    requires d > 0
    ensures (q * d + r) / d == q + r / d && (q * d + r) % d == r % d
  {
    assert (q + r / d) * d == q * d + r / d * d;
    DivModUnique(q * d + r, d, q + r / d, r % d);
  }

  /** An or of operands that share no bit is their sum. */
  lemma {:induction false} DisjointOr(x: nat, y: nat, k: nat)
    requires y < Pow2(k)
    ensures Bitwise(OrOp, x * Pow2(k), y) == x * Pow2(k) + y
  {
    if k == 0 {
      OrZero(x);
    } else {
      hide Bitwise;
      var u := x * Pow2(k - 1);
      DisjointOr(x, y / 2, k - 1);
      assert x * Pow2(k) == 2 * u by { DoubleProduct(Pow2(k - 1), x); }
      OrEven(u, y);
    }
  }

  lemma {:induction false} OrZero(x: nat)
    ensures Bitwise(OrOp, x, 0) == x
  {
    if x > 0 {
      OrZero(x / 2);
    }
  }

  lemma {:induction false} BitwiseCommutes(op: BitOp, x: nat, y: nat)
    ensures Bitwise(op, x, y) == Bitwise(op, y, x)
    decreases x + y
  {
    if x + y > 0 {
      BitwiseCommutes(op, x / 2, y / 2);
    }
  }

  // ---- single bits ----

  /** Bit k, counted from the least significant. */
  predicate Bit(w: nat, k: nat) { w / Pow2(k) % 2 == 1 }

  lemma DivTwice(w: nat, p: nat)
    requires p > 0
    ensures w / (2 * p) == w / 2 / p
  {
    var q, r := w / 2 / p, w / 2 % p;
    assert w == q * (2 * p) + (w % 2 + 2 * r);
    DivModUnique(w, 2 * p, q, w % 2 + 2 * r);
  }

  lemma BitOfHalf(w: nat, k: nat)
    requires k > 0
    ensures Bit(w, k) == Bit(w / 2, k - 1)
  {
    DivTwice(w, Pow2(k - 1));
  }

  lemma LowBit(w: nat)
    ensures Bit(w, 0) == (w % 2 == 1)
  {
  }

  lemma BitwiseHalves(op: BitOp, x: nat, y: nat)
    requires !op.Apply(false, false)
    ensures Bitwise(op, x, y) % 2 == (if op.Apply(x % 2 == 1, y % 2 == 1) then 1 else 0)
    ensures Bitwise(op, x, y) / 2 == Bitwise(op, x / 2, y / 2)
  {
  }

  lemma {:induction false} BitOfBitwise(op: BitOp, x: nat, y: nat, k: nat)
    requires !op.Apply(false, false)
    ensures Bit(Bitwise(op, x, y), k) == op.Apply(Bit(x, k), Bit(y, k))
    decreases k
  {
    hide Bitwise;
    BitwiseHalves(op, x, y);
    if k == 0 {
      LowBit(x);
      LowBit(y);
      LowBit(Bitwise(op, x, y));
    } else {
      BitOfHalf(x, k);
      BitOfHalf(y, k);
      BitOfHalf(Bitwise(op, x, y), k);
      BitOfBitwise(op, x / 2, y / 2, k - 1);
    }
  }

  lemma {:induction false} BitOfComplement(n: nat, x: nat, k: nat)
    requires x < Pow2(n) && k < n
    ensures Bit(Pow2(n) - 1 - x, k) == !Bit(x, k)
    decreases k
  {
    var c := Pow2(n) - 1 - x;
    if k == 0 {
      LowBit(x);
      LowBit(c);
    } else {
      assert c / 2 == Pow2(n - 1) - 1 - x / 2;
      BitOfHalf(x, k);
      BitOfHalf(c, k);
      BitOfComplement(n - 1, x / 2, k - 1);
    }
  }

  lemma BitOfAnd(x: word, y: word, k: nat)
    ensures Bit(And(x, y), k) == (Bit(x, k) && Bit(y, k))
  {
    BitOfBitwise(AndOp, x, y, k);
  }

  lemma BitOfOr(x: word, y: word, k: nat)
    ensures Bit(Or(x, y), k) == (Bit(x, k) || Bit(y, k))
  {
    BitOfBitwise(OrOp, x, y, k);
  }

  lemma BitOfXor(x: word, y: word, k: nat)
    ensures Bit(Xor(x, y), k) == (Bit(x, k) != Bit(y, k))
  {
    BitOfBitwise(XorOp, x, y, k);
  }

  lemma BitOfNot(x: word, k: nat)
    requires k < 32
    ensures Bit(Not(x), k) == !Bit(x, k)
  {
    hide Pow2, Bit;
    PowersOfTwo();
    BitOfComplement(32, x, k);
  }

  // ---- addition, shifts and rotation modulo 2^32 ----

  function Add(x: word, y: word): word { (x + y) % WRAP }
  function Sub(x: word, y: word): word { (x - y) % WRAP }
  function Shl(x: word, s: nat): word { x * Pow2(s) % WRAP }
  function Shr(x: word, s: nat): word
  {
    ShrFits(x, s);
    x / Pow2(s)
  }

  lemma ShrFits(x: nat, s: nat)
    ensures 0 <= x / Pow2(s) <= x
  {
    DivAtMost(x, Pow2(s));
  }

  lemma DivAtMost(x: nat, p: nat)
    requires p > 0
    ensures 0 <= x / p <= x
  {
    if x / p > 0 {
      LeastMultiple(p, x / p);
    }
  }

  function RotateLeft(x: word, s: nat): word
    requires 0 < s < 32
  {
    Or(Shl(x, s), Shr(x, 32 - s))
  }

  function RotateRight(x: word, s: nat): word
    requires 0 < s < 32
  {
    Or(Shr(x, s), Shl(x, 32 - s))
  }

  lemma {:induction false} Pow2Adds(a: nat, b: nat)
    ensures Pow2(a + b) == Pow2(a) * Pow2(b)
  {
    if a > 0 {
      Pow2Adds(a - 1, b);
      assert Pow2(a + b) == 2 * Pow2(a - 1 + b);
      DoubleProduct(Pow2(a - 1), Pow2(b));
    }
  }

  lemma {:induction false} Pow2Grows(a: nat, b: nat)
    requires a <= b
    ensures Pow2(a) <= Pow2(b)
  {
    if a < b {
      Pow2Grows(a, b - 1);
    }
  }

  lemma DoubleProduct(m: nat, n: nat)
    ensures 2 * m * n == 2 * (m * n)
  {
  }

  lemma DivModParts(x: int, d: int)
    requires d > 0
    ensures x == x / d * d + x % d
  {
  }

  lemma ProductBelow(lo: nat, q: nat, p: nat)
    requires lo < q && 0 < p
    ensures lo * p + p <= q * p
  {
    assert (q - lo) * p == q * p - lo * p;
    LeastMultiple(q - lo, p);
  }

  lemma QuotientBelow(x: nat, p: nat, q: nat)
    requires q > 0 && x < p * q
    ensures x / q < p
  {
    var hi := x / q;
    assert (p - hi) * q == p * q - hi * q;
    assert (p - hi) * q > 0;
  }

  lemma ScaleSplit(hi: nat, lo: nat, p: nat, q: nat)
    ensures (hi * q + lo) * p == hi * (p * q) + lo * p
  {
    assert (hi * q + lo) * p == hi * q * p + lo * p;
    assert hi * q * p == hi * (p * q);
  }

  lemma ScaledRemainder(x: nat, p: nat, q: nat, w: nat)
    requires p > 0 && q > 0 && p * q == w
    ensures x * p % w == x % q * p
  {
    var hi, lo := x / q, x % q;
    assert hi * q + lo == x;
    ScaleSplit(hi, lo, p, q);
    ProductBelow(lo, q, p);
    DivModUnique(x * p, w, hi, lo * p);
  }

  /** Shifting left by s drops the s high bits and moves the others up. */
  lemma ShlMovesLowBits(x: word, s: nat)
    requires s <= 32
    ensures Shl(x, s) == x % Pow2(32 - s) * Pow2(s)
  {
    hide Pow2, Bitwise;
    PowersOfTwo();
    Pow2Adds(s, 32 - s);
    ScaledRemainder(x, Pow2(s), Pow2(32 - s), WRAP);
  }

  lemma HighPartFits(x: word, s: nat)
    requires s <= 32
    ensures x / Pow2(32 - s) < Pow2(s)
  {
    hide Pow2, Bitwise;
    PowersOfTwo();
    Pow2Adds(s, 32 - s);
    QuotientBelow(x, Pow2(s), Pow2(32 - s));
  }

  /** A left rotation exchanges the s high bits of a word with the others. */
  lemma RotateLeftSwapsParts(x: word, s: nat)
    requires 0 < s < 32
    ensures RotateLeft(x, s) == x % Pow2(32 - s) * Pow2(s) + x / Pow2(32 - s)
  {
    hide Pow2, Bitwise;
    ShlMovesLowBits(x, s);
    HighPartFits(x, s);
    DisjointOr(x % Pow2(32 - s), x / Pow2(32 - s), s);
  }

  lemma RotateRightIsRotateLeft(y: word, s: nat)
    requires 0 < s < 32
    ensures RotateRight(y, s) == RotateLeft(y, 32 - s)
  {
    BitwiseCommutes(OrOp, Shr(y, s), Shl(y, 32 - s));
  }

  lemma RotateBack(x: word, s: nat)
    requires 0 < s < 32
    ensures RotateLeft(RotateLeft(x, s), 32 - s) == x
  {
    hide Pow2, RotateLeft;
    var p, q := Pow2(s), Pow2(32 - s);
    var hi, lo := x / q, x % q;
    var y := RotateLeft(x, s);
    assert y / p == lo && y % p == hi by {
      RotateLeftSwapsParts(x, s);
      HighPartFits(x, s);
      DivModUnique(y, p, lo, hi);
    }
    RotateLeftSwapsParts(y, 32 - s);
    DivModParts(x, q);
  }

  /** Rotating right undoes rotating left, and the other way round. */
  lemma RotationsCancel(x: word, s: nat)
    requires 0 < s < 32
    ensures RotateRight(RotateLeft(x, s), s) == x
    ensures RotateLeft(RotateRight(x, s), s) == x
  {
    RotateRightIsRotateLeft(RotateLeft(x, s), s);
    RotateBack(x, s);
    RotateRightIsRotateLeft(x, s);
    RotateBack(x, 32 - s);
  }
}
