/** The MD5 compression function in the uniform form of section 3.4 of RFC 1321: 64 operations, each
    with its own mixing function, word index, shift and constant, and then the feed-forward. */
module Md5Compress {
  import opened Words

  // ---- the basic functions, as the macros of our_md5.c compute them ----

  function F(x: word, y: word, z: word): word { Or(And(x, y), And(Not(x), z)) }
  function G(x: word, y: word, z: word): word { Or(And(x, z), And(y, Not(z))) }
  function H(x: word, y: word, z: word): word { Xor(Xor(x, y), z) }
  function I(x: word, y: word, z: word): word { Xor(y, Or(x, Not(z))) }

  /** What they do to each bit: F and G choose between two bits, H is a parity, and I is the second bit
      changed unless the third is set and the first is not. */
  lemma MixingBits(x: word, y: word, z: word, k: nat)
    requires k < 32
    ensures Bit(F(x, y, z), k) == if Bit(x, k) then Bit(y, k) else Bit(z, k)
    ensures Bit(G(x, y, z), k) == if Bit(z, k) then Bit(x, k) else Bit(y, k)
    ensures Bit(H(x, y, z), k) == ((Bit(x, k) != Bit(y, k)) != Bit(z, k))
    ensures Bit(I(x, y, z), k) == (Bit(y, k) != (Bit(z, k) ==> Bit(x, k)))
  {
    hide Bit, And, Or, Xor, Not;
    BitOfNot(x, k);
    BitOfNot(z, k);
    BitOfAnd(x, y, k);
    BitOfAnd(Not(x), z, k);
    BitOfOr(And(x, y), And(Not(x), z), k);
    BitOfAnd(x, z, k);
    BitOfAnd(y, Not(z), k);
    BitOfOr(And(x, z), And(y, Not(z)), k);
    BitOfXor(x, y, k);
    BitOfXor(Xor(x, y), z, k);
    BitOfOr(x, Not(z), k);
    BitOfXor(y, Or(x, Not(z)), k);
  }

  // ---- the uniform description ----

  /** The four-word buffer (A, B, C, D). */
  datatype Quad = Quad(a: word, b: word, c: word, d: word)

  type Block = x: seq<word> | |x| == 16 witness seq(16, _ => 0)

  function Mix(i: nat, x: word, y: word, z: word): word
  {
    if i < 16 then F(x, y, z) else if i < 32 then G(x, y, z) else if i < 48 then H(x, y, z) else I(x, y, z)
  }

  function WordIndex(i: nat): (k: nat)
    ensures k < 16
  {
    if i < 16 then i else if i < 32 then (5 * i + 1) % 16 else if i < 48 then (3 * i + 5) % 16 else 7 * i % 16
  }

  function Shift(i: nat): (s: nat)
    ensures 0 < s < 32
  {
    var k := i % 4;
    if i < 16 then FourWay(k, 7, 12, 17, 22)
    else if i < 32 then FourWay(k, 5, 9, 14, 20)
    else if i < 48 then FourWay(k, 4, 11, 16, 23)
    else FourWay(k, 6, 10, 15, 21)
  }

  function FourWay(k: nat, s0: nat, s1: nat, s2: nat, s3: nat): nat {
    if k == 0 then s0 else if k == 1 then s1 else if k == 2 then s2 else s3
  }

  /** The table T of section 3.4, a row of sixteen for each round. */
  function Sine(i: nat): word
    requires i < 64
  {
    if i < 16 then SineRow1(i) else if i < 32 then SineRow2(i - 16) else if i < 48 then SineRow3(i - 32)
    else SineRow4(i - 48)
  }

  function SineRow1(k: nat): word
    requires k < 16
  {
    match k
    case 0 => 0xd76aa478 case 1 => 0xe8c7b756 case 2 => 0x242070db case 3 => 0xc1bdceee
    case 4 => 0xf57c0faf case 5 => 0x4787c62a case 6 => 0xa8304613 case 7 => 0xfd469501
    case 8 => 0x698098d8 case 9 => 0x8b44f7af case 10 => 0xffff5bb1 case 11 => 0x895cd7be
    case 12 => 0x6b901122 case 13 => 0xfd987193 case 14 => 0xa679438e case 15 => 0x49b40821
  }

  function SineRow2(k: nat): word
    requires k < 16
  {
    match k
    case 0 => 0xf61e2562 case 1 => 0xc040b340 case 2 => 0x265e5a51 case 3 => 0xe9b6c7aa
    case 4 => 0xd62f105d case 5 => 0x02441453 case 6 => 0xd8a1e681 case 7 => 0xe7d3fbc8
    case 8 => 0x21e1cde6 case 9 => 0xc33707d6 case 10 => 0xf4d50d87 case 11 => 0x455a14ed
    case 12 => 0xa9e3e905 case 13 => 0xfcefa3f8 case 14 => 0x676f02d9 case 15 => 0x8d2a4c8a
  }

  function SineRow3(k: nat): word
    requires k < 16
  {
    match k
    case 0 => 0xfffa3942 case 1 => 0x8771f681 case 2 => 0x6d9d6122 case 3 => 0xfde5380c
    case 4 => 0xa4beea44 case 5 => 0x4bdecfa9 case 6 => 0xf6bb4b60 case 7 => 0xbebfbc70
    case 8 => 0x289b7ec6 case 9 => 0xeaa127fa case 10 => 0xd4ef3085 case 11 => 0x04881d05
    case 12 => 0xd9d4d039 case 13 => 0xe6db99e5 case 14 => 0x1fa27cf8 case 15 => 0xc4ac5665
  }

  function SineRow4(k: nat): word
    requires k < 16
  {
    match k
    case 0 => 0xf4292244 case 1 => 0x432aff97 case 2 => 0xab9423a7 case 3 => 0xfc93a039
    case 4 => 0x655b59c3 case 5 => 0x8f0ccc92 case 6 => 0xffeff47d case 7 => 0x85845dd1
    case 8 => 0x6fa87e4f case 9 => 0xfe2ce6e0 case 10 => 0xa3014314 case 11 => 0x4e0811a1
    case 12 => 0xf7537e82 case 13 => 0xbd3af235 case 14 => 0x2ad7d2bb case 15 => 0xeb86d391
  }

  // ---- laws of the tables ----

  /** The shifts of a round grow evenly, or by one more each time, or by 7 and 5 in turn. */
  lemma ShiftsGrow(i: nat)
    requires i < 64
    ensures var k := i % 4;
      Shift(i) == if i < 16 then 7 + 5 * k
                  else if i < 32 then 5 + k * (k + 7) / 2
                  else if i < 48 then 4 + 6 * k + k % 2
                  else 6 + k * (k + 7) / 2
  {
    var k := i % 4;
    assert k == 0 || k == 1 || k == 2 || k == 3;
  }

  /** Entry i with the sign of the sine of i + 1 radians. */
  function SignedSine(i: nat): int
    requires i < 64
  {
    var t: int := Sine(i);
    if 3 <= i < 6 || 9 <= i < 12 || 15 <= i < 18 || 21 <= i < 25 || 28 <= i < 31 || 34 <= i < 37
       || 40 <= i < 43 || 47 <= i < 50 || 53 <= i < 56 || 59 <= i < 62
    then -t else t
  }

  /** The sum of the neighbours of entry i is the entry times twice the cosine of one radian, here to 15
      decimal places, but for an error below 2 that comes from cutting the entries to whole numbers. */
  predicate SineStep(i: nat)
    requires i < 63
  {
    var neighbours := SignedSine(i + 1) + if i == 0 then 0 else SignedSine(i - 1);
    var error := neighbours * 1_000_000_000_000_000 - 1_080_604_611_736_279 * SignedSine(i);
    -2_000_000_000_000_000 < error < 2_000_000_000_000_000
  }

  lemma SinesRow1()
    ensures SineStep(0) && SineStep(1) && SineStep(2) && SineStep(3)
    ensures SineStep(4) && SineStep(5) && SineStep(6) && SineStep(7)
  {
  }

  lemma SinesRow2()
    ensures SineStep(8) && SineStep(9) && SineStep(10) && SineStep(11)
    ensures SineStep(12) && SineStep(13) && SineStep(14) && SineStep(15)
  {
  }

  lemma SinesRow3()
    ensures SineStep(16) && SineStep(17) && SineStep(18) && SineStep(19)
    ensures SineStep(20) && SineStep(21) && SineStep(22) && SineStep(23)
  {
  }

  lemma SinesRow4()
    ensures SineStep(24) && SineStep(25) && SineStep(26) && SineStep(27)
    ensures SineStep(28) && SineStep(29) && SineStep(30) && SineStep(31)
  {
  }

  lemma SinesRow5()
    ensures SineStep(32) && SineStep(33) && SineStep(34) && SineStep(35)
    ensures SineStep(36) && SineStep(37) && SineStep(38) && SineStep(39)
  {
  }

  lemma SinesRow6()
    ensures SineStep(40) && SineStep(41) && SineStep(42) && SineStep(43)
    ensures SineStep(44) && SineStep(45) && SineStep(46) && SineStep(47)
  {
  }

  lemma SinesRow7()
    ensures SineStep(48) && SineStep(49) && SineStep(50) && SineStep(51)
    ensures SineStep(52) && SineStep(53) && SineStep(54) && SineStep(55)
  {
  }

  lemma SinesRow8()
    ensures SineStep(56) && SineStep(57) && SineStep(58) && SineStep(59)
    ensures SineStep(60) && SineStep(61) && SineStep(62)
  {
  }

  /** The table lists sines of equally spaced angles: every three neighbours, from the sine of zero on, obey
      the addition theorem. */
  lemma SinesOfEqualSteps(i: nat)
    requires i < 63
    ensures SineStep(i)
  {
    hide SineStep, SignedSine, Sine, SineRow1, SineRow2, SineRow3, SineRow4;
    if i < 8 {
      SinesRow1();
    } else if i < 16 {
      SinesRow2();
    } else if i < 24 {
      SinesRow3();
    } else if i < 32 {
      SinesRow4();
    } else if i < 40 {
      SinesRow5();
    } else if i < 48 {
      SinesRow6();
    } else if i < 56 {
      SinesRow7();
    } else {
      SinesRow8();
    }
  }

  /** Their scale: the square of the first and the square of its cosine, 0.540302... times 2^32, add up to the
      square of 2^32, to within 2^33. */
  lemma FirstSine()
    ensures var cosine := 2_320_580_734;
      -0x2_0000_0000 < Sine(0) * Sine(0) + cosine * cosine - WRAP * WRAP < 0x2_0000_0000
  {
  }

  /** b + ((a + mixed + x + t) <<< s), all modulo 2^32. */
  function Turn(a: word, b: word, mixed: word, x: word, s: nat, t: word): word
    requires 0 < s < 32
  {
    (b + RotateLeft((a + mixed + x + t) % WRAP, s)) % WRAP
  }

  /** A takes the turn, then the names move round, so that the roles need not. */
  function Operate(q: Quad, mixed: word, x: word, s: nat, t: word): Quad
    requires 0 < s < 32
  {
    Quad(q.d, Turn(q.a, q.b, mixed, x, s, t), q.b, q.c)
  }

  /** Operation i. */
  function Step(i: nat, q: Quad, x: Block): Quad
    requires i < 64
  {
    Operate(q, Mix(i, q.b, q.c, q.d), x[WordIndex(i)], Shift(i), Sine(i))
  }

  /** The n operations lo, lo + 1, ..., lo + n - 1 in turn. */
  function Steps(lo: nat, n: nat, q: Quad, x: Block): Quad
    requires lo + n <= 64
    decreases n
  {
    if n == 0 then q else Step(lo + n - 1, Steps(lo, n - 1, q, x), x)
  }

  function AddQuads(p: Quad, q: Quad): Quad {
    Quad(Add(p.a, q.a), Add(p.b, q.b), Add(p.c, q.c), Add(p.d, q.d))
  }

  /** Four operations for each of the sixteen words, then the feed-forward. */
  function Compress(q: Quad, x: Block): Quad {
    AddQuads(q, Steps(0, 4 * |x|, q, x))
  }

  lemma {:induction false} StepsCompose(lo: nat, m: nat, n: nat, q: Quad, x: Block)
    requires lo + m + n <= 64
    ensures Steps(lo + m, n, Steps(lo, m, q, x), x) == Steps(lo, m + n, q, x)
  {
    hide Step;
    if n > 0 {
      StepsCompose(lo, m, n - 1, q, x);
    }
  }

  // ---- every operation can be undone ----

  function Unoperate(r: Quad, mixed: word, x: word, s: nat, t: word): Quad
    requires 0 < s < 32
  {
    Quad((RotateRight(Sub(r.b, r.c), s) - mixed - x - t) % WRAP, r.c, r.d, r.a)
  }

  function Unstep(i: nat, r: Quad, x: Block): Quad
    requires i < 64
  {
    Unoperate(r, Mix(i, r.c, r.d, r.a), x[WordIndex(i)], Shift(i), Sine(i))
  }

  /** Undoes operations n - 1, n - 2, ..., 0. */
  function Unsteps(n: nat, r: Quad, x: Block): Quad
    requires n <= 64
  {
    if n == 0 then r else Unsteps(n - 1, Unstep(n - 1, r, x), x)
  }

  lemma WrapCancels(a: word, k: int)
    ensures ((a + k) % WRAP - k) % WRAP == a
    ensures ((a - k) % WRAP + k) % WRAP == a
  {
    ModThenAdd(a + k, -k);
    ModThenAdd(a - k, k);
  }

  lemma ModThenAdd(x: int, k: int)
    ensures (x % WRAP + k) % WRAP == (x + k) % WRAP
  {
    var q, r := x / WRAP, x % WRAP + k;
    assert x + k == (q + r / WRAP) * WRAP + r % WRAP;
    DivModUnique(x + k, WRAP, q + r / WRAP, r % WRAP);
  }

  lemma TurnMinusB(a: word, b: word, mixed: word, x: word, s: nat, t: word)
    requires 0 < s < 32
    ensures Sub(Turn(a, b, mixed, x, s, t), b) == RotateLeft((a + mixed + x + t) % WRAP, s)
  {
    hide RotateLeft;
    WrapCancels(RotateLeft((a + mixed + x + t) % WRAP, s), b);
  }

  lemma OperateUndone(q: Quad, mixed: word, x: word, s: nat, t: word)
    requires 0 < s < 32
    ensures Unoperate(Operate(q, mixed, x, s, t), mixed, x, s, t) == q
  {
    hide RotateLeft, RotateRight;
    TurnMinusB(q.a, q.b, mixed, x, s, t);
    RotationsCancel((q.a + mixed + x + t) % WRAP, s);
    WrapCancels(q.a, mixed + x + t);
  }

  lemma TurnFromDifference(sum: word, a: word, b: word, v: word, mixed: word, x: word, s: nat, t: word)
    requires 0 < s < 32
    requires (a + mixed + x + t) % WRAP == sum && RotateLeft(sum, s) == Sub(v, b)
    ensures Turn(a, b, mixed, x, s, t) == v
  {
    WrapCancels(v, b);
  }

  lemma OperateRedone(r: Quad, mixed: word, x: word, s: nat, t: word)
    requires 0 < s < 32
    ensures Operate(Unoperate(r, mixed, x, s, t), mixed, x, s, t) == r
  {
    hide RotateLeft, RotateRight;
    var turned := RotateRight(Sub(r.b, r.c), s);
    RotationsCancel(Sub(r.b, r.c), s);
    WrapCancels(turned, mixed + x + t);
    TurnFromDifference(turned, (turned - mixed - x - t) % WRAP, r.c, r.b, mixed, x, s, t);
  }

  lemma StepUndone(i: nat, q: Quad, x: Block)
    requires i < 64
    ensures Unstep(i, Step(i, q, x), x) == q
    ensures Step(i, Unstep(i, q, x), x) == q
  {
    OperateUndone(q, Mix(i, q.b, q.c, q.d), x[WordIndex(i)], Shift(i), Sine(i));
    OperateRedone(q, Mix(i, q.c, q.d, q.a), x[WordIndex(i)], Shift(i), Sine(i));
  }

  /** For a fixed block the operations are a bijection on the buffer: Unsteps undoes them on every
      buffer, and they undo Unsteps. */
  lemma {:induction false} StepsAreInvertible(n: nat, q: Quad, x: Block)
    requires n <= 64
    ensures Unsteps(n, Steps(0, n, q, x), x) == q
    ensures Steps(0, n, Unsteps(n, q, x), x) == q
  {
    if n > 0 {
      StepUndone(n - 1, Steps(0, n - 1, q, x), x);
      StepsAreInvertible(n - 1, q, x);
      StepsAreInvertible(n - 1, Unstep(n - 1, q, x), x);
      StepUndone(n - 1, q, x);
    }
  }

  lemma AddTakenBack(x: word, v: word)
    ensures Sub(Add(x, v), x) == v
  {
  }

  /** Taking the old buffer off the new one word by word and running the operations in reverse gives the
      old buffer. */
  lemma CompressUndone(q: Quad, x: Block)
    ensures var c := Compress(q, x);
      Unsteps(4 * |x|, Quad(Sub(c.a, q.a), Sub(c.b, q.b), Sub(c.c, q.c), Sub(c.d, q.d)), x) == q
  {
    var r := Steps(0, 4 * |x|, q, x);
    hide Steps, Unsteps;
    AddTakenBack(q.a, r.a);
    AddTakenBack(q.b, r.b);
    AddTakenBack(q.c, r.c);
    AddTakenBack(q.d, r.d);
    StepsAreInvertible(4 * |x|, q, x);
  }

  lemma AddUnchanged(x: word, v: word)
    ensures Add(x, v) == x <==> v == 0
  {
  }

  /** Hence every block leaves exactly one buffer unchanged. */
  lemma OneFixedBuffer(q: Quad, x: Block)
    ensures Compress(q, x) == q <==> q == Unsteps(4 * |x|, Quad(0, 0, 0, 0), x)
  {
    var r := Steps(0, 4 * |x|, q, x);
    AddUnchanged(q.a, r.a);
    AddUnchanged(q.b, r.b);
    AddUnchanged(q.c, r.c);
    AddUnchanged(q.d, r.d);
    StepsAreInvertible(4 * |x|, q, x);
    StepsAreInvertible(4 * |x|, Quad(0, 0, 0, 0), x);
  }
}
