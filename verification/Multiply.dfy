/** machine/mipssim.cc, Mult: shift-and-add multiplication of 32-bit words into a 64-bit result. */
module Multiplication {
  import opened Layout

  const DOUBLE_LIMIT: int := WORD_LIMIT * WORD_LIMIT

  /** The 64-bit word in a pair of registers. */
  function Double(hi: CInt, lo: CInt): (d: nat)
    ensures d < DOUBLE_LIMIT
  {
    Unsigned(hi) * WORD_LIMIT + Unsigned(lo)
  }

  function Pow2(i: nat): (p: nat)
    ensures p > 0 && (i > 0 ==> p % 2 == 0)
  {
    if i == 0 then 1 else 2 * Pow2(i - 1)
  }

  lemma Pow32()
    ensures Pow2(32) == WORD_LIMIT
  {
    assert Pow2(8) == 256;
    assert Pow2(16) == 256 * Pow2(8);
    assert Pow2(24) == 256 * Pow2(16);
    assert Pow2(32) == 256 * Pow2(24);
  }

  lemma MulMonotone(x: nat, y: nat, z: nat)
    requires x <= y
    ensures x * z <= y * z
  {
  }

  /** A product of two words fits in two words. */
  lemma ProductFits(a: nat, b: nat)
    requires a < WORD_LIMIT && b < WORD_LIMIT
    ensures a * b <= (WORD_LIMIT - 1) * (WORD_LIMIT - 1) < DOUBLE_LIMIT
  {
    MulMonotone(a, WORD_LIMIT - 1, b);
  }

  /** A 64-bit number held in halves. */
  function Join(hi: nat, lo: nat): nat {
    hi * WORD_LIMIT + lo
  }

  /** Adding one such number to another, with the carry found by comparison. */
  method AddHalves(hi: nat, lo: nat, bHi: nat, bLo: nat) returns (hi': nat, lo': nat)
    requires hi < WORD_LIMIT && lo < WORD_LIMIT && bHi < WORD_LIMIT && bLo < WORD_LIMIT
    requires Join(hi, lo) + Join(bHi, bLo) < DOUBLE_LIMIT
    ensures hi' < WORD_LIMIT && lo' < WORD_LIMIT
    ensures Join(hi', lo') == Join(hi, lo) + Join(bHi, bLo)
  {
    lo' := (lo + bLo) % WORD_LIMIT;
    hi' := hi;
    if lo' < bLo {
      hi' := (hi' + 1) % WORD_LIMIT;
    }
    hi' := (hi' + bHi) % WORD_LIMIT;
  }

  method DoubleHalves(bHi: nat, bLo: nat) returns (bHi': nat, bLo': nat)
    requires bHi < WORD_LIMIT && bLo < WORD_LIMIT && 2 * Join(bHi, bLo) < DOUBLE_LIMIT
    ensures bHi' < WORD_LIMIT && bLo' < WORD_LIMIT
    ensures Join(bHi', bLo') == 2 * Join(bHi, bLo)
  {
    bHi' := (bHi * 2) % WORD_LIMIT;
    if bLo >= INT_LIMIT {
      bHi' := bHi' + 1;
    }
    bLo' := (bLo * 2) % WORD_LIMIT;
  }

  /** The two's complement of such a number, not zero. */
  method NegateHalves(hi: nat, lo: nat) returns (hi': nat, lo': nat)
    requires hi < WORD_LIMIT && lo < WORD_LIMIT && Join(hi, lo) > 0
    ensures hi' < WORD_LIMIT && lo' < WORD_LIMIT
    ensures Join(hi', lo') == DOUBLE_LIMIT - Join(hi, lo)
  {
    hi' := WORD_LIMIT - 1 - hi;
    lo' := WORD_LIMIT - 1 - lo;
    lo' := (lo' + 1) % WORD_LIMIT;
    if lo' == 0 {
      hi' := (hi' + 1) % WORD_LIMIT;
    }
  }

  /** The low i bits of a number, and the rest. */
  function Low(n: nat, i: nat): nat {
    n % Pow2(i)
  }

  function High(n: nat, i: nat): int {
    n / Pow2(i)
  }

  /** After i rounds: the low i bits of the multiplier have been used, and what is left of it has been shifted
      down arithmetically, so that a negative one is still negative. */
  ghost predicate Round(a0: CInt, b: nat, i: nat, a: int, sum: nat, shifted: nat) {
    && i <= 32
    && sum == b * Low(Unsigned(a0), i) && shifted == b * Pow2(i)
    && a == High(Unsigned(a0), i) - (if a0 < 0 then Pow2(32 - i) else 0)
  }

  /** The next bit of a number, as Pow2 goes up. */
  lemma SplitBit(n: nat, p: nat)
    requires p > 0
    ensures n / (2 * p) == n / p / 2
    ensures n % (2 * p) == n % p + p * (n / p % 2)
  {
    var q := n / p;
    DivMod(n, p);
    assert q == 2 * (q / 2) + q % 2;
    MulParts(p, q / 2, q % 2);
    assert n == (2 * p) * (q / 2) + (n % p + p * (q % 2));
    BitBound(p, q % 2);
    DivModUnique(n, 2 * p, q / 2, n % p + p * (q % 2));
  }

  lemma DivMod(n: nat, p: nat)
    requires p > 0
    ensures n == p * (n / p) + n % p
  {
  }

  lemma MulParts(p: nat, x: nat, y: nat)
    ensures p * (2 * x + y) == (2 * p) * x + p * y
  {
  }

  lemma BitBound(p: nat, y: nat)
    requires y < 2
    ensures p * y == if y == 1 then p else 0
  {
  }

  lemma MultipleBelow(d: nat, x: nat, y: nat)
    ensures x < y ==> d * x + d <= d * y
    ensures x <= y ==> d * x <= d * y
  {
    if x < y {
      MulMonotone(x + 1, y, d);
      assert d * (x + 1) == d * x + d;
    }
  }

  lemma DivModUnique(n: nat, d: nat, q: nat, r: nat)
    requires d > 0 && r < d && n == d * q + r
    ensures n / d == q && n % d == r
  {
    DivMod(n, d);
    var k := n / d;
    assert d * k + n % d == d * q + r;
    MultipleBelow(d, k, q);
    MultipleBelow(d, q, k);
  }

  lemma MulSum(b: nat, x: nat, y: nat)
    ensures b * (x + y) == b * x + b * y && b * (2 * x) == 2 * (b * x)
  {
  }

  lemma Halve(u: int, p: int)
    requires p % 2 == 0
    ensures (u - p) / 2 == u / 2 - p / 2 && (u as int - p) % 2 == u % 2
  {
  }

  lemma NextBit(n: nat, i: nat)
    ensures High(n, i + 1) == High(n, i) / 2
    ensures Low(n, i + 1) == Low(n, i) + if High(n, i) % 2 == 1 then Pow2(i) else 0
    ensures Low(n, i + 1) <= n
  {
    SplitBit(n, Pow2(i));
    BitBound(Pow2(i), n / Pow2(i) % 2);
    LowBits(n, 2 * Pow2(i));
  }

  lemma PowStep(i: nat)
    ensures Pow2(i + 1) == 2 * Pow2(i)
  {
  }

  lemma NextRound(a0: CInt, b: nat, i: nat, a: int, sum: nat, shifted: nat)
    requires Round(a0, b, i, a, sum, shifted) && i < 32 && b < WORD_LIMIT
    ensures 2 * shifted < DOUBLE_LIMIT
    ensures a % 2 != 0 ==> sum + shifted < DOUBLE_LIMIT
    ensures Round(a0, b, i + 1, a / 2, if a % 2 != 0 then sum + shifted else sum, 2 * shifted)
  {
    hide High, Low, Pow2, Unsigned;
    var n := Unsigned(a0);
    NextBit(n, i);
    Halve(High(n, i), Pow2(32 - i));
    PowStep(i);
    PowStep(31 - i);
    MulSum(b, Low(n, i), Pow2(i));
    MulSum(b, Pow2(i), 0);
    ShiftFits(b, i);
    ProductFits(b, Low(n, i + 1));
  }

  lemma LowBits(n: nat, p: nat)
    requires p > 0
    ensures n % p <= n
  {
    DivMod(n, p);
  }

  /** The shifted multiplicand never loses a bit. */
  lemma ShiftFits(b: nat, i: nat)
    requires b < WORD_LIMIT && i < 32
    ensures 2 * (b * Pow2(i)) < DOUBLE_LIMIT
  {
    Pow32();
    PowMonotone(i + 1, 32);
    MulSum(b, Pow2(i), 0);
    MulMonotone(2 * Pow2(i), WORD_LIMIT, b);
    assert b * (2 * Pow2(i)) <= b * WORD_LIMIT;
  }

  lemma {:induction false} PowMonotone(i: nat, j: nat)
    requires i <= j
    ensures Pow2(i) <= Pow2(j)
  {
    if i < j {
      PowMonotone(i, j - 1);
    }
  }

  /** Stopping early is right: with this bit used, no other is left. */
  lemma LastRound(a0: CInt, b: nat, i: nat, a: int, sum: nat, shifted: nat)
    requires Round(a0, b, i, a, sum, shifted)
    requires i == 32 || (a == 1 && i < 32)
    ensures (if i == 32 then sum else sum + shifted) == Unsigned(a0) * b
  {
    hide High, Low, Pow2, Unsigned;
    var n := Unsigned(a0);
    if i == 32 {
      AllBits(n);
    } else {
      QuotientBound(n, i);
      SingleBit(n, i);
      MulSum(b, Low(n, i), Pow2(i));
    }
  }

  lemma AllBits(n: nat)
    requires n < WORD_LIMIT
    ensures Low(n, 32) == n
  {
    Pow32();
  }

  lemma SingleBit(n: nat, i: nat)
    requires High(n, i) == 1
    ensures n == Low(n, i) + Pow2(i)
  {
    DivMod(n, Pow2(i));
  }

  lemma QuotientBound(n: nat, i: nat)
    requires n < WORD_LIMIT && i <= 32
    ensures High(n, i) < Pow2(32 - i)
  {
    hide High, Pow2;
    PowSum(i, 32 - i);
    Pow32();
    HighTimes(n, i);
    MultipleBelow(Pow2(i), Pow2(32 - i), High(n, i));
  }

  lemma HighTimes(n: nat, i: nat)
    ensures 0 <= High(n, i) && Pow2(i) * High(n, i) <= n
  {
    hide Pow2;
    DivBound(n, Pow2(i));
  }

  lemma DivBound(n: nat, p: nat)
    requires p > 0
    ensures 0 <= n / p && p * (n / p) <= n
  {
    DivMod(n, p);
  }

  lemma {:induction false} PowSum(i: nat, j: nat)
    ensures Pow2(i) * Pow2(j) == Pow2(i + j)
  {
    if j > 0 {
      PowSum(i, j - 1);
      MulSum(Pow2(i), Pow2(j - 1), 0);
    }
  }

  /** The main loop: a's bits one at a time from the right, an arithmetic shift bringing the next one down;
      it stops early once the bit just used was the last one set. */
  method MultiplyUnsigned(a0: CInt, b: CInt) returns (hi: nat, lo: nat)
    ensures hi < WORD_LIMIT && lo < WORD_LIMIT && Join(hi, lo) == Product(a0, b, false)
  {
    hide Round, Pow2;
    var a: int := a0;
    var bLo: nat := Unsigned(b);
    var bHi: nat := 0;
    hi, lo := 0, 0;
    FirstRound(a0, Unsigned(b));
    for i := 0 to 32
      invariant hi < WORD_LIMIT && lo < WORD_LIMIT && bHi < WORD_LIMIT && bLo < WORD_LIMIT
      invariant Round(a0, Unsigned(b), i, a, Join(hi, lo), Join(bHi, bLo))
    {
      ghost var sum, shifted := Join(hi, lo), Join(bHi, bLo);
      NextRound(a0, Unsigned(b), i, a, sum, shifted);
      if a % 2 != 0 {
        hi, lo := AddHalves(hi, lo, bHi, bLo);
        if a == 0 || a == 1 {
          LastRound(a0, Unsigned(b), i, a, sum, shifted);
          return;
        }
      }
      bHi, bLo := DoubleHalves(bHi, bLo);
      a := a / 2;
    }
    LastRound(a0, Unsigned(b), 32, a, Join(hi, lo), Join(bHi, bLo));
  }

  lemma FirstRound(a0: CInt, b: nat)
    ensures Round(a0, b, 0, a0, 0, b)
  {
    Pow32();
  }

  /** The product of two registers, as signed or as unsigned numbers. */
  function Product(a: CInt, b: CInt, signedArith: bool): int {
    if signedArith then a as int * b as int else Unsigned(a) * Unsigned(b)
  }

  /** Mult: the registers hold the exact 64-bit product, for every pair of operands, -2^31 included. */
  method Mult(a0: CInt, b0: CInt, signedArith: bool) returns (hi: CInt, lo: CInt)
    ensures Double(hi, lo) == Product(a0, b0, signedArith) % DOUBLE_LIMIT
  {
    hide Unsigned, Wrap, Product, Double, Join;
    if a0 == 0 || b0 == 0 {
      ZeroProduct(a0, b0, signedArith);
      return 0, 0;
    }
    var a, b, negative := a0, b0, false;
    if signedArith {
      if a < 0 {
        negative := !negative;
        a := Wrap(-(a as int));
      }
      if b < 0 {
        negative := !negative;
        b := Wrap(-(b as int));
      }
    }
    Signs(a0, b0, a, b, signedArith, negative);
    var h, l := MultiplyUnsigned(a, b);
    if negative {
      h, l := NegateHalves(h, l);
    }
    Packed(h, l);
    hi, lo := Wrap(h), Wrap(l);
  }

  lemma Packed(hi: nat, lo: nat)
    requires hi < WORD_LIMIT && lo < WORD_LIMIT
    ensures Double(Wrap(hi), Wrap(lo)) == Join(hi, lo)
  {
    WrapUnsigned(hi);
    WrapUnsigned(lo);
  }

  lemma ZeroProduct(a: CInt, b: CInt, signedArith: bool)
    requires a == 0 || b == 0
    ensures Double(0, 0) == Product(a, b, signedArith) % DOUBLE_LIMIT
  {
  }

  /** The magnitude of an int, as Mult takes it. */
  function Magnitude(n: CInt, signedArith: bool): CInt {
    if signedArith && n < 0 then Wrap(-(n as int)) else n
  }

  lemma MagnitudeValue(n: CInt)
    ensures Unsigned(Magnitude(n, true)) == if n < 0 then -(n as int) else n
  {
  }

  lemma PlainMagnitude(n: CInt)
    ensures Magnitude(n, false) == n && (n != 0 ==> Unsigned(n) > 0)
  {
  }

  lemma SignOfProduct(x: int, y: int, m: nat, n: nat)
    requires m == (if x < 0 then -x else x) && n == (if y < 0 then -y else y)
    ensures x * y == if (x < 0) != (y < 0) then -(m * n) else m * n
    ensures x != 0 && y != 0 ==> m * n > 0
  {
  }

  lemma Signs(a0: CInt, b0: CInt, a: CInt, b: CInt, signedArith: bool, negative: bool)
    requires a0 != 0 && b0 != 0 && a == Magnitude(a0, signedArith) && b == Magnitude(b0, signedArith)
    requires negative <==> signedArith && ((a0 < 0) != (b0 < 0))
    ensures var product := Product(a, b, false);
            && 0 < product
            && (if negative then DOUBLE_LIMIT - product else product) == Product(a0, b0, signedArith) % DOUBLE_LIMIT
  {
    hide Unsigned, Magnitude;
    ProductFits(Unsigned(a), Unsigned(b));
    PlainMagnitude(a0);
    PlainMagnitude(b0);
    if signedArith {
      MagnitudeValue(a0);
      MagnitudeValue(b0);
      SignOfProduct(a0, b0, Unsigned(a), Unsigned(b));
    } else {
      SignOfProduct(Unsigned(a), Unsigned(b), Unsigned(a), Unsigned(b));
    }
  }
}
