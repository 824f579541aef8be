/**
  Exact powers of two and the bitwise operations of natural numbers.

  Bytes and 32-bit words are natural numbers here.  `And` and `Or` are Go's
  `&` and `|` on unsigned operands, `ShiftRight(x, k)` is `x >> k` and
  `Low(x, k)` is `x & (1<<k - 1)`, the k low bits of x.  Each is defined bit
  by bit from the least significant bit: bit 0 of the result comes from bit 0
  of the operands, and the rest is the same operation on the operands halved.
*/
module Bits {

  /** 2 to the power k; the calculator's `math.Pow(2, k)`, exactly. */
  function Pow2(k: nat): (r: nat)
    ensures r >= 1
  {
    if k == 0 then 1 else 2 * Pow2(k - 1)
  }

  lemma {:induction false} Pow2Add(a: nat, b: nat)
    ensures Pow2(a + b) == Pow2(a) * Pow2(b)
  {
    if a > 0 {
      Pow2Add(a - 1, b);
    }
  }

  /** One byte holds 2^8 values. */
  lemma Pow2Byte()
    ensures Pow2(8) == 256
  {
  }

  /** A larger exponent gives at least twice the power. */
  lemma {:induction false} Pow2Monotonic(a: nat, b: nat)
    requires a < b
    ensures 2 * Pow2(a) <= Pow2(b)
  {
    if a + 1 < b {
      Pow2Monotonic(a, b - 1);
    }
  }

  /** Pow2 on the exponents of the bits of a byte. */
  lemma Pow2Small()
    ensures Pow2(0) == 1 && Pow2(1) == 2 && Pow2(2) == 4 && Pow2(3) == 8
    ensures Pow2(4) == 16 && Pow2(5) == 32 && Pow2(6) == 64 && Pow2(7) == 128
    ensures Pow2(8) == 256
  {
  }

  lemma MulWithin(d: int, k: int)
    requires d > 0 && -d < d * k < d
    ensures k == 0
  {
  }

  /** Quotient and remainder are determined by the division identity. */
  lemma DivModUnique(x: int, d: int, q: int, r: int)
    requires d > 0 && x == d * q + r && 0 <= r < d
    ensures x / d == q && x % d == r
  {
    var t, s := x / d, x % d;
    assert x == d * t + s;
    assert d * (q - t) == s - r;
    MulWithin(d, q - t);
  }

  /** Go's `x >> k` on an unsigned operand. */
  function ShiftRight(x: nat, k: nat): (r: nat)
    ensures r <= x
  {
    if k == 0 then x else ShiftRight(x / 2, k - 1)
  }

  /** The k low bits of x. */
  function Low(x: nat, k: nat): (r: nat)
    ensures r <= x && r < Pow2(k)
  {
    if k == 0 then 0 else 2 * Low(x / 2, k - 1) + x % 2
  }

  /** The defining step of Low, read back. */
  lemma LowStep(x: nat, k: nat)
    requires k > 0
    ensures Low(x, k) / 2 == Low(x / 2, k - 1) && Low(x, k) % 2 == x % 2
  {
  }

  /** A value below 2^k is its own k low bits. */
  lemma {:induction false} LowSmall(x: nat, k: nat)
    requires x < Pow2(k)
    ensures Low(x, k) == x
  {
    if k > 0 {
      LowSmall(x / 2, k - 1);
    }
  }

  /** Doubling one factor doubles the product. */
  lemma TwiceProduct(a: int, p: int, q: int)
    requires a == 2 * p
    ensures a * q == 2 * (p * q)
  {
  }

  /** A number is its high bits shifted back up plus its low bits. */
  lemma {:induction false} ShiftRightLow(x: nat, k: nat)
    ensures x == Pow2(k) * ShiftRight(x, k) + Low(x, k)
  {
    if k > 0 {
      var p, q, l := Pow2(k - 1), ShiftRight(x / 2, k - 1), Low(x / 2, k - 1);
      ShiftRightLow(x / 2, k - 1);
      assert ShiftRight(x, k) == q && Low(x, k) == 2 * l + x % 2;
      TwiceProduct(Pow2(k), p, q);
    }
  }

  /** On a byte boundary the shift and the low bits are the quotient and the
      remainder by 256. */
  lemma ByteBoundary(x: nat)
    ensures ShiftRight(x, 8) == x / 256 && Low(x, 8) == x % 256
  {
    ShiftRightLow(x, 8);
    Pow2Small();
    DivModUnique(x, 256, ShiftRight(x, 8), Low(x, 8));
  }

  /** Clearing the low h bits leaves a value whose low h bits are clear. */
  lemma {:induction false} LowOfRoundedDown(x: nat, h: nat)
    ensures Low(x - Low(x, h), h) == 0
  {
    if h > 0 {
      LowOfRoundedDown(x / 2, h - 1);
      assert (x - Low(x, h)) / 2 == x / 2 - Low(x / 2, h - 1);
    }
  }

  /** For an n with clear low h bits, each value in [n, n + 2^h) is n plus
      its low h bits. */
  lemma {:induction false} LowInBlock(x: nat, n: nat, h: nat)
    requires Low(n, h) == 0 && n <= x < n + Pow2(h)
    ensures Low(x, h) == x - n
  {
    if h > 0 {
      LowInBlock(x / 2, n / 2, h - 1);
    }
  }

  /** Bitwise AND of natural numbers. */
  function And(a: nat, b: nat): (r: nat)
    ensures r <= a && r <= b
  {
    if a == 0 || b == 0 then 0
    else 2 * And(a / 2, b / 2) + (if a % 2 == 1 && b % 2 == 1 then 1 else 0)
  }

  /** Bitwise OR of natural numbers. */
  function Or(a: nat, b: nat): (r: nat)
    ensures a <= r && b <= r
  {
    if a == 0 then b
    else if b == 0 then a
    else 2 * Or(a / 2, b / 2) + (if a % 2 == 1 || b % 2 == 1 then 1 else 0)
  }

  /** The defining step of And, also when an operand is zero. */
  lemma AndStep(a: nat, b: nat)
    ensures And(a, b) == 2 * And(a / 2, b / 2) + (if a % 2 == 1 && b % 2 == 1 then 1 else 0)
    ensures And(a, b) / 2 == And(a / 2, b / 2)
    ensures And(a, b) % 2 == (if a % 2 == 1 && b % 2 == 1 then 1 else 0)
  {
    if a == 0 || b == 0 {
      assert And(a / 2, b / 2) == 0;
    }
  }

  /** The defining step of Or, also when an operand is zero. */
  lemma OrStep(a: nat, b: nat)
    ensures Or(a, b) == 2 * Or(a / 2, b / 2) + (if a % 2 == 1 || b % 2 == 1 then 1 else 0)
    ensures Or(a, b) / 2 == Or(a / 2, b / 2)
    ensures Or(a, b) % 2 == (if a % 2 == 1 || b % 2 == 1 then 1 else 0)
  {
    if a == 0 {
      assert Or(a / 2, b / 2) == b / 2;
    } else if b == 0 {
      assert Or(a / 2, b / 2) == a / 2;
    }
  }

  /** Operands below 2^n give an OR below 2^n. */
  lemma {:induction false} OrBelow(a: nat, b: nat, n: nat)
    requires a < Pow2(n) && b < Pow2(n)
    ensures Or(a, b) < Pow2(n)
  {
    if a != 0 && b != 0 {
      OrBelow(a / 2, b / 2, n - 1);
    }
  }

  lemma {:induction false} AndAssoc(a: nat, b: nat, c: nat)
    ensures And(And(a, b), c) == And(a, And(b, c))
  {
    if a != 0 {
      AndAssoc(a / 2, b / 2, c / 2);
      AndStep(a, b);
      AndStep(b, c);
      AndStep(And(a, b), c);
      AndStep(a, And(b, c));
    }
  }

  /** ANDing a value below 2^n with n one bits keeps it. */
  lemma {:induction false} AndOnes(x: nat, n: nat, ones: nat)
    requires x < Pow2(n) && ones + 1 == Pow2(n)
    ensures And(x, ones) == x
  {
    if n > 0 && x > 0 {
      AndOnes(x / 2, n - 1, ones / 2);
      AndStep(x, ones);
    }
  }

  /** ANDing a value below 2^n with the mask m = 2^n - 2^h of its bits from h
      up clears its low h bits. */
  lemma {:induction false} AndHigh(x: nat, n: nat, h: nat, m: nat)
    requires h <= n && x < Pow2(n) && m + Pow2(h) == Pow2(n)
    ensures And(x, m) == x - Low(x, h)
  {
    if h == 0 {
      AndOnes(x, n, m);
    } else if h == n || x == 0 {
      LowSmall(x, h);
    } else {
      AndHigh(x / 2, n - 1, h - 1, m / 2);
      AndStep(x, m);
      LowStep(x, h);
    }
  }

  /** ORing with h low one bits sets them. */
  lemma {:induction false} OrLow(x: nat, h: nat, ones: nat)
    requires ones + 1 == Pow2(h)
    ensures Or(x, ones) == x - Low(x, h) + ones
  {
    if h > 0 && x > 0 {
      OrLow(x / 2, h - 1, ones / 2);
      OrStep(x, ones);
      LowStep(x, h);
    } else if h > 0 {
      LowSmall(0, h);
    }
  }

  /** A value below 2^n and its n-bit complement c share no bit and together
      set all n bits. */
  lemma {:induction false} Complement(a: nat, n: nat, c: nat)
    requires a + c + 1 == Pow2(n)
    ensures And(a, c) == 0 && Or(a, c) == a + c
  {
    if n > 0 {
      assert a / 2 + c / 2 + 1 == Pow2(n - 1);
      Complement(a / 2, n - 1, c / 2);
      AndStep(a, c);
      OrStep(a, c);
    }
  }

  /** The low a bits of m = 2^n - 2^a are clear. */
  lemma {:induction false} HighMaskAligned(n: nat, a: nat, m: nat)
    requires a <= n && m + Pow2(a) == Pow2(n)
    ensures Low(m, a) == 0
  {
    if a > 0 {
      HighMaskAligned(n - 1, a - 1, m / 2);
    }
  }

  /** Of two masks of high bits in n bits, the one with fewer bits wins the
      AND: with mb = 2^n - 2^b and ma = 2^n - 2^a for b <= a <= n, mb AND ma
      is ma. */
  lemma HighMasksNest(n: nat, a: nat, b: nat, mb: nat, ma: nat)
    requires b <= a <= n && mb + Pow2(b) == Pow2(n) && ma + Pow2(a) == Pow2(n)
    ensures And(mb, ma) == ma
  {
    if b < a {
      Pow2Monotonic(b, a);
    }
    HighMaskAligned(n, a, ma);
    LowInBlock(mb, ma, a);
    AndHigh(mb, n, a, ma);
  }

  /** AND acts separately on the bits from bit k up. */
  lemma {:induction false} ShiftRightAnd(a: nat, b: nat, k: nat)
    ensures ShiftRight(And(a, b), k) == And(ShiftRight(a, k), ShiftRight(b, k))
  {
    if k > 0 {
      ShiftRightAnd(a / 2, b / 2, k - 1);
      AndStep(a, b);
    }
  }

  /** A number is determined by its half and its parity. */
  lemma HalvesDetermine(x: nat, y: nat)
    requires x / 2 == y / 2 && x % 2 == y % 2
    ensures x == y
  {
  }

  /** AND acts separately on the bits below bit k. */
  lemma {:induction false} LowAnd(a: nat, b: nat, k: nat)
    ensures Low(And(a, b), k) == And(Low(a, k), Low(b, k))
  {
    if k > 0 {
      var a2, b2, k2 := a / 2, b / 2, k - 1;
      var o, la, lb := And(a, b), Low(a, k), Low(b, k);
      var x, y := Low(o, k), And(la, lb);
      LowAnd(a2, b2, k2);
      AndStep(a, b);
      LowStep(o, k);
      LowStep(a, k);
      LowStep(b, k);
      AndStep(la, lb);
      assert x / 2 == Low(And(a2, b2), k2);
      assert y / 2 == And(Low(a2, k2), Low(b2, k2));
      HalvesDetermine(x, y);
    }
  }

  /** OR acts separately on the bits from bit k up. */
  lemma {:induction false} ShiftRightOr(a: nat, b: nat, k: nat)
    ensures ShiftRight(Or(a, b), k) == Or(ShiftRight(a, k), ShiftRight(b, k))
  {
    if k > 0 {
      ShiftRightOr(a / 2, b / 2, k - 1);
      OrStep(a, b);
    }
  }

  /** OR acts separately on the bits below bit k. */
  lemma {:induction false} LowOr(a: nat, b: nat, k: nat)
    ensures Low(Or(a, b), k) == Or(Low(a, k), Low(b, k))
  {
    if k > 0 {
      var o, la, lb := Or(a, b), Low(a, k), Low(b, k);
      LowOr(a / 2, b / 2, k - 1);
      OrStep(a, b);
      LowStep(a, k);
      LowStep(b, k);
      OrStep(la, lb);
    }
  }

}
