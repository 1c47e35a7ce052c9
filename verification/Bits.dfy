/** C's shifts and bitwise operators on unsigned integers, given by their binary digits. */
module Bits {
  function Pow2(k: nat): (p: nat)
    ensures p > 0
  {
    if k == 0 then 1 else 2 * Pow2(k - 1)
  }

  /** `x >> k` */
  function Shr(x: nat, k: nat): nat {
    QuotientIsNat(x, Pow2(k));
    x / Pow2(k)
  }

  /** `x << k` kept to `width` bits */
  function Shl(x: nat, k: nat, width: nat): nat {
    x * Pow2(k) % Pow2(width)
  }

  /** `x & y` */
  function And(x: nat, y: nat): nat {
    if x == 0 || y == 0 then 0
    else 2 * And(x / 2, y / 2) + (if x % 2 == 1 && y % 2 == 1 then 1 else 0)
  }

  /** `x | y` */
  function Or(x: nat, y: nat): nat {
    if x == 0 then y
    else if y == 0 then x
    else 2 * Or(x / 2, y / 2) + (if x % 2 == 1 || y % 2 == 1 then 1 else 0)
  }

  /** The binary digit of weight 2^k. */
  predicate Bit(x: nat, k: nat)
    decreases k
  {
    if k == 0 then x % 2 == 1 else Bit(x / 2, k - 1)
  }

  lemma {:induction false} BitIsShiftedParity(x: nat, k: nat)
    ensures Bit(x, k) <==> Shr(x, k) % 2 == 1
  {
    if k == 0 {
    } else {
      BitIsShiftedParity(x / 2, k - 1);
      DivDiv(x, 2, Pow2(k - 1));
    }
  }

  lemma {:induction false} BitOfAnd(x: nat, y: nat, k: nat)
    ensures Bit(And(x, y), k) <==> Bit(x, k) && Bit(y, k)
    decreases k
  {
    BitsOfZero(k);
    if k == 0 || x == 0 || y == 0 {
    } else {
      assert And(x, y) / 2 == And(x / 2, y / 2);
      BitOfAnd(x / 2, y / 2, k - 1);
    }
  }

  lemma {:induction false} BitOfOr(x: nat, y: nat, k: nat)
    ensures Bit(Or(x, y), k) <==> Bit(x, k) || Bit(y, k)
    decreases k
  {
    BitsOfZero(k);
    if k == 0 || x == 0 || y == 0 {
    } else {
      assert Or(x, y) / 2 == Or(x / 2, y / 2);
      BitOfOr(x / 2, y / 2, k - 1);
    }
  }

  /** `&` and `|` act on each binary digit separately. */
  lemma BitwiseOperators(x: nat, y: nat, k: nat)
    ensures Bit(And(x, y), k) <==> Bit(x, k) && Bit(y, k)
    ensures Bit(Or(x, y), k) <==> Bit(x, k) || Bit(y, k)
  {
    BitOfAnd(x, y, k);
    BitOfOr(x, y, k);
  }

  lemma {:induction false} BitsOfZero(k: nat)
    ensures !Bit(0, k)
  {
    if k == 0 {
    } else {
      BitsOfZero(k - 1);
    }
  }

  lemma DivDiv(x: nat, a: nat, b: nat)
    requires a > 0 && b > 0
    ensures a * b > 0
    ensures x / a / b == x / (a * b)
  {
    var q, r, s := x / a / b, x / a % b, x % a;
    assert x == a * (q * b + r) + s;
    assert x == (a * b) * q + (a * r + s) by {
      assert a * (q * b + r) == a * (q * b) + a * r;
      assert a * (q * b) == (a * b) * q;
    }
    assert a * r + s < a * b by {
      assert r + 1 <= b;
      assert a * (r + 1) <= a * b;
    }
    QuotientIsUnique(x, a * b, q, a * r + s);
  }

  lemma QuotientIsUnique(x: nat, d: nat, q: nat, r: nat)
    requires d > 0 && x == d * q + r && r < d
    ensures x / d == q && x % d == r
  {
    if x / d < q {
      ProductsApart(d, x / d, q);
    } else if q < x / d {
      ProductsApart(d, q, x / d);
    }
  }

  lemma QuotientIsNat(x: nat, d: nat)
    requires d > 0
    ensures x / d >= 0
  {
  }

  lemma ProductsApart(d: nat, a: nat, b: nat)
    requires a < b
    ensures d * a + d <= d * b
  {
    assert d * b == d * (a + 1) + d * (b - a - 1);
  }

  lemma {:induction false} Pow2Sum(a: nat, b: nat)
    ensures Pow2(a + b) == Pow2(a) * Pow2(b)
  {
    if a == 0 {
    } else {
      Pow2Sum(a - 1, b);
      assert Pow2(a) * Pow2(b) == 2 * (Pow2(a - 1) * Pow2(b));
    }
  }

  lemma Pow2Values()
    ensures Pow2(1) == 0x2 && Pow2(2) == 0x4 && Pow2(3) == 0x8 && Pow2(5) == 0x20 && Pow2(7) == 0x80
    ensures Pow2(8) == 0x100 && Pow2(10) == 0x400 && Pow2(12) == 0x1000
    ensures Pow2(16) == 0x1_0000 && Pow2(24) == 0x100_0000 && Pow2(32) == 0x1_0000_0000
    ensures Pow2(40) == 0x100_0000_0000 && Pow2(48) == 0x1_0000_0000_0000
    ensures Pow2(56) == 0x100_0000_0000_0000 && Pow2(64) == 0x1_0000_0000_0000_0000
    ensures Pow2(63) == 0x8000_0000_0000_0000
  {
  }

  /** The `width` low digits of x. */
  function LowDigits(x: nat, width: nat): nat
    decreases width
  {
    if width == 0 then 0 else 2 * LowDigits(x / 2, width - 1) + x % 2
  }

  lemma {:induction false} LowDigitsAreRemainder(x: nat, width: nat)
    ensures LowDigits(x, width) == x % Pow2(width)
    decreases width
  {
    if width == 0 {
    } else {
      LowDigitsAreRemainder(x / 2, width - 1);
      RemainderByHalves(x, Pow2(width - 1));
    }
  }

  lemma {:induction false} AndOnes(x: nat, width: nat)
    ensures And(x, Pow2(width) - 1) == LowDigits(x, width)
    decreases width
  {
    if width == 0 {
    } else {
      AndOnes(x / 2, width - 1);
      AndOddMask(x, Pow2(width - 1) - 1);
    }
  }

  /** Masking with `width` low ones keeps the remainder. */
  lemma AndLowMask(x: nat, width: nat)
    ensures And(x, Pow2(width) - 1) == x % Pow2(width)
  {
    AndOnes(x, width);
    LowDigitsAreRemainder(x, width);
  }

  lemma AndOddMask(x: nat, mask: nat)
    ensures And(x, 2 * mask + 1) == 2 * And(x / 2, mask) + x % 2
  {
  }

  lemma AndEvenMask(x: nat, mask: nat)
    ensures And(x, 2 * mask) == 2 * And(x / 2, mask)
  {
    assert 2 * mask / 2 == mask;
  }

  lemma RemainderByHalves(x: nat, half: nat)
    requires half > 0
    ensures x % (2 * half) == 2 * (x / 2 % half) + x % 2
  {
    var q := x / 2 / half;
    assert x / 2 == half * q + x / 2 % half;
    assert (2 * half) * q == 2 * (half * q);
    QuotientIsUnique(x, 2 * half, q, 2 * (x / 2 % half) + x % 2);
  }

  /** Masking with a mask that ends in `lo` zeros ignores the low digits. */
  lemma {:induction false} AndShiftedMask(x: nat, mask: nat, lo: nat)
    ensures And(x, mask * Pow2(lo)) == Pow2(lo) * And(Shr(x, lo), mask)
    decreases lo
  {
    if lo == 0 {
    } else {
      var half := Pow2(lo - 1);
      calc {
        And(x, mask * Pow2(lo));
        { Regroup(mask, half); }
        And(x, 2 * (mask * half));
        { AndEvenMask(x, mask * half); }
        2 * And(x / 2, mask * half);
        { AndShiftedMask(x / 2, mask, lo - 1); }
        2 * (half * And(x / 2 / half, mask));
        { DivDiv(x, 2, half); }
        2 * (half * And(Shr(x, lo), mask));
        { Regroup(And(Shr(x, lo), mask), half); }
        Pow2(lo) * And(Shr(x, lo), mask);
      }
    }
  }

  lemma Regroup(a: nat, half: nat)
    ensures a * (2 * half) == 2 * (a * half) == 2 * (half * a) == (2 * half) * a
  {
  }

  /** `(x & mask) >> lo` for a mask of `width` ones starting at digit `lo` reads that field. */
  lemma FieldExtract(x: nat, lo: nat, width: nat, mask: nat)
    requires mask == (Pow2(width) - 1) * Pow2(lo)
    ensures Shr(And(x, mask), lo) == x / Pow2(lo) % Pow2(width)
  {
    AndShiftedMask(x, Pow2(width) - 1, lo);
    AndLowMask(Shr(x, lo), width);
    QuotientIsUnique(And(x, mask), Pow2(lo), And(Shr(x, lo), Pow2(width) - 1), 0);
  }

  /** `|` adds when the operands have no digit in common. */
  lemma {:induction false} OrOfDisjoint(high: nat, k: nat, low: nat)
    requires low < Pow2(k)
    ensures Or(high * Pow2(k), low) == high * Pow2(k) + low
    decreases k
  {
    if k == 0 || high == 0 {
    } else {
      var half := high * Pow2(k - 1);
      assert high * Pow2(k) == 2 * half;
      assert 2 * half / 2 == half && 2 * half % 2 == 0;
      OrOfDisjoint(high, k - 1, low / 2);
    }
  }

  /** A left shift drops exactly the digits that leave the word. */
  lemma DropHighDigits(high: nat, low: nat, keep: nat, move: nat)
    requires low < keep && move > 0
    ensures keep * move > 0 && (high * keep + low) * move % (keep * move) == low * move
  {
    var divisor, rest := keep * move, low * move;
    Distribute(high, low, keep, move);
    assert rest < divisor by {
      ProductsApart(move, low, keep);
      Commute(low, move);
      Commute(keep, move);
    }
    QuotientIsUnique(divisor * high + rest, divisor, high, rest);
  }

  lemma Commute(a: nat, b: nat)
    ensures a * b == b * a
  {
  }

  lemma Distribute(high: nat, low: nat, keep: nat, move: nat)
    ensures (high * keep + low) * move == (keep * move) * high + low * move
  {
  }
}
