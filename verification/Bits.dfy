/** Bitwise operations on natural numbers, bit by bit, and the arithmetic they
    amount to when masks are runs of ones and operands do not overlap. */
module Bits {
  import opened MachineInt

  function And(a: nat, b: nat): nat
    decreases a
  {
    if a == 0 || b == 0 then 0
    else 2 * And(a / 2, b / 2) + (if a % 2 == 1 && b % 2 == 1 then 1 else 0)
  }

  function Or(a: nat, b: nat): nat
    decreases a + b
  {
    if a == 0 && b == 0 then 0
    else 2 * Or(a / 2, b / 2) + (if a % 2 == 1 || b % 2 == 1 then 1 else 0)
  }

  /** Bit `i` of `x`, counted from the least significant. */
  predicate Bit(x: nat, i: nat) {
    if i == 0 then x % 2 == 1 else Bit(x / 2, i - 1)
  }

  lemma {:induction false} BitOfZero(i: nat)
    ensures !Bit(0, i)
  {
    if i > 0 { BitOfZero(i - 1); }
  }

  lemma {:induction false} AndBit(a: nat, b: nat, i: nat)
    ensures Bit(And(a, b), i) <==> Bit(a, i) && Bit(b, i)
    decreases i
  {
    if a == 0 || b == 0 {
      BitOfZero(i);
    } else if i > 0 {
      AndBit(a / 2, b / 2, i - 1);
    }
  }

  lemma {:induction false} OrBit(a: nat, b: nat, i: nat)
    ensures Bit(Or(a, b), i) <==> Bit(a, i) || Bit(b, i)
    decreases i
  {
    if a == 0 && b == 0 {
      BitOfZero(i);
    } else if i > 0 {
      OrBit(a / 2, b / 2, i - 1);
    }
  }

  /** Numbers below 2^n with the same `n` low bits are equal. */
  lemma {:induction false} SameBits(a: nat, b: nat, n: nat)
    requires a < Pow2(n) && b < Pow2(n)
    requires forall i: nat | i < n :: Bit(a, i) == Bit(b, i)
    ensures a == b
  {
    if n > 0 {
      assert Bit(a, 0) == Bit(b, 0);
      forall i: nat | i < n - 1 ensures Bit(a / 2, i) == Bit(b / 2, i) {
        assert Bit(a, i + 1) == Bit(b, i + 1);
      }
      SameBits(a / 2, b / 2, n - 1);
    }
  }

  /** Taking a remainder by a power of two, one bit at a time. */
  lemma ModHalves(a: nat, p: int)
    requires 0 < p
    ensures a % (2 * p) == 2 * ((a / 2) % p) + a % 2
  {
    var h, r := a / 2, (a / 2) % p;
    var q := h / p;
    assert h == q * p + r by { assert h == p * (h / p) + h % p; }
    assert a == (2 * p) * q + (2 * r + a % 2) by {
      assert a == 2 * h + a % 2;
      assert 2 * (q * p) == (2 * p) * q;
    }
    RemainderIsUnique(a, 2 * p, q, 2 * r + a % 2);
  }

  lemma RemainderIsUnique(a: int, d: int, q: int, r: int)
    requires 0 <= r < d && a == d * q + r
    ensures a % d == r && a / d == q
  {
    assert a == d * (a / d) + a % d;
    assert d * (a / d - q) == r - a % d;
    SmallMultipleIsZero(d, a / d - q);
  }

  lemma SmallMultipleIsZero(d: int, k: int)
    requires -d < d * k < d
    ensures k == 0
  {
    if k >= 1 {
      ScaleUp(d, 1, k);
    } else if k <= -1 {
      ScaleUp(d, k, -1);
    }
  }

  lemma ScaleUp(d: int, x: int, y: int)
    requires 0 < d && x <= y
    ensures d * x <= d * y
  {
    assert 0 <= d * (y - x);
  }

  lemma {:induction false} AndLowMask(a: nat, n: nat)
    ensures And(a, Pow2(n) - 1) == a % Pow2(n)
    decreases n
  {
    if n > 0 {
      AndLowMask(a / 2, n - 1);
      ModHalves(a, Pow2(n - 1));
      assert (Pow2(n) - 1) / 2 == Pow2(n - 1) - 1;
    }
  }

  lemma AndEven(a: nat, m: nat)
    ensures And(a, 2 * m) == 2 * And(a / 2, m)
  {
    if a != 0 && m != 0 {
      assert 2 * m / 2 == m && 2 * m % 2 == 0;
    }
  }

  /** A run of `n` ones starting at bit `lo`. */
  function FieldMask(lo: nat, n: nat): nat {
    if lo == 0 then Pow2(n) - 1 else 2 * FieldMask(lo - 1, n)
  }

  /** Masking with a run of ones selects that field and leaves it in place. */
  lemma {:induction false} AndField(a: nat, lo: nat, n: nat)
    ensures And(a, FieldMask(lo, n)) == Pow2(lo) * ((a / Pow2(lo)) % Pow2(n))
    decreases lo
  {
    if lo == 0 {
      AndLowMask(a, n);
    } else {
      AndField(a / 2, lo - 1, n);
      AndEven(a, FieldMask(lo - 1, n));
      DivDiv(a, Pow2(lo - 1));
      Doubled(Pow2(lo - 1), (a / Pow2(lo)) % Pow2(n));
    }
  }

  lemma {:induction false} FieldMaskIs(lo: nat, n: nat)
    ensures FieldMask(lo, n) == Pow2(lo) * (Pow2(n) - 1)
  {
    if lo > 0 {
      FieldMaskIs(lo - 1, n);
      Doubled(Pow2(lo - 1), Pow2(n) - 1);
    }
  }

  /** The powers of two that bound the lanes of a word. */
  lemma LanePowers()
    ensures Pow2(7) == TWO_7 && Pow2(8) == TWO_8 && Pow2(15) == TWO_15 && Pow2(16) == TWO_16
    ensures Pow2(24) == TWO_24 && Pow2(30) == TWO_30 && Pow2(31) == TWO_31 && Pow2(32) == TWO_32
  {
    assert Pow2(3) == 8;
    Pow2Adds(3, 4);
    Pow2Adds(7, 8);
    Pow2Adds(15, 1);
    Pow2Adds(16, 8);
    Pow2Adds(24, 6);
    assert Pow2(32) == 2 * Pow2(31) == 4 * Pow2(30);
  }

  lemma Doubled(x: int, y: int)
    ensures 2 * (x * y) == (2 * x) * y
  {}

  lemma DivDiv(a: nat, p: int)
    requires 0 < p
    ensures a / 2 / p == a / (2 * p)
  {
    var h := a / 2;
    assert h == p * (h / p) + h % p;
    assert a == (2 * p) * (h / p) + (2 * (h % p) + a % 2) by {
      assert 2 * (p * (h / p)) == (2 * p) * (h / p);
    }
    RemainderIsUnique(a, 2 * p, h / p, 2 * (h % p) + a % 2);
  }

  /** Operands that do not overlap are combined by addition. */
  lemma {:induction false} OrAdds(a: nat, b: nat, n: nat)
    requires b < Pow2(n)
    ensures 0 <= Pow2(n) * a
    ensures Or(Pow2(n) * a, b) == Pow2(n) * a + b
    decreases n
  {
    if n == 0 {
      OrZero(a);
    } else {
      hide Or;
      OrAdds(a, b / 2, n - 1);
      OrEven(Pow2(n - 1) * a, b);
      Doubled(Pow2(n - 1), a);
    }
  }

  lemma OrEven(c: nat, b: nat)
    ensures Or(2 * c, b) == 2 * Or(c, b / 2) + b % 2
  {
    if c != 0 || b != 0 {
      assert 2 * c / 2 == c && 2 * c % 2 == 0;
    }
  }

  lemma {:induction false} OrZero(a: nat)
    ensures Or(a, 0) == a
  {
    if a > 0 { OrZero(a / 2); }
  }

  lemma {:induction false} OrCommutes(a: nat, b: nat)
    ensures Or(a, b) == Or(b, a)
    decreases a + b
  {
    if a > 0 || b > 0 { OrCommutes(a / 2, b / 2); }
  }

  // ----- shifts and complements, bit by bit

  lemma {:induction false} ModBit(x: nat, n: nat, i: nat)
    ensures Bit(x % Pow2(n), i) <==> i < n && Bit(x, i)
    decreases n
  {
    if n == 0 {
      BitOfZero(i);
    } else {
      ModHalves(x, Pow2(n - 1));
      if i > 0 {
        ModBit(x / 2, n - 1, i - 1);
      }
    }
  }

  lemma {:induction false} ShiftUpBit(x: nat, k: nat, i: nat)
    ensures 0 <= x * Pow2(k)
    ensures Bit(x * Pow2(k), i) <==> k <= i && Bit(x, i - k)
    decreases k
  {
    if k > 0 {
      var y := x * Pow2(k - 1);
      assert x * Pow2(k) == 2 * y;
      if i > 0 {
        ShiftUpBit(x, k - 1, i - 1);
      }
    }
  }

  /** A 32-bit left shift drops what leaves the word. */
  function ShiftLeft32(x: nat, k: nat): nat {
    MulNonneg(x, Pow2(k));
    (x * Pow2(k)) % TWO_32
  }

  lemma ShiftLeft32Bit(x: nat, k: nat, i: nat)
    ensures Bit(ShiftLeft32(x, k), i) <==> k <= i < 32 && Bit(x, i - k)
  {
    LanePowers();
    ShiftUpBit(x, k, i);
    ModBit(x * Pow2(k), 32, i);
  }

  /** A logical right shift. */
  function ShiftRight(x: nat, k: nat): nat
    decreases k
  {
    if k == 0 then x else ShiftRight(x / 2, k - 1)
  }

  lemma {:induction false} ShiftRightBit(x: nat, k: nat, i: nat)
    ensures Bit(ShiftRight(x, k), i) <==> Bit(x, i + k)
    decreases k
  {
    if k > 0 {
      ShiftRightBit(x / 2, k - 1, i);
    }
  }

  lemma {:induction false} ShiftRightDivides(x: nat, k: nat)
    ensures ShiftRight(x, k) == x / Pow2(k)
    decreases k
  {
    if k > 0 {
      DivDiv(x, Pow2(k - 1));
      ShiftRightDivides(x / 2, k - 1);
    }
  }

  /** A value below 2^(m + k) shifted right by `k` is below 2^m. */
  lemma {:induction false} ShiftRightBound(x: nat, m: nat, k: nat)
    requires x < Pow2(m + k)
    ensures ShiftRight(x, k) < Pow2(m)
    decreases k
  {
    if k > 0 {
      assert Pow2(m + k) == 2 * Pow2(m + k - 1);
      ShiftRightBound(x / 2, m, k - 1);
    }
  }

  /** The complement of a 32-bit word. */
  function Not32(x: nat): nat
    requires x < TWO_32
  {
    TWO_32 - 1 - x
  }

  lemma {:induction false} ComplementBit(x: nat, n: nat, i: nat)
    requires x < Pow2(n)
    ensures Bit(Pow2(n) - 1 - x, i) <==> i < n && !Bit(x, i)
    decreases n
  {
    if n == 0 {
      BitOfZero(i);
    } else if i > 0 {
      assert (Pow2(n) - 1 - x) / 2 == Pow2(n - 1) - 1 - x / 2;
      ComplementBit(x / 2, n - 1, i - 1);
    }
  }

  lemma Not32Bit(x: nat, i: nat)
    requires x < TWO_32
    ensures Bit(Not32(x), i) <==> i < 32 && !Bit(x, i)
  {
    LanePowers();
    ComplementBit(x, 32, i);
  }

  lemma {:induction false} LowMaskBit(n: nat, i: nat)
    ensures Bit(Pow2(n) - 1, i) <==> i < n
  {
    if n == 0 {
      BitOfZero(i);
    } else if i > 0 {
      assert (Pow2(n) - 1) / 2 == Pow2(n - 1) - 1;
      LowMaskBit(n - 1, i - 1);
    }
  }
}
