/** The two-step Newton reciprocals arm_recip_q31 and arm_recip_q15.

    Both routines are one algorithm at two widths: with `w` the modulus of the
    fraction format (2^31 or 2^15), the input is shifted up into [w/2, w), a table
    supplies a first `out`, and two rounds of
        out := out * (w - 1 - floor(a * out / w)) / (w / 2)
    follow.  The target of the product `a * out` is `w * w / 2`. */
module Reciprocal {
  import opened MachineInt
  import opened Saturation
  import opened Bits

  // ----- one Newton round over unbounded integers

  function Complement(w: int, a: int, out: int): int
    requires 0 < w
  {
    w - 1 - (a * out) / w
  }

  function Round(w: int, a: int, out: int): int
    requires 1 < w
  {
    (out * Complement(w, a, out)) / (w / 2)
  }

  function Rounds(w: int, a: int, seed: int, n: nat): int
    requires 1 < w
  {
    if n == 0 then seed else Round(w, a, Rounds(w, a, seed, n - 1))
  }

  /** The value `a * out` is aiming at. */
  function Target(w: int): int { w * (w / 2) }

  /** How far the product still is from the target. */
  function Residual(w: int, a: int, out: int): int { Target(w) - a * out }

  ghost predicate Usable(w: int, a: int, out: int) {
    0 <= a < w && 0 <= out && a * out < w * w
  }

  ghost predicate Width(w: int) { 2 <= w && w % 2 == 0 }

  /** `x / d` brackets `x` for a nonnegative `x` and a positive `d`. */
  lemma DivBrackets(x: int, d: int)
    requires 0 <= x && 0 < d
    ensures 0 <= x / d
    ensures d * (x / d) <= x < d * (x / d) + d
  {
    var t := x / d;
    assert x == d * t + x % d;
    if t < 0 {
      MulLe(t, -1, d);
      assert false;
    }
  }

  lemma ComplementBounds(w: int, a: int, out: int)
    requires Width(w) && Usable(w, a, out)
    ensures 0 <= Complement(w, a, out) < w
    ensures w * w - w - a * out <= Complement(w, a, out) * w <= w * w - 1 - a * out
  {
    MulNonneg(a, out);
    DivBrackets(a * out, w);
    var t := (a * out) / w;
    if t >= w {
      MulLe(w, t, w);
      assert false;
    }
    assert (w - 1 - t) * w == w * w - w - w * t;
  }

  /** The floored quotient, multiplied back: nothing is lost but less than one unit. */
  lemma RoundBrackets(w: int, a: int, out: int)
    requires Width(w) && Usable(w, a, out)
    ensures 0 <= Round(w, a, out)
    ensures (w / 2) * Round(w, a, out) <= out * Complement(w, a, out) <= (w / 2) * (Round(w, a, out) + 1)
  {
    ComplementBounds(w, a, out);
    MulNonneg(out, Complement(w, a, out));
    DivBrackets(out * Complement(w, a, out), w / 2);
  }

  /** An inequality between `h * u` and `v * m`, scaled by `a` and `w` and regrouped. */
  lemma Scale(w: int, a: int, x: int, y: int)
    requires x <= y && 0 <= a && 0 <= w
    ensures w * (a * x) <= w * (a * y)
  {
    MulLe(x, y, a);
    MulLe(a * x, a * y, w);
  }

  lemma Regroup(w: int, h: int, a: int, u: int)
    ensures w * (a * (h * u)) == (w * h) * (a * u)
  {}

  /** `w * (a * (out * m))` read as the product `a * out` times `m * w`. */
  lemma Reorder(w: int, a: int, out: int, m: int)
    ensures w * (a * (out * m)) == (a * out) * (m * w)
  {}

  lemma ProductUpper(w: int, a: int, out: int)
    requires Width(w) && Usable(w, a, out)
    ensures Target(w) * (a * Round(w, a, out)) <= (a * out) * (2 * Target(w) - 1 - a * out)
  {
    var h, m, u, p := w / 2, Complement(w, a, out), Round(w, a, out), a * out;
    var bound := 2 * Target(w) - 1 - p;
    assert m * w <= bound by { ComplementBounds(w, a, out); TargetIsHalf(w); }
    assert Target(w) * (a * u) <= p * (m * w) by {
      assert w * (a * (h * u)) <= w * (a * (out * m)) by { RoundBrackets(w, a, out); Scale(w, a, h * u, out * m); }
      Regroup(w, h, a, u);
      Reorder(w, a, out, m);
    }
    assert p * (m * w) <= p * bound by { MulNonneg(a, out); MulLe(m * w, bound, p); }
  }

  lemma DistributeOne(q: int, a: int, u: int)
    ensures q * (a * (u + 1)) == q * (a * u) + q * a
  {
    assert a * (u + 1) == a * u + a;
  }

  lemma ProductLower(w: int, a: int, out: int)
    requires Width(w) && Usable(w, a, out)
    ensures (a * out) * (2 * Target(w) - w - a * out) <= Target(w) * (a * Round(w, a, out)) + Target(w) * a
  {
    var h, m, u, p := w / 2, Complement(w, a, out), Round(w, a, out), a * out;
    var bound := 2 * Target(w) - w - p;
    assert bound <= m * w by { ComplementBounds(w, a, out); TargetIsHalf(w); }
    assert p * (m * w) <= Target(w) * (a * (u + 1)) by {
      assert w * (a * (out * m)) <= w * (a * (h * (u + 1))) by { RoundBrackets(w, a, out); Scale(w, a, out * m, h * (u + 1)); }
      Regroup(w, h, a, u + 1);
      Reorder(w, a, out, m);
    }
    assert p * bound <= p * (m * w) by { MulNonneg(a, out); MulLe(bound, m * w, p); }
    DistributeOne(Target(w), a, u);
  }

  lemma TargetIsHalf(w: int)
    requires Width(w)
    ensures w * w == 2 * Target(w) && 0 < Target(w)
  {
    var h := w / 2;
    assert w == 2 * h;
    assert w * (2 * h) == 2 * (w * h);
    MulLe(1, h, w);
  }

  lemma UndershootArithmetic(q: int, p: int, p': int)
    requires 0 < q && 0 <= p && q * p' <= p * (2 * q - 1 - p)
    ensures p' < q
  {
    assert p * (2 * q - 1 - p) == q * q - p - (q - p) * (q - p);
    assert 0 <= (q - p) * (q - p);
    if p' >= q {
      MulLe(q, p', q);
      assert false;
    }
  }

  lemma ResidualArithmetic(q: int, w: int, a: int, p: int, p': int)
    requires 0 < w && 0 <= a < w && 0 <= p < 2 * q && p * (2 * q - w - p) <= q * p' + q * a
    ensures q * (q - p') <= (q - p) * (q - p) + 3 * (q * w)
  {
    assert p * (2 * q - w - p) == 2 * (q * p) - p * w - p * p;
    assert (q - p) * (q - p) == q * q - 2 * (q * p) + p * p;
    assert p * w <= 2 * (q * w) by { MulLe(p, 2 * q, w); assert (2 * q) * w == 2 * (q * w); }
    assert q * a <= q * w by { MulLe(a, w, q); }
    assert q * (q - p') == q * q - q * p';
  }

  /** One round never overshoots the target, whatever usable value it starts from. */
  lemma RoundUndershoots(w: int, a: int, out: int)
    requires Width(w) && Usable(w, a, out)
    ensures 0 <= a * Round(w, a, out) < Target(w)
    ensures Usable(w, a, Round(w, a, out))
  {
    RoundBrackets(w, a, out);
    ProductUpper(w, a, out);
    MulNonneg(a, out);
    MulNonneg(a, Round(w, a, out));
    TargetIsHalf(w);
    UndershootArithmetic(Target(w), a * out, a * Round(w, a, out));
  }

  /** One round squares the residual, up to a rounding term of `3 * w`. */
  lemma RoundSquaresResidual(w: int, a: int, out: int)
    requires Width(w) && Usable(w, a, out)
    ensures Target(w) * Residual(w, a, Round(w, a, out))
         <= Residual(w, a, out) * Residual(w, a, out) + 3 * (Target(w) * w)
  {
    ProductLower(w, a, out);
    MulNonneg(a, out);
    TargetIsHalf(w);
    ResidualArithmetic(Target(w), w, a, a * out, a * Round(w, a, out));
  }

  /** Two rounds from any usable seed: neither overshoots, and the residual is squared
      twice, so the relative error behaves like the fourth power of the seed's. */
  lemma TwoRoundsConverge(w: int, a: int, seed: int)
    requires Width(w) && Usable(w, a, seed)
    ensures forall n: nat | n <= 2 :: Usable(w, a, Rounds(w, a, seed, n))
    ensures 0 < Residual(w, a, Rounds(w, a, seed, 1)) <= Target(w)
    ensures 0 < Residual(w, a, Rounds(w, a, seed, 2)) <= Target(w)
    ensures var q := Target(w);
            var r0, r2 := Residual(w, a, seed), Residual(w, a, Rounds(w, a, seed, 2));
            q * q * (q * r2) <= Square(Square(r0) + 3 * (q * w)) + q * q * (3 * (q * w))
  {
    var q := Target(w);
    var o1 := Round(w, a, seed);
    var o2 := Round(w, a, o1);
    assert Rounds(w, a, seed, 1) == o1 by { assert Rounds(w, a, seed, 0) == seed; }
    assert Rounds(w, a, seed, 2) == o2;
    RoundUndershoots(w, a, seed);
    RoundUndershoots(w, a, o1);
    RoundSquaresResidual(w, a, seed);
    RoundSquaresResidual(w, a, o1);
    var r1, r2 := Residual(w, a, o1), Residual(w, a, o2);
    ComposeBounds(q, r1, r2, Square(Residual(w, a, seed)) + 3 * (q * w), 3 * (q * w));
  }

  function Square(x: int): int { x * x }

  lemma ComposeBounds(q: int, r1: int, r2: int, first: int, second: int)
    requires 0 < q && 0 < r1 && q * r1 <= first && q * r2 <= Square(r1) + second
    ensures q * q * (q * r2) <= Square(first) + q * q * second
  {
    MulNonneg(q, q);
    MulLe(q * r2, Square(r1) + second, q * q);
    assert (q * q) * (Square(r1) + second) == Square(q * r1) + q * q * second;
    SquareMonotone(q * r1, first);
  }

  lemma SquareMonotone(x: int, y: int)
    requires 0 <= x <= y
    ensures Square(x) <= Square(y)
  {
    MulLe(x, y, x);
    MulLe(x, y, y);
  }

  /** With a seed good to one part in 64 the q31 result is good to about one part in 2^24. */
  lemma Q31Accuracy(a: int, seed: int)
    requires Usable(TWO_31, a, seed)
    requires -0x80_0000_0000_0000 <= Residual(TWO_31, a, seed) <= 0x80_0000_0000_0000
    ensures 0 < Residual(TWO_31, a, Rounds(TWO_31, a, seed, 2)) < 0x22_0000_0000
  {
    TwoRoundsConverge(TWO_31, a, seed);
    var o1 := Rounds(TWO_31, a, seed, 1);
    assert o1 == Round(TWO_31, a, seed) by { assert Rounds(TWO_31, a, seed, 0) == seed; }
    RoundSquaresResidual(TWO_31, a, seed);
    RoundSquaresResidual(TWO_31, a, o1);
    AccuracyArithmetic(Residual(TWO_31, a, seed), Residual(TWO_31, a, o1),
                       Residual(TWO_31, a, Rounds(TWO_31, a, seed, 2)));
  }

  lemma AccuracyArithmetic(r0: int, r1: int, r2: int)
    requires -0x80_0000_0000_0000 <= r0 <= 0x80_0000_0000_0000 && 0 <= r1
    requires Target(TWO_31) * r1 <= r0 * r0 + 3 * (Target(TWO_31) * TWO_31)
    requires Target(TWO_31) * r2 <= r1 * r1 + 3 * (Target(TWO_31) * TWO_31)
    ensures r2 < 0x22_0000_0000
  {
    SquareBound(r0, 0x80_0000_0000_0000);
    SquareBound(r1, 0x2_0001_8000_0000);
  }

  lemma SquareBound(x: int, b: int)
    requires -b <= x <= b
    ensures x * x <= b * b
  {
    MulNonneg(b - x, b + x);
  }

  /** The same in q15. */
  lemma Q15Accuracy(a: int, seed: int)
    requires Usable(TWO_15, a, seed)
    requires -0x80_0000 <= Residual(TWO_15, a, seed) <= 0x80_0000
    ensures 0 < Residual(TWO_15, a, Rounds(TWO_15, a, seed, 2)) < 98403
  {
    TwoRoundsConverge(TWO_15, a, seed);
    var o1 := Rounds(TWO_15, a, seed, 1);
    assert o1 == Round(TWO_15, a, seed) by { assert Rounds(TWO_15, a, seed, 0) == seed; }
    RoundSquaresResidual(TWO_15, a, seed);
    RoundSquaresResidual(TWO_15, a, o1);
    AccuracyArithmeticQ15(Residual(TWO_15, a, seed), Residual(TWO_15, a, o1),
                          Residual(TWO_15, a, Rounds(TWO_15, a, seed, 2)));
  }

  lemma AccuracyArithmeticQ15(r0: int, r1: int, r2: int)
    requires -0x80_0000 <= r0 <= 0x80_0000 && 0 <= r1
    requires Target(TWO_15) * r1 <= r0 * r0 + 3 * (Target(TWO_15) * TWO_15)
    requires Target(TWO_15) * r2 <= r1 * r1 + 3 * (Target(TWO_15) * TWO_15)
    ensures r2 < 98403
  {
    SquareBound(r0, 0x80_0000);
    SquareBound(r1, 229376);
  }

  /** The two rounds for an input of three quarters: from a rough seed to the last bit but one in
      q31, and what q15 makes of one. */
  lemma KnownRounds()
    ensures Rounds(TWO_31, 0x6000_0000, 0x5500_0000, 1) == 0x5554_FFFE
    ensures Rounds(TWO_31, 0x6000_0000, 0x5500_0000, 2) == 0x5555_5554
    ensures Rounds(TWO_15, 0x6000, 0x5000, 1) == 0x54FE
    ensures Rounds(TWO_15, 0x6000, 0x5000, 2) == 0x5554
  {
    assert Rounds(TWO_31, 0x6000_0000, 0x5500_0000, 0) == 0x5500_0000;
    assert Rounds(TWO_15, 0x6000, 0x5000, 0) == 0x5000;
  }

  // ----- tables

  /** The entry is good to one part in 64 for an input shifted to `norm`: 2^61 is the target of
      their product in q31, 2^29 in q15. */
  predicate GoodSeedQ31(norm: int, seed: int) {
    0 <= seed && -0x80_0000_0000_0000 <= 0x2000_0000_0000_0000 - norm * seed <= 0x80_0000_0000_0000
  }

  predicate GoodSeedQ15(norm: int, seed: int) {
    0 <= seed && -0x80_0000 <= 0x2000_0000 - norm * seed <= 0x80_0000
  }

  /** Entry `k` is good on its whole cell, the shifted inputs from 64 + k to 65 + k units. */
  ghost predicate GoodTableQ31(table: seq<int>) {
    |table| == 64 && forall k, norm | 0 <= k < 64 && (64 + k) * TWO_24 <= norm < (65 + k) * TWO_24 :: GoodSeedQ31(norm, table[k])
  }

  ghost predicate GoodTableQ15(table: seq<int>) {
    |table| == 64 && forall k, norm | 0 <= k < 64 && (64 + k) * TWO_8 <= norm < (65 + k) * TWO_8 :: GoodSeedQ15(norm, table[k])
  }

  lemma Q31GoodSeed(norm: int, seed: int)
    requires TWO_30 <= norm < TWO_31 && IsS32(seed) && GoodSeedQ31(norm, seed)
    ensures WrapU32(seed) == seed && Usable(TWO_31, norm, seed)
    ensures 0 < Residual(TWO_31, norm, Rounds(TWO_31, norm, seed, 2)) < 0x22_0000_0000
  {
    Q31Accuracy(norm, seed);
  }

  lemma Q15GoodSeed(norm: int, seed: int)
    requires 0x4000 <= norm < TWO_15 && IsS16(seed) && GoodSeedQ15(norm, seed)
    ensures WrapU32(seed) == seed && Usable(TWO_15, norm, seed)
    ensures 0 < Residual(TWO_15, norm, Rounds(TWO_15, norm, seed, 2)) < 98403
  {
    Q15Accuracy(norm, seed);
  }

  /** There are such tables: the reciprocals of the middles of the cells. */
  lemma MiddlesAreGood()
    ensures GoodTableQ31(seq(64, k requires 0 <= k < 64 => 0x40_0000_0000 / (129 + 2 * k)))
    ensures forall k | 0 <= k < 64 :: 0 < 0x40_0000_0000 / (129 + 2 * k) < TWO_31
  {
    var table := seq(64, k requires 0 <= k < 64 => 0x40_0000_0000 / (129 + 2 * k));
    forall k, norm | 0 <= k < 64 && (64 + k) * TWO_24 <= norm < (65 + k) * TWO_24
      ensures GoodSeedQ31(norm, table[k])
    {
      MiddleIsGood(129 + 2 * k, norm);
    }
    forall k | 0 <= k < 64 ensures 0 < 0x40_0000_0000 / (129 + 2 * k) < TWO_31 {
      MiddleBrackets(129 + 2 * k);
    }
  }

  lemma MiddleBrackets(m: int)
    requires 129 <= m <= 255
    ensures var s := 0x40_0000_0000 / m; 0 < s < TWO_31 && 0x40_0000_0000 - 255 <= m * s <= 0x40_0000_0000
  {
    var s := 0x40_0000_0000 / m;
    DivBrackets(0x40_0000_0000, m);
    if s >= TWO_31 { ProductsGrow(129, m, TWO_31, s); }
    if s <= 0 { MulLe(s, 0, m); }
  }

  lemma MiddleIsGood(m: int, norm: int)
    requires 129 <= m <= 255 && (m - 1) * 0x80_0000 <= norm < (m + 1) * 0x80_0000
    ensures GoodSeedQ31(norm, 0x40_0000_0000 / m)
  {
    var s := 0x40_0000_0000 / m;
    MiddleBrackets(m);
    MulLe((m - 1) * 0x80_0000, norm, s);
    MulLe(norm, (m + 1) * 0x80_0000, s);
    assert ((m - 1) * 0x80_0000) * s == 0x80_0000 * (m * s - s);
    assert ((m + 1) * 0x80_0000) * s == 0x80_0000 * (m * s + s);
  }

  // ----- the routines themselves

  /** `s` is the shift that brings `x` into the upper half of `[0, w)`. */
  predicate NormalisedBy(w: int, x: int, s: nat) {
    w / 2 <= x * Pow2(s) < w
  }

  lemma NormalisingShiftIsUnique(w: int, x: int, s: nat, t: nat)
    requires Width(w) && 0 < x && NormalisedBy(w, x, s) && NormalisedBy(w, x, t)
    ensures s == t
  {
    if s < t {
      ShiftDoubles(x, s, t);
    } else if t < s {
      ShiftDoubles(x, t, s);
    }
  }

  lemma ShiftDoubles(x: int, s: nat, t: nat)
    requires 0 < x && s < t
    ensures 2 * (x * Pow2(s)) <= x * Pow2(t)
  {
    Pow2Grows(s + 1, t);
    MulLe(Pow2(s + 1), Pow2(t), x);
    assert x * (2 * Pow2(s)) == 2 * (x * Pow2(s));
  }

  /** `data & mask` for a mask with one bit set. */
  predicate BitClear(data: int, mask: int)
    requires 0 < mask
  {
    (data / mask) % 2 == 0
  }

  /** For a value below `2 * mask` the tested bit is the value's top bit. */
  lemma TopBit(data: int, mask: int)
    requires 0 < mask && 0 <= data < 2 * mask
    ensures BitClear(data, mask) <==> data < mask
  {
    DivBrackets(data, mask);
    var d := data / mask;
    if d >= 2 {
      MulLe(2, d, mask);
      assert false;
    }
    if d == 1 {
      assert mask * d == mask;
    }
  }

  /** The loop counts down a one-bit mask to the highest set bit. */
  method CountLeadingZeros(data: int) returns (count: nat)
    requires 0 < data < TWO_32
    ensures count <= 31 && NormalisedBy(TWO_32, data, count)
  {
    count := 0;
    var mask := TWO_31;
    LanePowers();
    while BitClear(data, mask)
      invariant count <= 31 && mask == Pow2(31 - count) && data < 2 * mask
      decreases mask
    {
      TopBit(data, mask);
      count := count + 1;
      mask := mask / 2;
    }
    TopBit(data, mask);
    TopBitNormalises(data, count);
  }

  lemma TopBitNormalises(data: int, count: nat)
    requires count <= 31 && Pow2(31 - count) <= data < 2 * Pow2(31 - count)
    ensures NormalisedBy(TWO_32, data, count)
  {
    var mask, k := Pow2(31 - count), Pow2(count);
    LanePowers();
    Pow2Adds(31 - count, count);
    assert mask * k == TWO_31;
    assert TWO_31 <= data * k by { MulLe(mask, data, k); }
    assert data * k < TWO_32 by { DoubledMask(data, mask, k); }
  }

  lemma DoubledMask(data: int, mask: int, k: int)
    requires data < 2 * mask && 0 < k
    ensures data * k < 2 * (mask * k)
  {
    MulNonneg(2 * mask - data - 1, k);
    assert (2 * mask - data - 1) * k == 2 * (mask * k) - data * k - k;
  }

  lemma ShiftByOneLess(x: int, s: nat)
    requires 1 <= s
    ensures 2 * (x * Pow2(s - 1)) == x * Pow2(s)
  {
    assert x * (2 * Pow2(s - 1)) == 2 * (x * Pow2(s - 1));
  }

  lemma NonnegativeSeedIsUsable(w: int, norm: int, seed: int)
    requires Width(w) && 0 <= norm < w && 0 <= seed < w
    ensures Usable(w, norm, seed)
  {
    MulLe(norm, w - 1, seed);
    MulLe(seed, w - 1, w - 1);
    MulLe(w - 1, w, w - 1);
    MulLe(w - 1, w, w);
  }

  lemma ProductsGrow(x: int, x': int, y: int, y': int)
    requires 0 <= x <= x' && 0 <= y <= y'
    ensures x * y <= x' * y'
  {
    MulLe(x, x', y);
    MulLe(y, y', x');
  }

  /** A usable value that follows a normalised input is below twice the format's modulus. */
  lemma UsableIsSmall(w: int, norm: int, out: int)
    requires Width(w) && w / 2 <= norm && Usable(w, norm, out)
    ensures out < 2 * w
  {
    assert (w / 2) * (2 * w) == w * w;
    if out >= 2 * w {
      ProductsGrow(w / 2, norm, 2 * w, out);
    }
  }

  lemma UndershotIsBelowModulus(w: int, norm: int, out: int)
    requires Width(w) && w / 2 <= norm && 0 <= out && norm * out < Target(w)
    ensures out < w
  {
    if out >= w {
      ProductsGrow(w / 2, norm, w, out);
    }
  }

  /** The loop body of arm_recip_q31 with every conversion written out. */
  function MachineRoundQ31(norm: int, out: int): (r: int)
    ensures IsU32(r)
  {
    var shifted := WrapU32(WrapS32(WrapS64(norm * out) / TWO_31));
    var tempVal := WrapU32(TWO_31 - 1 - shifted);
    WrapU32(ClipQ63ToQ31(WrapS64(out * tempVal) / TWO_30))
  }

  /** The loop body of arm_recip_q15: unsigned products, and a cast instead of a clip. */
  function MachineRoundQ15(norm: int, out: int): (r: int)
    ensures IsU32(r)
  {
    var shifted := WrapU32(WrapS16(WrapU32(norm * out) / TWO_15));
    var tempVal := WrapU32(TWO_15 - 1 - shifted);
    WrapU32(WrapS16(WrapU32(out * tempVal) / 0x4000))
  }

  /** No conversion loses anything and the clip never saturates. */
  lemma MachineRoundQ31IsRound(norm: int, out: int)
    requires TWO_30 <= norm && Usable(TWO_31, norm, out)
    ensures MachineRoundQ31(norm, out) == Round(TWO_31, norm, out)
  {
    var m := Complement(TWO_31, norm, out);
    ComplementBounds(TWO_31, norm, out);
    RoundBrackets(TWO_31, norm, out);
    RoundUndershoots(TWO_31, norm, out);
    UndershotIsBelowModulus(TWO_31, norm, Round(TWO_31, norm, out));
    UsableIsSmall(TWO_31, norm, out);
    MulNonneg(norm, out);
    MulNonneg(out, m);
    ProductsGrow(out, TWO_32, m, TWO_31 - 1);
    assert WrapS64(norm * out) == norm * out;
    assert WrapS64(out * m) == out * m;
    ClipQ63ToQ31IsClamp(out * m / TWO_30);
  }

  lemma MachineRoundQ15IsRound(norm: int, out: int)
    requires 0x4000 <= norm && Usable(TWO_15, norm, out)
    ensures MachineRoundQ15(norm, out) == Round(TWO_15, norm, out)
  {
    var m := Complement(TWO_15, norm, out);
    ComplementBounds(TWO_15, norm, out);
    RoundBrackets(TWO_15, norm, out);
    RoundUndershoots(TWO_15, norm, out);
    UndershotIsBelowModulus(TWO_15, norm, Round(TWO_15, norm, out));
    UsableIsSmall(TWO_15, norm, out);
    MulNonneg(norm, out);
    MulNonneg(out, m);
    ProductsGrow(out, TWO_16, m, TWO_15 - 1);
  }

  /** arm_recip_q31 on a positive input.  `ret - 1` is the normalising shift, so the result
      approximates 2^61 / (input * 2^(ret - 1)) from below. */
  method RecipQ31(input: int, table: seq<int>) returns (dst: int, ret: nat)
    requires 0 < input < TWO_31
    requires |table| == 64 && forall k | 0 <= k < 64 :: IsS32(table[k])
    ensures 1 <= ret <= 31 && NormalisedBy(TWO_31, input, ret - 1)
    ensures var norm := input * Pow2(ret - 1);
            forall k: nat | k < 64 && (64 + k) * TWO_24 <= norm < (65 + k) * TWO_24 && Usable(TWO_31, norm, WrapU32(table[k])) ::
              && dst == Rounds(TWO_31, norm, WrapU32(table[k]), 2)
              && 0 <= dst < TWO_31
              && 0 < Residual(TWO_31, norm, dst) <= Target(TWO_31)
    ensures GoodTableQ31(table) ==> 0 < Residual(TWO_31, input * Pow2(ret - 1), dst) < 0x22_0000_0000
  {
    var leading := CountLeadingZeros(input);
    LeadingZerosQ31(input, leading);
    var signBits := leading - 1;
    var norm := WrapS32(input * Pow2(signBits));
    var index := norm / TWO_24 % 64;
    var seed := WrapU32(table[index]);
    var out := seed;
    assert 64 + index == norm / TWO_24;
    for i := 0 to 2
      invariant IsU32(out)
      invariant Usable(TWO_31, norm, seed) ==> Usable(TWO_31, norm, out) && out == Rounds(TWO_31, norm, seed, i)
    {
      if Usable(TWO_31, norm, seed) {
        MachineRoundQ31IsRound(norm, out);
        RoundUndershoots(TWO_31, norm, out);
      }
      out := MachineRoundQ31(norm, out);
    }
    if Usable(TWO_31, norm, seed) {
      TwoRoundsConverge(TWO_31, norm, seed);
      UndershotIsBelowModulus(TWO_31, norm, out);
    }
    if GoodTableQ31(table) {
      assert GoodSeedQ31(norm, table[index]);
      Q31GoodSeed(norm, table[index]);
    }
    dst := WrapS32(out);
    ret := signBits + 1;
  }

  /** arm_recip_q15 on a positive input. */
  method RecipQ15(input: int, table: seq<int>) returns (dst: int, ret: nat)
    requires 0 < input < TWO_15
    requires |table| == 64 && forall k | 0 <= k < 64 :: IsS16(table[k])
    ensures 1 <= ret <= 15 && NormalisedBy(TWO_15, input, ret - 1)
    ensures var norm := input * Pow2(ret - 1);
            forall k: nat | k < 64 && (64 + k) * TWO_8 <= norm < (65 + k) * TWO_8 && Usable(TWO_15, norm, WrapU32(table[k])) ::
              && dst == Rounds(TWO_15, norm, WrapU32(table[k]), 2)
              && 0 <= dst < TWO_15
              && 0 < Residual(TWO_15, norm, dst) <= Target(TWO_15)
    ensures GoodTableQ15(table) ==> 0 < Residual(TWO_15, input * Pow2(ret - 1), dst) < 98403
  {
    var leading := CountLeadingZeros(input);
    LeadingZerosQ15(input, leading);
    var signBits := leading - 17;
    var norm := WrapS16(input * Pow2(signBits));
    var index := norm / TWO_8 % 64;
    var seed := WrapU32(table[index]);
    var out := seed;
    assert 64 + index == norm / TWO_8;
    for i := 0 to 2
      invariant IsU32(out)
      invariant Usable(TWO_15, norm, seed) ==> Usable(TWO_15, norm, out) && out == Rounds(TWO_15, norm, seed, i)
    {
      if Usable(TWO_15, norm, seed) {
        MachineRoundQ15IsRound(norm, out);
        RoundUndershoots(TWO_15, norm, out);
      }
      out := MachineRoundQ15(norm, out);
    }
    if Usable(TWO_15, norm, seed) {
      TwoRoundsConverge(TWO_15, norm, seed);
      UndershotIsBelowModulus(TWO_15, norm, out);
    }
    if GoodTableQ15(table) {
      assert GoodSeedQ15(norm, table[index]);
      Q15GoodSeed(norm, table[index]);
    }
    dst := WrapS16(out);
    ret := signBits + 1;
  }

  /** A positive q31 value has a leading zero, a positive q15 value has seventeen. */
  lemma LeadingZerosQ31(x: int, n: nat)
    requires 0 < x < TWO_31 && NormalisedBy(TWO_32, x, n)
    ensures 1 <= n && NormalisedBy(TWO_31, x, n - 1)
  {
    assert Pow2(0) == 1;
    ShiftByOneLess(x, n);
  }

  lemma LeadingZerosQ15(x: int, n: nat)
    requires 0 < x < TWO_15 && NormalisedBy(TWO_32, x, n)
    ensures 17 <= n && NormalisedBy(TWO_15, x, n - 17)
  {
    LanePowers();
    if n <= 16 {
      Pow2Grows(n, 16);
      ProductsGrow(x, TWO_15 - 1, Pow2(n), TWO_16);
      assert false;
    }
    Pow2Adds(n - 17, 17);
    assert Pow2(17) == 2 * TWO_16;
    assert x * (Pow2(n - 17) * Pow2(17)) == (x * Pow2(n - 17)) * Pow2(17);
  }
}
