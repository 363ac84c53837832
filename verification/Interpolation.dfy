/** Linear table interpolation: arm_linear_interp_q15, _q7 and _q31.

    An input in 12.20 format selects a cell by its top 12 bits and weighs the cell's two
    table entries by its low 20 bits.  The q15 and q7 weights add up to 2^20 - 1, not to
    2^20, which is where the off-by-one results below come from. */
module Interpolation {
  import opened MachineInt
  import opened Bits

  /** The value between `y0` and `y1` at fraction `f`. */
  function Cell(y0: int, y1: int, f: nat): int {
    (y0 * (TWO_20 - 1 - f) + y1 * f) / TWO_20
  }

  /** Interpolation of an unsigned 12.20 input, clamped to the last entry. */
  function Linear(table: seq<int>, u: nat): int
    requires table != []
  {
    var i := u / TWO_20;
    if i >= |table| - 1 then table[|table| - 1] else Cell(table[i], table[i + 1], u % TWO_20)
  }

  ghost predicate Q15Table(table: seq<int>) {
    0 < |table| <= 4096 && forall k | 0 <= k < |table| :: IsS16(table[k])
  }

  ghost predicate Q7Table(table: seq<int>) {
    0 < |table| <= 4096 && forall k | 0 <= k < |table| :: IsS8(table[k])
  }

  ghost predicate Sorted(table: seq<int>) {
    forall i, j | 0 <= i <= j < |table| :: table[i] <= table[j]
  }

  // ----- the routines

  /** The mask is an unsigned constant, so a negative input selects a high cell and the
      branch for a negative index is never taken. */
  function LinearQ15(table: seq<int>, x: int): int
    requires Q15Table(table) && IsS32(x)
  {
    var index := WrapS32(And(WrapU32(x), 0xFFF0_0000) / TWO_20);
    if index >= |table| - 1 then table[|table| - 1]
    else if index < 0 then table[0]
    else
      var fract := And(WrapU32(x), 0xF_FFFF);
      var y := WrapS64(table[index] * (0xF_FFFF - fract));
      WrapS16(WrapS64(y + WrapS64(table[index + 1] * fract)) / TWO_20)
  }

  function LinearQ7(table: seq<int>, x: int): int
    requires Q7Table(table) && IsS32(x)
  {
    if x < 0 then table[0]
    else
      var index := And(x / TWO_20, 0xFFF);
      if index >= |table| - 1 then table[|table| - 1]
      else
        var fract := And(x, 0xF_FFFF);
        var y := WrapS32(table[index] * (0xF_FFFF - fract));
        WrapS8(WrapS32(y + WrapS32(table[index + 1] * fract)) / TWO_20)
  }

  lemma SplitInput(u: nat)
    requires u < TWO_32
    ensures And(u, 0xFFF0_0000) / TWO_20 == u / TWO_20 < 4096
    ensures And(u, 0xF_FFFF) == u % TWO_20
    ensures And(u / TWO_20, 0xFFF) == u / TWO_20
  {
    InputPowers();
    FieldMaskIs(20, 12);
    AndField(u, 20, 12);
    HighField(u);
    AndLowMask(u, 20);
    AndLowMask(u / TWO_20, 12);
  }

  lemma HighField(u: nat)
    requires u < TWO_32
    ensures (TWO_20 * ((u / TWO_20) % 4096)) / TWO_20 == u / TWO_20 < 4096
    ensures u / TWO_20 % 4096 == u / TWO_20
  {}

  lemma InputPowers()
    ensures Pow2(20) == TWO_20 && Pow2(12) == 4096
  {
    LanePowers();
    assert Pow2(4) == 16;
    Pow2Adds(4, 8);
    Pow2Adds(12, 8);
  }

  lemma LinearQ15IsLinear(table: seq<int>, x: int)
    requires Q15Table(table) && IsS32(x)
    ensures LinearQ15(table, x) == Linear(table, WrapU32(x))
  {
    hide And;
    var u := WrapU32(x);
    SplitInput(u);
    var i, f := u / TWO_20, u % TWO_20;
    if i < |table| - 1 {
      ProductBound(table[i], TWO_20 - 1 - f, TWO_15, TWO_20);
      ProductBound(table[i + 1], f, TWO_15, TWO_20);
      CellRange(table[i], table[i + 1], f);
    }
  }

  lemma LinearQ7IsLinear(table: seq<int>, x: int)
    requires Q7Table(table) && IsS32(x)
    ensures LinearQ7(table, x) == if x < 0 then table[0] else Linear(table, x)
  {
    if x >= 0 {
      SplitInput(x);
      var i, f := x / TWO_20, x % TWO_20;
      if i < |table| - 1 {
        ProductBound(table[i], TWO_20 - 1 - f, TWO_7, TWO_20);
        ProductBound(table[i + 1], f, TWO_7, TWO_20);
        CellRange(table[i], table[i + 1], f);
        CellFitsQ7(table[i], table[i + 1], f);
      }
    }
  }

  // ----- one cell

  lemma WeightedSumBounds(y0: int, y1: int, f: nat, lo: int, hi: int)
    requires f < TWO_20 && lo <= y0 <= hi && lo <= y1 <= hi
    ensures lo * (TWO_20 - 1) <= y0 * (TWO_20 - 1 - f) + y1 * f <= hi * (TWO_20 - 1)
  {
    MulBounds(y0, lo, hi, TWO_20 - 1 - f);
    MulBounds(y1, lo, hi, f);
    Distribute(lo, f);
    Distribute(hi, f);
  }

  lemma Distribute(y: int, f: int)
    ensures y * (TWO_20 - 1 - f) + y * f == y * (TWO_20 - 1)
  {
  }

  /** The output never leaves the cell by more than one unit, and only downwards. */
  lemma CellRange(y0: int, y1: int, f: nat)
    requires IsS16(y0) && IsS16(y1) && f < TWO_20
    ensures Min(y0, y1) - 1 <= Cell(y0, y1, f) <= Max(y0, y1)
    ensures Min(y0, y1) <= 0 ==> Min(y0, y1) <= Cell(y0, y1, f)
  {
    WeightedSumBounds(y0, y1, f, Min(y0, y1), Max(y0, y1));
  }

  /** The distance to the exact value `y0 + (y1 - y0) f / 2^20`: the missing weight of `y0`,
      and less than one unit of rounding. */
  lemma CellError(y0: int, y1: int, f: nat)
    ensures var exact := y0 * (TWO_20 - f) + y1 * f;
            -TWO_20 - y0 < TWO_20 * Cell(y0, y1, f) - exact <= -y0
  {
    assert y0 * (TWO_20 - 1 - f) == y0 * (TWO_20 - f) - y0;
  }

  /** What the q15 routine returns, in terms of its input alone: past the last cell the last
      entry, and otherwise the value on the line between the two entries that the upper 12 bits
      select, at the fraction of the lower 20, less the missing weight of the first and less
      than one unit of rounding. */
  lemma LinearQ15Error(table: seq<int>, x: int)
    requires Q15Table(table) && IsS32(x)
    ensures var u := if x < 0 then x + TWO_32 else x;
            var i, f := u / TWO_20, u % TWO_20;
            if |table| <= i + 1 then LinearQ15(table, x) == table[|table| - 1]
            else var exact := table[i] * (TWO_20 - f) + table[i + 1] * f;
                 -TWO_20 - table[i] < TWO_20 * LinearQ15(table, x) - exact <= -table[i]
  {
    hide LinearQ15, Cell;
    LinearQ15IsLinear(table, x);
    var u := WrapU32(x);
    assert u == if x < 0 then x + TWO_32 else x;
    if u / TWO_20 + 1 < |table| {
      CellError(table[u / TWO_20], table[u / TWO_20 + 1], u % TWO_20);
    }
  }

  /** The same for q7, where a negative input gives the first entry. */
  lemma LinearQ7Error(table: seq<int>, x: int)
    requires Q7Table(table) && IsS32(x)
    ensures var i, f := x / TWO_20, x % TWO_20;
            if x < 0 then LinearQ7(table, x) == table[0]
            else if |table| <= i + 1 then LinearQ7(table, x) == table[|table| - 1]
            else var exact := table[i] * (TWO_20 - f) + table[i + 1] * f;
                 -TWO_20 - table[i] < TWO_20 * LinearQ7(table, x) - exact <= -table[i]
  {
    hide LinearQ7, Cell;
    LinearQ7IsLinear(table, x);
    if x >= 0 && x / TWO_20 + 1 < |table| {
      CellError(table[x / TWO_20], table[x / TWO_20 + 1], x % TWO_20);
    }
  }

  lemma CellFitsQ7(y0: int, y1: int, f: nat)
    requires IsS8(y0) && IsS8(y1) && f < TWO_20
    ensures IsS8(Cell(y0, y1, f))
  {
    CellRange(y0, y1, f);
  }

  lemma CellStep(y0: int, y1: int, f: nat)
    requires IsS16(y0) && IsS16(y1) && f + 1 < TWO_20
    ensures -1 <= Cell(y0, y1, f + 1) - Cell(y0, y1, f) <= 1
    ensures y0 <= y1 ==> Cell(y0, y1, f) <= Cell(y0, y1, f + 1)
  {
    var s := y0 * (TWO_20 - 1 - f) + y1 * f;
    assert y0 * (TWO_20 - 1 - (f + 1)) + y1 * (f + 1) == s + (y1 - y0);
    FloorStep(s, y1 - y0);
  }

  lemma FloorStep(s: int, d: int)
    requires -TWO_20 < d < TWO_20
    ensures -1 <= (s + d) / TWO_20 - s / TWO_20 <= 1
    ensures 0 <= d ==> s / TWO_20 <= (s + d) / TWO_20
  {}

  /** What the routine returns at a table position: one less than a positive entry. */
  function AtKnot(y: int): int { if y > 0 then y - 1 else y }

  lemma CellEnds(y0: int, y1: int)
    requires IsS16(y0) && IsS16(y1)
    ensures Cell(y0, y1, 0) == AtKnot(y0) && Cell(y0, y1, TWO_20 - 1) == AtKnot(y1)
  {
    assert y1 * 0 == 0 && y0 * 0 == 0;
  }

  // ----- the whole function

  /** Neighbouring inputs, within a cell, across cells and into the final clamp. */
  lemma AdjacentInputs(table: seq<int>, u: nat)
    requires Q15Table(table)
    ensures -1 <= Linear(table, u + 1) - Linear(table, u) <= 1
    ensures Sorted(table) ==> Linear(table, u) <= Linear(table, u + 1)
  {
    var i, f := u / TWO_20, u % TWO_20;
    if i < |table| - 1 {
      if f + 1 < TWO_20 {
        assert (u + 1) / TWO_20 == i && (u + 1) % TWO_20 == f + 1;
        CellStep(table[i], table[i + 1], f);
      } else {
        assert (u + 1) / TWO_20 == i + 1 && (u + 1) % TWO_20 == 0;
        CellEnds(table[i], table[i + 1]);
        if i + 1 < |table| - 1 {
          CellEnds(table[i + 1], table[i + 2]);
        }
      }
    } else {
      assert (u + 1) / TWO_20 >= i;
    }
  }

  /** The interpolated function moves no faster than its input. */
  lemma {:induction false} Lipschitz(table: seq<int>, u: nat, v: nat)
    requires Q15Table(table) && u <= v
    ensures -(v - u) <= Linear(table, v) - Linear(table, u) <= v - u
    decreases v
  {
    if u < v {
      Lipschitz(table, u, v - 1);
      AdjacentInputs(table, v - 1);
    }
  }

  /** A nondecreasing table is interpolated by a nondecreasing function. */
  lemma {:induction false} Monotone(table: seq<int>, u: nat, v: nat)
    requires Q15Table(table) && Sorted(table) && u <= v
    ensures Linear(table, u) <= Linear(table, v)
    decreases v
  {
    if u < v {
      Monotone(table, u, v - 1);
      AdjacentInputs(table, v - 1);
    }
  }

  /** Every output lies within its own cell, up to the one unit of the weights. */
  lemma LinearRange(table: seq<int>, u: nat)
    requires Q15Table(table)
    ensures var i := u / TWO_20;
            if i < |table| - 1
            then Min(table[i], table[i + 1]) - 1 <= Linear(table, u) <= Max(table[i], table[i + 1])
            else Linear(table, u) == table[|table| - 1]
  {
    if u / TWO_20 < |table| - 1 {
      CellRange(table[u / TWO_20], table[u / TWO_20 + 1], u % TWO_20);
    }
  }

  /** An input exactly on a table position returns that entry if and only if the entry is
      not positive or is the last. */
  lemma ExactAtKnot(table: seq<int>, i: nat)
    requires Q15Table(table) && i < |table|
    ensures Linear(table, i * TWO_20) == table[i] <==> (table[i] <= 0 || i == |table| - 1)
  {
    assert (i * TWO_20) / TWO_20 == i && (i * TWO_20) % TWO_20 == 0;
    if i < |table| - 1 {
      CellEnds(table[i], table[i + 1]);
    }
  }

  // ----- negative inputs

  /** In q7 a negative input is clamped to the first entry, but the first cell starts one
      below a positive first entry: a nondecreasing table then gives a nondecreasing
      function over all inputs exactly when that entry is not positive. */
  lemma Q7MonotoneIff(table: seq<int>)
    requires Q7Table(table) && Sorted(table)
    ensures (forall x, x' | IsS32(x) && IsS32(x') && x <= x' :: LinearQ7(table, x) <= LinearQ7(table, x'))
        <==> (|table| == 1 || table[0] <= 0)
  {
    hide Linear, LinearQ7, Cell;
    LinearQ7IsLinear(table, -1);
    LinearQ7IsLinear(table, 0);
    StartsAtFirst(table);
    if |table| == 1 || table[0] <= 0 {
      forall x, x' | IsS32(x) && IsS32(x') && x <= x'
        ensures LinearQ7(table, x) <= LinearQ7(table, x')
      {
        LinearQ7IsLinear(table, x);
        LinearQ7IsLinear(table, x');
        if x' >= 0 {
          Monotone(table, if x < 0 then 0 else x, x');
        }
      }
    } else {
      assert IsS32(-1) && IsS32(0) && LinearQ7(table, -1) > LinearQ7(table, 0);
    }
  }

  /** In q15 a negative input reads as a large one, and -1 as the largest, which is past every
      table: over all inputs only a constant table that is not positive, or a table of one
      entry, keeps the function monotone. */
  lemma Q15MonotoneIff(table: seq<int>)
    requires Q15Table(table) && Sorted(table)
    ensures (forall x, x' | IsS32(x) && IsS32(x') && x <= x' :: LinearQ15(table, x) <= LinearQ15(table, x'))
        <==> (|table| == 1 || (table[0] == table[|table| - 1] && table[0] <= 0))
  {
    hide Linear, LinearQ15, Cell;
    var last := table[|table| - 1];
    if |table| == 1 || (table[0] == last && table[0] <= 0) {
      forall x | IsS32(x) ensures LinearQ15(table, x) == last {
        LinearQ15IsLinear(table, x);
        ConstantTable(table, WrapU32(x));
      }
    } else {
      LinearQ15IsLinear(table, -1);
      LinearQ15IsLinear(table, 0);
      MinusOneReadsLast(table);
      StartsAtFirst(table);
      assert IsS32(-1) && IsS32(0) && LinearQ15(table, -1) > LinearQ15(table, 0);
    }
  }

  lemma ConstantTable(table: seq<int>, u: nat)
    requires Q15Table(table) && Sorted(table)
    requires |table| == 1 || (table[0] == table[|table| - 1] && table[0] <= 0)
    ensures Linear(table, u) == table[|table| - 1]
  {
    hide Cell;
    var i := u / TWO_20;
    if i < |table| - 1 {
      CellRange(table[i], table[i + 1], u % TWO_20);
    }
  }

  lemma MinusOneReadsLast(table: seq<int>)
    requires Q15Table(table)
    ensures Linear(table, WrapU32(-1)) == table[|table| - 1]
  {
    assert WrapU32(-1) / TWO_20 == 4095;
  }

  /** The value at zero is the first entry, or one less than a positive first entry. */
  lemma StartsAtFirst(table: seq<int>)
    requires Q15Table(table)
    ensures Linear(table, 0) == if |table| == 1 then table[0] else AtKnot(table[0])
  {
    if |table| > 1 {
      CellEnds(table[0], table[1]);
    }
  }

  // ----- q31

  ghost predicate Q31Table(table: seq<int>) {
    0 < |table| <= 4096 && forall k | 0 <= k < |table| :: IsS32(table[k])
  }

  /** Two truncated 32 x 32 high products, added and doubled. */
  function CellQ31(y0: int, y1: int, fract: int): int {
    var y := WrapS32(WrapS64(y0 * (TWO_31 - 1 - fract)) / TWO_32);
    var y := WrapS32(y + WrapS32(WrapS64(y1 * fract) / TWO_32));
    WrapS32(y * 2)
  }

  function LinearQ31(table: seq<int>, x: int): int
    requires Q31Table(table) && IsS32(x)
  {
    var index := WrapS32(And(WrapU32(x), 0xFFF0_0000) / TWO_20);
    if index >= |table| - 1 then table[|table| - 1]
    else if index < 0 then table[0]
    else CellQ31(table[index], table[index + 1], WrapS32(And(WrapU32(x), 0xF_FFFF) * 0x800))
  }

  /** No step of the q31 cell overflows, whatever the fraction: exactly one of the two weights
      is odd, so the two floors together lose at most what the doubling has room for. */
  lemma CellQ31NoOverflow(y0: int, y1: int, fract: nat)
    requires IsS32(y0) && IsS32(y1) && fract < TWO_31
    ensures CellQ31(y0, y1, fract)
         == 2 * ((y0 * (TWO_31 - 1 - fract)) / TWO_32 + (y1 * fract) / TWO_32)
  {
    var p, q := y0 * (TWO_31 - 1 - fract), y1 * fract;
    HighProduct(y0, TWO_31 - 1 - fract);
    HighProduct(y1, fract);
    HighProductsFit(p, q, fract);
  }

  lemma HighProduct(y: int, w: nat)
    requires IsS32(y) && w < TWO_31
    ensures -TWO_31 * w <= y * w <= (TWO_31 - 1) * w
    ensures IsS64(y * w) && IsS32((y * w) / TWO_32)
  {
    MulBounds(y, -TWO_31, TWO_31 - 1, w);
  }

  lemma HighProductsFit(p: int, q: int, fract: nat)
    requires fract < TWO_31
    requires -TWO_31 * (TWO_31 - 1 - fract) <= p <= (TWO_31 - 1) * (TWO_31 - 1 - fract)
    requires -TWO_31 * fract <= q <= (TWO_31 - 1) * fract
    ensures -TWO_30 <= p / TWO_32 + q / TWO_32 < TWO_30
  {
    assert fract == 2 * (fract / 2) + fract % 2;
  }

  /** The result differs from the exact rational interpolation by less than five units below
      and at most one above. */
  lemma Q31Error(y0: int, y1: int, fract: nat)
    requires IsS32(y0) && IsS32(y1) && fract < TWO_31
    ensures var exact := y0 * (TWO_31 - fract) + y1 * fract;
            -5 * TWO_31 < TWO_31 * CellQ31(y0, y1, fract) - exact <= TWO_31
  {
    CellQ31NoOverflow(y0, y1, fract);
    var p, q := y0 * (TWO_31 - 1 - fract), y1 * fract;
    assert y0 * (TWO_31 - fract) == p + y0;
  }

  /** Every input, read as unsigned, gives the last entry or the cell its top bits select, at
      its low bits scaled to 31. */
  lemma LinearQ31Cases(table: seq<int>, x: int)
    requires Q31Table(table) && IsS32(x)
    ensures var u := WrapU32(x);
            var i, fract := u / TWO_20, (u % TWO_20) * 0x800;
            && fract < TWO_31
            && LinearQ31(table, x) ==
                 if i >= |table| - 1 then table[|table| - 1] else CellQ31(table[i], table[i + 1], fract)
  {
    hide And, CellQ31;
    SplitInput(WrapU32(x));
    FractionFits(WrapU32(x) % TWO_20);
  }

  lemma FractionFits(f: nat)
    requires f < TWO_20
    ensures f * 0x800 < TWO_31
  {}

  /** What a cell gives at its start: the two weights add up to 2^31 - 1 under a division by
      2^32, and the doubling leaves only even results. */
  function Shrunk(y: int): int { 2 * ((y * (TWO_31 - 1)) / TWO_32) }

  lemma ShrunkIs(y: int)
    requires IsS32(y)
    ensures y - 2 <= Shrunk(y) <= y && (y > 0 ==> Shrunk(y) < y)
  {}

  /** Every cell lies between its ends, shrunk, and two units below the smaller.  The upper end
      is reached at the start of a cell (`CellQ31Start`), the lower one on a constant table
      (`Q31ConstantFalls`). */
  lemma CellQ31Range(y0: int, y1: int, fract: nat, lo: int, hi: int)
    requires IsS32(lo) && IsS32(hi) && lo <= y0 <= hi && lo <= y1 <= hi && fract < TWO_31
    ensures Shrunk(lo) - 2 <= CellQ31(y0, y1, fract) <= Shrunk(hi)
    ensures lo - 4 <= CellQ31(y0, y1, fract) <= hi
  {
    hide CellQ31, Shrunk;
    CellQ31NoOverflow(y0, y1, fract);
    var w := TWO_31 - 1;
    WeightsAddUp(y0, y1, fract, w, lo, hi);
    FloorsInRange(y0 * (w - fract), y1 * fract, lo, hi);
    ShrunkIs(lo);
    ShrunkIs(hi);
  }

  lemma FloorsInRange(p: int, q: int, lo: int, hi: int)
    requires lo * (TWO_31 - 1) <= p + q <= hi * (TWO_31 - 1)
    ensures Shrunk(lo) - 2 <= 2 * (p / TWO_32 + q / TWO_32) <= Shrunk(hi)
  {
    TwoFloors(p, q, lo * (TWO_31 - 1), hi * (TWO_31 - 1));
  }

  lemma CellQ31Start(y0: int, y1: int)
    requires IsS32(y0) && IsS32(y1)
    ensures CellQ31(y0, y1, 0) == Shrunk(y0)
  {
    hide CellQ31;
    CellQ31NoOverflow(y0, y1, 0);
  }

  lemma WeightsAddUp(y0: int, y1: int, f: nat, w: nat, lo: int, hi: int)
    requires lo <= y0 <= hi && lo <= y1 <= hi && f <= w
    ensures lo * w <= y0 * (w - f) + y1 * f <= hi * w
  {
    MulBounds(y0, lo, hi, w - f);
    MulBounds(y1, lo, hi, f);
    assert lo * (w - f) + lo * f == lo * w && hi * (w - f) + hi * f == hi * w;
  }

  /** Two floors together are the floor of the sum or one less. */
  lemma TwoFloors(p: int, q: int, lo: int, hi: int)
    requires lo <= p + q <= hi
    ensures lo / TWO_32 - 1 <= p / TWO_32 + q / TWO_32 <= hi / TWO_32
    ensures (p + q) / TWO_32 - 1 <= p / TWO_32 + q / TWO_32 <= (p + q) / TWO_32
  {}

  /** Inside a cell that does not fall the result falls by at most two units. */
  lemma CellQ31Falls(y0: int, y1: int, f: nat, g: nat)
    requires IsS32(y0) && IsS32(y1) && y0 <= y1 && f <= g < TWO_31
    ensures CellQ31(y0, y1, f) - 2 <= CellQ31(y0, y1, g)
  {
    hide CellQ31;
    CellQ31NoOverflow(y0, y1, f);
    CellQ31NoOverflow(y0, y1, g);
    var w := TWO_31 - 1;
    var p, q, p', q' := y0 * (w - f), y1 * f, y0 * (w - g), y1 * g;
    assert (p' + q') - (p + q) == (y1 - y0) * (g - f);
    MulNonneg(y1 - y0, g - f);
    TwoFloors(p, q, p + q, p' + q');
    TwoFloors(p', q', p + q, p' + q');
  }

  /** Unlike the other two, the q31 function of a nondecreasing table need not be nondecreasing
      anywhere, but over all inputs, read as unsigned, it falls by at most two units. */
  lemma Q31FallsAtMostTwo(table: seq<int>, x: int, x': int)
    requires Q31Table(table) && Sorted(table) && IsS32(x) && IsS32(x') && WrapU32(x) <= WrapU32(x')
    ensures LinearQ31(table, x) - 2 <= LinearQ31(table, x')
  {
    hide LinearQ31, CellQ31, Shrunk;
    var u, u' := WrapU32(x), WrapU32(x');
    var i, j, f, g := u / TWO_20, u' / TWO_20, (u % TWO_20) * 0x800, (u' % TWO_20) * 0x800;
    LinearQ31Cases(table, x);
    LinearQ31Cases(table, x');
    if i < |table| - 1 {
      CellQ31Range(table[i], table[i + 1], f, table[i], table[i + 1]);
      ShrunkIs(table[i + 1]);
      if j >= |table| - 1 {
      } else if i == j {
        CellQ31Falls(table[i], table[i + 1], f, g);
      } else {
        CellQ31Range(table[j], table[j + 1], g, table[j], table[j + 1]);
        ShrunkGrows(table[i + 1], table[j]);
      }
    }
  }

  lemma ShrunkGrows(y: int, y': int)
    requires y <= y'
    ensures Shrunk(y) <= Shrunk(y')
  {}

  /** A constant table on which it does: two units down from one input to the next. */
  lemma Q31ConstantFalls()
    ensures Q31Table([-1, -1]) && Sorted([-1, -1])
    ensures LinearQ31([-1, -1], 0) == -2 == Shrunk(-1) && LinearQ31([-1, -1], 1) == -4
  {
    hide LinearQ31, CellQ31;
    LinearQ31Cases([-1, -1], 0);
    LinearQ31Cases([-1, -1], 1);
    CellQ31NoOverflow(-1, -1, 0);
    CellQ31NoOverflow(-1, -1, 0x800);
  }
}
