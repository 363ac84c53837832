/** Bilinear table interpolation in q7: arm_bilinear_interp_q7.

    Both inputs are in 12.20 format.  The weights of each axis add up to 2^20 - 1, so the
    four weights of a cell add up to (2^20 - 1)^2 under a division by 2^40. */
module Bilinear {
  import opened MachineInt
  import opened Bits
  import Interpolation

  const TOP: int := TWO_20 - 1
  const TWO_40: int := 0x100_0000_0000

  datatype Table = Table(numRows: nat, numCols: nat, data: seq<int>)

  /** The table entries around a point, and the point's fractions. */
  datatype Cell = Cell(x1: int, x2: int, y1: int, y2: int, xf: nat, yf: nat)

  ghost predicate ValidTable(t: Table) {
    && 0 < t.numRows <= 4096 && 0 < t.numCols <= 4096
    && forall k | 0 <= k < |t.data| :: IsS8(t.data[k])
  }

  ghost predicate ValidCell(c: Cell) {
    IsS8(c.x1) && IsS8(c.x2) && IsS8(c.y1) && IsS8(c.y2) && c.xf < TWO_20 && c.yf < TWO_20
  }

  /** The routine's own test: a point outside gives zero. */
  predicate Inside(t: Table, u: nat, v: nat) {
    u / TWO_20 <= t.numRows - 1 && v / TWO_20 <= t.numCols - 1
  }

  function Corner(t: Table, u: nat, v: nat): nat {
    u / TWO_20 + t.numCols * (v / TWO_20)
  }

  /** The four reads fall inside the data.  The routine does not test this;
      `AlwaysReadableIff` says for which tables its own test is enough. */
  predicate Readable(t: Table, u: nat, v: nat) {
    Corner(t, u, v + TWO_20) + 1 < |t.data| && Corner(t, u, v) + 1 < |t.data|
  }

  /** Every point the routine accepts is readable if and only if the data go on past the entry
      below the last corner: the row index runs along a row of the data, the reads along the
      second axis go one row on, and the last point is the one that reads furthest. */
  lemma AlwaysReadableIff(t: Table)
    requires 0 < t.numRows <= 4096 && 0 < t.numCols <= 4096
    ensures (forall u: nat, v: nat | u < TWO_32 && v < TWO_32 && Inside(t, u, v) :: Readable(t, u, v))
       <==> t.numRows + t.numCols * t.numCols < |t.data|
  {
    var u0, v0 := (t.numRows - 1) * TWO_20, (t.numCols - 1) * TWO_20;
    LastPoint(t, u0, v0);
    if t.numRows + t.numCols * t.numCols < |t.data| {
      forall u: nat, v: nat | u < TWO_32 && v < TWO_32 && Inside(t, u, v) ensures Readable(t, u, v) {
        NextRow(v);
        MulBounds(v / TWO_20, 0, t.numCols - 1, t.numCols);
        MulBounds(v / TWO_20 + 1, 0, t.numCols, t.numCols);
      }
    } else {
      assert Inside(t, u0, v0) && !Readable(t, u0, v0);
    }
  }

  lemma LastPoint(t: Table, u: nat, v: nat)
    requires 0 < t.numRows <= 4096 && 0 < t.numCols <= 4096
    requires u == (t.numRows - 1) * TWO_20 && v == (t.numCols - 1) * TWO_20
    ensures u < TWO_32 && v < TWO_32 && Inside(t, u, v)
    ensures Corner(t, u, v + TWO_20) + 1 == t.numRows + t.numCols * t.numCols
  {
    NextRow(v);
  }

  /** A table of 3 by 3 entries: its last corner is accepted and read out of bounds. */
  lemma SquareTableIsOverrun(data: seq<int>)
    requires |data| == 9
    ensures var t := Table(3, 3, data); Inside(t, 2 * TWO_20, 2 * TWO_20) && !Readable(t, 2 * TWO_20, 2 * TWO_20)
  {}

  function CellAt(t: Table, u: nat, v: nat): Cell
    requires Readable(t, u, v)
  {
    var k, l := Corner(t, u, v), Corner(t, u, v + TWO_20);
    Cell(t.data[k], t.data[k + 1], t.data[l], t.data[l + 1], u % TWO_20, v % TWO_20)
  }

  /** The mathematical value: along the first axis between two values along the second. */
  function Left(c: Cell): int { c.x1 * (TOP - c.yf) + c.y1 * c.yf }
  function Right(c: Cell): int { c.x2 * (TOP - c.yf) + c.y2 * c.yf }
  function Weighted(c: Cell): int { Left(c) * (TOP - c.xf) + Right(c) * c.xf }
  function Value(c: Cell): int { Weighted(c) / TWO_40 }

  /** The same four terms in the order and widths of the routine. */
  function MachineValue(c: Cell): int {
    var out := WrapS32(c.x1 * (TOP - c.xf));
    var acc := WrapS64(out * (TOP - c.yf));
    var out := WrapS32(c.x2 * (TOP - c.yf));
    var acc := WrapS64(acc + WrapS64(out * c.xf));
    var out := WrapS32(c.y1 * (TOP - c.xf));
    var acc := WrapS64(acc + WrapS64(out * c.yf));
    var out := WrapS32(c.y2 * c.yf);
    var acc := WrapS64(acc + WrapS64(out * c.xf));
    WrapS8(acc / TWO_40)
  }

  function BilinearQ7(t: Table, x: int, y: int): int
    requires Inside(t, WrapU32(x), WrapU32(y)) ==> Readable(t, WrapU32(x), WrapU32(y))
  {
    var rI := WrapS32(And(WrapU32(x), 0xFFF0_0000) / TWO_20);
    var cI := WrapS32(And(WrapU32(y), 0xFFF0_0000) / TWO_20);
    Interpolation.SplitInput(WrapU32(x));
    Interpolation.SplitInput(WrapU32(y));
    if rI < 0 || rI > t.numRows - 1 || cI < 0 || cI > t.numCols - 1 then 0
    else
      var xf, yf := And(WrapU32(x), 0xF_FFFF), And(WrapU32(y), 0xF_FFFF);
      NextRow(WrapU32(y));
      MachineValue(Cell(t.data[rI + t.numCols * cI], t.data[rI + t.numCols * cI + 1],
                        t.data[rI + t.numCols * (cI + 1)], t.data[rI + t.numCols * (cI + 1) + 1], xf, yf))
  }

  lemma NextRow(v: nat)
    ensures (v + TWO_20) / TWO_20 == v / TWO_20 + 1
  {}

  // ----- no overflow

  lemma SmallProduct(a: int, w: int)
    requires IsS8(a) && 0 <= w <= TOP
    ensures -TWO_7 * TOP <= a * w <= TWO_7 * TOP
  {
    MulBounds(a, -TWO_7, TWO_7, w);
  }

  lemma TermFits(a: int, w1: int, w2: int)
    requires IsS8(a) && 0 <= w1 <= TOP && 0 <= w2 <= TOP
    ensures IsS32(a * w1)
    ensures SmallTerm((a * w1) * w2)
  {
    SmallProduct(a, w1);
    MulBounds(a * w1, -TWO_7 * TOP, TWO_7 * TOP, w2);
  }

  lemma Terms(c: Cell)
    ensures Weighted(c) == (c.x1 * (TOP - c.xf)) * (TOP - c.yf) + (c.x2 * (TOP - c.yf)) * c.xf
                         + (c.y1 * (TOP - c.xf)) * c.yf + (c.y2 * c.yf) * c.xf
  {
    assert Left(c) * (TOP - c.xf) == (c.x1 * (TOP - c.yf)) * (TOP - c.xf) + (c.y1 * c.yf) * (TOP - c.xf);
    assert Right(c) * c.xf == (c.x2 * (TOP - c.yf)) * c.xf + (c.y2 * c.yf) * c.xf;
    SwapFactors(c.x1, TOP - c.yf, TOP - c.xf);
    SwapFactors(c.y1, c.yf, TOP - c.xf);
  }

  lemma SwapFactors(a: int, b: int, c: int)
    ensures (a * b) * c == (a * c) * b
  {}

  /** No product, sum or cast of the routine loses anything. */
  lemma MachineValueIsValue(c: Cell)
    requires ValidCell(c)
    ensures MachineValue(c) == Value(c)
  {
    TermFits(c.x1, TOP - c.xf, TOP - c.yf);
    TermFits(c.x2, TOP - c.yf, c.xf);
    TermFits(c.y1, TOP - c.xf, c.yf);
    TermFits(c.y2, c.yf, c.xf);
    SumFits((c.x1 * (TOP - c.xf)) * (TOP - c.yf), (c.x2 * (TOP - c.yf)) * c.xf,
            (c.y1 * (TOP - c.xf)) * c.yf, (c.y2 * c.yf) * c.xf);
    assert MachineValue(c) == WrapS8(Value(c)) by { Terms(c); }
    assert IsS8(Value(c)) by { ValueRange(c, -TWO_7, TWO_7 - 1); }
  }

  predicate SmallTerm(a: int) { -0x8000_0000_0000 <= a <= 0x8000_0000_0000 }

  lemma SumFits(a: int, b: int, c: int, d: int)
    requires SmallTerm(a) && SmallTerm(b) && SmallTerm(c) && SmallTerm(d)
    ensures WrapS64(WrapS64(WrapS64(WrapS64(a) + WrapS64(b)) + WrapS64(c)) + WrapS64(d)) == a + b + c + d
  {
    assert IsS64(a) && IsS64(b) && IsS64(c) && IsS64(d);
    assert IsS64(a + b) && IsS64(a + b + c) && IsS64(a + b + c + d);
  }

  lemma BilinearQ7IsValue(t: Table, x: int, y: int)
    requires ValidTable(t)
    requires Inside(t, WrapU32(x), WrapU32(y)) ==> Readable(t, WrapU32(x), WrapU32(y))
    ensures BilinearQ7(t, x, y) ==
              if Inside(t, WrapU32(x), WrapU32(y)) then Value(CellAt(t, WrapU32(x), WrapU32(y))) else 0
  {
    hide And, Value, MachineValue;
    var u, v := WrapU32(x), WrapU32(y);
    Interpolation.SplitInput(u);
    Interpolation.SplitInput(v);
    NextRow(v);
    if Inside(t, u, v) {
      MachineValueIsValue(CellAt(t, u, v));
    }
  }

  // ----- range and steps

  lemma AxisBounds(a: int, b: int, f: int, lo: int, hi: int)
    requires lo <= a <= hi && lo <= b <= hi && 0 <= f <= TOP
    ensures lo * TOP <= a * (TOP - f) + b * f <= hi * TOP
  {
    MulBounds(a, lo, hi, TOP - f);
    MulBounds(b, lo, hi, f);
    assert lo * (TOP - f) + lo * f == lo * TOP;
    assert hi * (TOP - f) + hi * f == hi * TOP;
  }

  /** The output lies between the smallest corner less one and the largest corner. */
  lemma ValueRange(c: Cell, lo: int, hi: int)
    requires ValidCell(c) && IsS8(lo) && IsS8(hi)
    requires lo <= c.x1 <= hi && lo <= c.x2 <= hi && lo <= c.y1 <= hi && lo <= c.y2 <= hi
    ensures lo - 1 <= Value(c) <= hi
    ensures lo <= 0 ==> lo <= Value(c)
  {
    AxisBounds(c.x1, c.y1, c.yf, lo, hi);
    AxisBounds(c.x2, c.y2, c.yf, lo, hi);
    AxisBounds(Left(c), Right(c), c.xf, lo * TOP, hi * TOP);
    FloorRange(Weighted(c), lo, hi);
  }

  lemma FloorRange(s: int, lo: int, hi: int)
    requires IsS8(lo) && IsS8(hi) && (lo * TOP) * TOP <= s <= (hi * TOP) * TOP
    ensures lo - 1 <= s / TWO_40 <= hi
    ensures lo <= 0 ==> lo <= s / TWO_40
  {}

  /** The interpolation with full weights, scaled by 2^40. */
  function Exact(c: Cell): int {
    (c.x1 * (TWO_20 - c.yf) + c.y1 * c.yf) * (TWO_20 - c.xf) + (c.x2 * (TWO_20 - c.yf) + c.y2 * c.yf) * c.xf
  }

  /** The weights the routine drops along both edges. */
  lemma MissingWeight(c: Cell)
    ensures Exact(c) - Weighted(c) == c.x1 * (TOP - c.xf) + c.x2 * c.xf + Left(c) + c.x1
  {
    var a, b := c.x1 * (TWO_20 - c.yf) + c.y1 * c.yf, c.x2 * (TWO_20 - c.yf) + c.y2 * c.yf;
    assert a == Left(c) + c.x1 && b == Right(c) + c.x2;
    assert a * (TWO_20 - c.xf) == Left(c) * (TOP - c.xf) + Left(c) + c.x1 * (TOP - c.xf) + c.x1;
    assert b * c.xf == Right(c) * c.xf + c.x2 * c.xf;
  }

  /** The output is within one unit, and the weight of one edge in 2^19, of the exact value. */
  lemma ValueError(c: Cell)
    requires ValidCell(c)
    ensures -TWO_40 - TWO_7 * TWO_20 * 2 < TWO_40 * Value(c) - Exact(c) <= TWO_7 * TWO_20 * 2
  {
    MissingWeight(c);
    AxisBounds(c.x1, c.x2, c.xf, -TWO_7, TWO_7);
    AxisBounds(c.x1, c.y1, c.yf, -TWO_7, TWO_7);
  }

  /** What the routine returns at a point whose reads fall inside the data, in terms of the
      point alone: within one unit, and 1/4096 of one, of the value that the four entries around
      it give.  The first input picks the column of the data, the second the row. */
  lemma BilinearQ7Error(t: Table, x: int, y: int)
    requires ValidTable(t) && 0 <= x < TWO_31 && 0 <= y < TWO_31
    requires Inside(t, x, y) && Readable(t, x, y)
    ensures var i, j, f, g := x / TWO_20, y / TWO_20, x % TWO_20, y % TWO_20;
            var k, l := i + t.numCols * j, i + t.numCols * (j + 1);
            && 0 <= k && k + 1 < |t.data| && 0 <= l && l + 1 < |t.data|
            && var exact := (t.data[k] * (TWO_20 - g) + t.data[l] * g) * (TWO_20 - f)
                          + (t.data[k + 1] * (TWO_20 - g) + t.data[l + 1] * g) * f;
            -0x100_0000_0000 - 0x1000_0000 < 0x100_0000_0000 * BilinearQ7(t, x, y) - exact <= 0x1000_0000
  {
    hide BilinearQ7, Value;
    NextRow(y);
    BilinearQ7IsValue(t, x, y);
    ValueError(CellAt(t, x, y));
  }

  /** One step along the first axis inside a cell. */
  lemma StepFirstAxis(c: Cell)
    requires ValidCell(c) && c.xf + 1 < TWO_20
    ensures -1 <= Value(c.(xf := c.xf + 1)) - Value(c) <= 1
    ensures c.x1 <= c.x2 && c.y1 <= c.y2 ==> Value(c) <= Value(c.(xf := c.xf + 1))
  {
    var d := c.(xf := c.xf + 1);
    assert Weighted(d) == Weighted(c) + (Right(c) - Left(c)) by { OneMore(Left(c), Right(c), c.xf); }
    AxisBounds(c.x2 - c.x1, c.y2 - c.y1, c.yf, -255, 255);
    Difference(c);
    if c.x1 <= c.x2 && c.y1 <= c.y2 {
      AxisBounds(c.x2 - c.x1, c.y2 - c.y1, c.yf, 0, 255);
    }
    FloorStep(Weighted(c), Right(c) - Left(c));
  }

  lemma OneMore(a: int, b: int, f: int)
    ensures a * (TOP - (f + 1)) + b * (f + 1) == a * (TOP - f) + b * f + (b - a)
  {}

  lemma Difference(c: Cell)
    ensures Right(c) - Left(c) == (c.x2 - c.x1) * (TOP - c.yf) + (c.y2 - c.y1) * c.yf
  {}

  lemma FloorStep(s: int, d: int)
    requires -TWO_40 < d < TWO_40
    ensures -1 <= (s + d) / TWO_40 - s / TWO_40 <= 1
    ensures 0 <= d ==> s / TWO_40 <= (s + d) / TWO_40
  {}

  /** The cell with its two axes exchanged. */
  function Transpose(c: Cell): Cell { Cell(c.x1, c.y1, c.x2, c.y2, c.yf, c.xf) }

  /** The formula does not prefer an axis. */
  lemma ValueIsSymmetric(c: Cell)
    ensures Value(Transpose(c)) == Value(c)
  {
    Terms(c);
    Terms(Transpose(c));
    SwapFactors(c.x1, TOP - c.yf, TOP - c.xf);
    SwapFactors(c.x2, TOP - c.yf, c.xf);
    SwapFactors(c.y1, TOP - c.xf, c.yf);
    SwapFactors(c.y2, c.yf, c.xf);
  }

  /** Cells that share an edge agree on it: the last fraction of one is the first of the next. */
  lemma CellsMeet(c: Cell, d: Cell)
    requires c.xf == TOP && d.xf == 0 && c.yf == d.yf && d.x1 == c.x2 && d.y1 == c.y2
    ensures Value(c) == Value(d)
  {
    assert Left(d) == Right(c);
    assert Weighted(c) == Right(c) * TOP by { assert Left(c) * 0 == 0; }
    assert Weighted(d) == Left(d) * TOP by { assert Right(d) * 0 == 0; }
  }

  /** Between readable points of the table, one step of either input moves the output by at
      most one unit, also across cells. */
  lemma AdjacentFirst(t: Table, u: nat, v: nat)
    requires ValidTable(t) && Readable(t, u, v) && Readable(t, u + 1, v)
    ensures -1 <= Value(CellAt(t, u + 1, v)) - Value(CellAt(t, u, v)) <= 1
  {
    var c, d := CellAt(t, u, v), CellAt(t, u + 1, v);
    NextColumn(u);
    if u % TWO_20 < TOP {
      assert d == c.(xf := c.xf + 1);
      StepFirstAxis(c);
    } else {
      CellsMeet(c, d);
    }
  }

  lemma NextColumn(u: nat)
    ensures u % TWO_20 < TOP ==> (u + 1) / TWO_20 == u / TWO_20 && (u + 1) % TWO_20 == u % TWO_20 + 1
    ensures u % TWO_20 == TOP ==> (u + 1) / TWO_20 == u / TWO_20 + 1 && (u + 1) % TWO_20 == 0
    ensures u % TWO_20 <= TOP
  {}

  lemma AdjacentSecond(t: Table, u: nat, v: nat)
    requires ValidTable(t) && Readable(t, u, v) && Readable(t, u, v + 1)
    ensures -1 <= Value(CellAt(t, u, v + 1)) - Value(CellAt(t, u, v)) <= 1
  {
    var c, d := CellAt(t, u, v), CellAt(t, u, v + 1);
    ValueIsSymmetric(c);
    ValueIsSymmetric(d);
    NextRow(v);
    NextRow(v + 1);
    NextColumn(v);
    if v % TWO_20 < TOP {
      assert Transpose(d) == Transpose(c).(xf := c.yf + 1);
      StepFirstAxis(Transpose(c));
    } else {
      CellsMeet(Transpose(c), Transpose(d));
    }
  }
}
