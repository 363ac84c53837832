/** Fixed-width two's-complement integers written out over unbounded `int`.

    A C value of type int32_t, int64_t, ... is an `int` inside the matching range,
    a cast is the matching `Wrap` function, and an arithmetic right shift by a
    constant is `/` by the power of two: with a positive divisor Dafny's division
    rounds towards minus infinity, as the shift does. */
module MachineInt {

  const TWO_7: int := 0x80
  const TWO_8: int := 0x100
  const TWO_15: int := 0x8000
  const TWO_16: int := 0x1_0000
  const TWO_24: int := 0x100_0000
  const TWO_20: int := 0x10_0000
  const TWO_30: int := 0x4000_0000
  const TWO_31: int := 0x8000_0000
  const TWO_32: int := 0x1_0000_0000
  const TWO_63: int := 0x8000_0000_0000_0000
  const TWO_64: int := 0x1_0000_0000_0000_0000

  predicate IsS8(x: int) { -TWO_7 <= x < TWO_7 }
  predicate IsS16(x: int) { -TWO_15 <= x < TWO_15 }
  predicate IsS32(x: int) { -TWO_31 <= x < TWO_31 }
  predicate IsU32(x: int) { 0 <= x < TWO_32 }
  predicate IsS64(x: int) { -TWO_63 <= x < TWO_63 }

  function WrapS8(x: int): (r: int)
    ensures IsS8(r) && (IsS8(x) ==> r == x)
  {
    (x + TWO_7) % TWO_8 - TWO_7
  }

  function WrapS16(x: int): (r: int)
    ensures IsS16(r) && (IsS16(x) ==> r == x)
  {
    (x + TWO_15) % TWO_16 - TWO_15
  }

  function WrapS32(x: int): (r: int)
    ensures IsS32(r) && (IsS32(x) ==> r == x)
  {
    (x + TWO_31) % TWO_32 - TWO_31
  }

  function WrapS64(x: int): (r: int)
    ensures IsS64(r) && (IsS64(x) ==> r == x)
  {
    (x + TWO_63) % TWO_64 - TWO_63
  }

  function WrapU32(x: int): (r: int)
    ensures IsU32(r) && (IsU32(x) ==> r == x)
  {
    x % TWO_32
  }

  function Clamp(x: int, lo: int, hi: int): int
    requires lo <= hi
  {
    if x < lo then lo else if x > hi then hi else x
  }

  function Min(a: int, b: int): int { if a < b then a else b }
  function Max(a: int, b: int): int { if a < b then b else a }

  function Pow2(n: nat): (r: int)
    ensures 1 <= r
  {
    if n == 0 then 1 else 2 * Pow2(n - 1)
  }

  lemma {:induction false} Pow2Adds(m: nat, n: nat)
    ensures Pow2(m + n) == Pow2(m) * Pow2(n)
    decreases m
  {
    if m == 0 {
    } else {
      Pow2Adds(m - 1, n);
    }
  }

  lemma {:induction false} Pow2Grows(m: nat, n: nat)
    requires m <= n
    ensures Pow2(m) <= Pow2(n)
    decreases n
  {
    if m < n {
      Pow2Grows(m, n - 1);
    }
  }

  lemma ProductBound(x: int, y: int, a: int, b: int)
    requires -a <= x <= a && -b <= y <= b
    ensures -(a * b) <= x * y <= a * b
  {
    assert 0 <= (a - x) * (b + y);
    assert 0 <= (a + x) * (b - y);
    assert 0 <= (a - x) * (b - y);
    assert 0 <= (a + x) * (b + y);
  }

  lemma MulNonneg(x: int, y: int)
    requires 0 <= x && 0 <= y
    ensures 0 <= x * y
  {}

  lemma MulLe(x: int, y: int, k: int)
    requires x <= y && 0 <= k
    ensures x * k <= y * k
  {
    MulNonneg(y - x, k);
  }

  lemma MulBounds(y: int, lo: int, hi: int, w: int)
    requires lo <= y <= hi && 0 <= w
    ensures lo * w <= y * w <= hi * w
  {
    MulLe(lo, y, w);
    MulLe(y, hi, w);
  }
}
