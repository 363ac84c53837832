/** Saturation: the clip functions, the software __SSAT, and the packed-lane
    additions and subtractions built on it. */
module Saturation {
  import opened MachineInt
  import opened Bits

  // ----- clips by comparing sign parts

  /** `mask ^ s` where `s` is a sign, 0 or -1: the mask or its complement. */
  function XorSign(mask: int, s: int): int
    requires s == 0 || s == -1
  {
    if s == 0 then mask else -mask - 1
  }

  function ClipQ63ToQ31(x: int): int
    requires IsS64(x)
  {
    if WrapS32(x / TWO_32) != WrapS32(x) / TWO_31
    then XorSign(TWO_31 - 1, WrapS32(x / TWO_63))
    else WrapS32(x)
  }

  function ClipQ31ToQ15(x: int): int
    requires IsS32(x)
  {
    if x / TWO_16 != x / TWO_15
    then XorSign(TWO_15 - 1, WrapS16(x / TWO_31))
    else WrapS16(x)
  }

  /** Comparing the high part with the low part's sign is saturation, on every input. */
  lemma ClipQ63ToQ31IsClamp(x: int)
    requires IsS64(x)
    ensures ClipQ63ToQ31(x) == Clamp(x, -TWO_31, TWO_31 - 1)
  {
  }

  lemma ClipQ31ToQ15IsClamp(x: int)
    requires IsS32(x)
    ensures ClipQ31ToQ15(x) == Clamp(x, -TWO_15, TWO_15 - 1)
  {
  }

  // ----- 32 x 64 bit product

  function Mult32x64(x: int, y: int): int
    requires IsS64(x) && IsS32(y)
  {
    WrapS64(WrapS64((x % TWO_32) * y) / TWO_32 + WrapS64((x / TWO_32) * y))
  }

  /** The two partial products give the exact high part of the 96-bit product. */
  lemma Mult32x64IsFloor(x: int, y: int)
    requires IsS64(x) && IsS32(y)
    ensures Mult32x64(x, y) == (x * y) / TWO_32
  {
    var lo, hi := x % TWO_32, x / TWO_32;
    assert x * y == (lo * y) + (hi * y) * TWO_32 by {
      assert x == lo + hi * TWO_32;
      assert (hi * TWO_32) * y == (hi * y) * TWO_32;
    }
    ProductBound(lo, y, TWO_32, TWO_31);
    ProductBound(hi, y, TWO_31, TWO_31);
  }

  // ----- __SSAT

  /** Saturation to a signed field of `y` bits. */
  function Saturated(x: int, y: nat): int
    requires 1 <= y
  {
    Clamp(x, -Pow2(y - 1), Pow2(y - 1) - 1)
  }

  /** It is the nearest value of such a field, and the value itself if that is one. */
  lemma SaturatedIsNearest(x: int, y: nat, z: int)
    requires 1 <= y && -Pow2(y - 1) <= z < Pow2(y - 1)
    ensures var r := Saturated(x, y);
            && -Pow2(y - 1) <= r < Pow2(y - 1) && (-Pow2(y - 1) <= x < Pow2(y - 1) ==> r == x)
            && (if x < r then r - x else x - r) <= (if x < z then z - x else x - z)
  {}

  /** The limit is built by doubling; only the side the input lies on is compared. */
  method Ssat(x: int, y: nat) returns (r: int)
    requires IsS32(x) && 1 <= y <= 31
    ensures r == Saturated(x, y)
  {
    var posMax := 1;
    for i := 0 to y - 1
      invariant posMax == Pow2(i)
    {
      Pow2Grows(i + 1, 30);
      LanePowers();
      posMax := WrapS32(posMax * 2);
    }
    r := x;
    if r > 0 {
      posMax := posMax - 1;
      if r > posMax {
        r := posMax;
      }
    } else {
      var negMin := -posMax;
      if r < negMin {
        r := negMin;
      }
    }
  }

  // ----- packed lanes

  /** The 32-bit pattern of a signed value. */
  function Pattern(x: int): nat { WrapU32(x) }

  /** Signed byte `k` of a word, counted from the least significant. */
  function Lane8(x: int, k: nat): int
    requires k < 4
  {
    WrapS8(match k case 0 => x case 1 => x / TWO_8 case 2 => x / TWO_16 case _ => x / TWO_24)
  }

  /** Signed half-word `k` of a word. */
  function Lane16(x: int, k: nat): int
    requires k < 2
  {
    WrapS16(if k == 0 then x else x / TWO_16)
  }

  /** Two words with the same four bytes are the same word. */
  lemma Lanes8Determine(x: int, y: int)
    requires IsS32(x) && IsS32(y)
    requires forall k: nat | k < 4 :: Lane8(x, k) == Lane8(y, k)
    ensures x == y
  {
    assert Lane8(x, 0) == Lane8(y, 0) && Lane8(x, 1) == Lane8(y, 1)
        && Lane8(x, 2) == Lane8(y, 2) && Lane8(x, 3) == Lane8(y, 3);
    SameByte(x, y);
    SameByte(x / TWO_8, y / TWO_8);
    SameByte(x / TWO_16, y / TWO_16);
    BytesOf(x);
    BytesOf(y);
  }

  lemma SameByte(v: int, w: int)
    requires WrapS8(v) == WrapS8(w)
    ensures v % TWO_8 == w % TWO_8
  {}

  lemma BytesOf(x: int)
    ensures x == x % TWO_8 + TWO_8 * ((x / TWO_8) % TWO_8) + TWO_16 * ((x / TWO_16) % TWO_8) + TWO_24 * (x / TWO_24)
  {
    assert x / TWO_16 == (x / TWO_8) / TWO_8;
    assert x / TWO_24 == (x / TWO_16) / TWO_8;
  }

  /** The mask-and-or expression that ends __QADD8 and __QSUB8, on values already shifted. */
  function Merge8(u: int, t: int, s: int, r: int): (m: int)
    ensures IsS32(m)
  {
    WrapS32(Or(Or(Or(And(Pattern(u), 0xFF00_0000), And(Pattern(t), 0xFF_0000)),
                  And(Pattern(s), 0xFF00)),
               And(Pattern(r), 0xFF)))
  }

  /** The mask-and-or expression that ends __QADD16 and __QSUB16. */
  function Merge16(s: int, r: int): (m: int)
    ensures IsS32(m)
  {
    WrapS32(Or(And(Pattern(s), 0xFFFF_0000), And(Pattern(r), 0xFFFF)))
  }

  lemma ScaledMod(v: int, c: int, k: int)
    requires 0 < c && 0 < k && 0 < c * k
    ensures (v * c) % (c * k) == c * (v % k)
  {
    var q, r := v / k, v % k;
    assert v * c == (c * k) * q + c * r by {
      assert v == k * q + r;
      assert (k * q + r) * c == (c * k) * q + c * r;
    }
    assert 0 <= c * r;
    ScaleUp(c, r + 1, k);
    assert c * (r + 1) == c * r + c;
    RemainderIsUnique(v * c, c * k, q, c * r);
  }

  lemma ShiftedPattern(v: int, c: int, k: int)
    requires 0 < c && 0 < k && c * k == TWO_32
    ensures Pattern(WrapS32(v * c)) == c * (v % k)
  {
    ScaledMod(v, c, k);
    PatternOfWrap(v * c);
  }

  lemma PatternOfWrap(x: int)
    ensures Pattern(WrapS32(x)) == x % TWO_32
  {}

  /** Masking the byte at `lo` out of a value shifted there. */
  lemma MaskedByte(v: int, lo: nat)
    requires lo == 0 || lo == 8 || lo == 16 || lo == 24
    ensures And(Pattern(WrapS32(v * Pow2(lo))), Pow2(lo) * 0xFF) == Pow2(lo) * (v % TWO_8)
  {
    var c, k := Pow2(lo), Pow2(32 - lo);
    Pow2Adds(lo, 32 - lo);
    Pow2Adds(24 - lo, 8);
    LanePowers();
    ShiftedPattern(v, c, k);
    FieldMaskIs(lo, 8);
    AndField(c * (v % k), lo, 8);
    FieldOfShifted(v, c, k, Pow2(24 - lo), TWO_8);
  }

  lemma MaskedHalf(v: int, lo: nat)
    requires lo == 0 || lo == 16
    ensures And(Pattern(WrapS32(v * Pow2(lo))), Pow2(lo) * 0xFFFF) == Pow2(lo) * (v % TWO_16)
  {
    var c, k := Pow2(lo), Pow2(32 - lo);
    Pow2Adds(lo, 32 - lo);
    Pow2Adds(16 - lo, 16);
    LanePowers();
    ShiftedPattern(v, c, k);
    FieldMaskIs(lo, 16);
    AndField(c * (v % k), lo, 16);
    FieldOfShifted(v, c, k, Pow2(16 - lo), TWO_16);
  }

  lemma FieldOfShifted(v: int, c: int, k: int, m: int, f: int)
    requires 0 < c && 0 < k && 0 < m && 0 < f && k == m * f
    ensures (c * (v % k)) / c % f == v % f
  {
    RemainderIsUnique(c * (v % k), c, v % k, 0);
    var q, r := v / k, v % k;
    assert v == f * (m * q + r / f) + r % f by {
      assert v == k * q + r;
      assert r == f * (r / f) + r % f;
      assert (m * f) * q == f * (m * q);
      assert f * (m * q + r / f) == f * (m * q) + f * (r / f);
    }
    RemainderIsUnique(v, f, m * q + r / f, r % f);
  }

  /** Merging four shifted signed bytes puts each in its own lane. */
  lemma Merge8Lanes(u: int, t: int, s: int, r: int, m: int)
    requires IsS8(u) && IsS8(t) && IsS8(s) && IsS8(r)
    requires m == Merge8(WrapS32(u * TWO_24), WrapS32(t * TWO_16), WrapS32(s * TWO_8), r)
    ensures Lane8(m, 3) == u && Lane8(m, 2) == t && Lane8(m, 1) == s && Lane8(m, 0) == r
  {
    Merge8Value(u, t, s, r);
    LanesOfSum(u % TWO_8, t % TWO_8, s % TWO_8, r % TWO_8, m);
    ByteRoundTrip(u);
    ByteRoundTrip(t);
    ByteRoundTrip(s);
    ByteRoundTrip(r);
  }

  lemma Merge8Value(u: int, t: int, s: int, r: int)
    requires IsS8(u) && IsS8(t) && IsS8(s) && IsS8(r)
    ensures Merge8(WrapS32(u * TWO_24), WrapS32(t * TWO_16), WrapS32(s * TWO_8), r)
         == WrapS32(TWO_24 * (u % TWO_8) + TWO_16 * (t % TWO_8) + TWO_8 * (s % TWO_8) + r % TWO_8)
  {
    ByteMasks(u, t, s, r);
    OrBytes(u % TWO_8, t % TWO_8, s % TWO_8, r % TWO_8);
  }

  lemma ByteMasks(u: int, t: int, s: int, r: int)
    requires IsS32(r)
    ensures And(Pattern(WrapS32(u * TWO_24)), 0xFF00_0000) == TWO_24 * (u % TWO_8)
    ensures And(Pattern(WrapS32(t * TWO_16)), 0xFF_0000) == TWO_16 * (t % TWO_8)
    ensures And(Pattern(WrapS32(s * TWO_8)), 0xFF00) == TWO_8 * (s % TWO_8)
    ensures And(Pattern(r), 0xFF) == r % TWO_8
  {
    LanePowers();
    MaskedByte(u, 24);
    MaskedByte(t, 16);
    MaskedByte(s, 8);
    assert Pow2(0) == 1;
    MaskedByte(r, 0);
  }

  lemma OrBytes(bu: nat, bt: nat, bs: nat, br: nat)
    requires bu < TWO_8 && bt < TWO_8 && bs < TWO_8 && br < TWO_8
    ensures Or(Or(Or(TWO_24 * bu, TWO_16 * bt), TWO_8 * bs), br) == TWO_24 * bu + TWO_16 * bt + TWO_8 * bs + br
  {
    LanePowers();
    OrAdds(bu, TWO_16 * bt, 24);
    OrAdds(TWO_8 * bu + bt, TWO_8 * bs, 16);
    OrAdds(TWO_16 * bu + TWO_8 * bt + bs, br, 8);
  }

  lemma LanesOfSum(bu: int, bt: int, bs: int, br: int, m: int)
    requires 0 <= bu < TWO_8 && 0 <= bt < TWO_8 && 0 <= bs < TWO_8 && 0 <= br < TWO_8
    requires m == WrapS32(TWO_24 * bu + TWO_16 * bt + TWO_8 * bs + br)
    ensures Lane8(m, 3) == WrapS8(bu) && Lane8(m, 2) == WrapS8(bt)
    ensures Lane8(m, 1) == WrapS8(bs) && Lane8(m, 0) == WrapS8(br)
  {
    hide WrapS8;
    var c := if bu < TWO_7 then bu else bu - TWO_8;
    SignedTop(bu, bt, bs, br);
    hide WrapS32;
    SplitLow(TWO_16 * c + TWO_8 * bt + bs, br);
    SplitLow(TWO_8 * c + bt, bs);
    SplitLow(c, bt);
    ByteOfMultiple(c, bu);
    ByteOfMultiple(TWO_8 * c + bt, bt);
    ByteOfMultiple(TWO_16 * c + TWO_8 * bt + bs, bs);
    ByteOfMultiple(m, br);
    DivideTwice(m);
  }

  lemma SignedTop(bu: int, bt: int, bs: int, br: int)
    requires 0 <= bu < TWO_8 && 0 <= bt < TWO_8 && 0 <= bs < TWO_8 && 0 <= br < TWO_8
    ensures WrapS32(TWO_24 * bu + TWO_16 * bt + TWO_8 * bs + br)
         == TWO_24 * (if bu < TWO_7 then bu else bu - TWO_8) + TWO_16 * bt + TWO_8 * bs + br
  {}

  lemma SplitLow(hi: int, lo: int)
    requires 0 <= lo < TWO_8
    ensures (TWO_8 * hi + lo) / TWO_8 == hi
  {}

  /** Whole multiples of 256 do not show in the low byte. */
  lemma ByteOfMultiple(x: int, b: int)
    requires (x - b) % TWO_8 == 0
    ensures WrapS8(x) == WrapS8(b)
  {}

  lemma DivideTwice(x: int)
    ensures x / TWO_16 == (x / TWO_8) / TWO_8
    ensures x / TWO_24 == ((x / TWO_8) / TWO_8) / TWO_8
  {}

  lemma ByteRoundTrip(v: int)
    requires IsS8(v)
    ensures WrapS8(v % TWO_8) == v
  {}

  lemma Merge16Lanes(s: int, r: int, m: int)
    requires IsS16(s) && IsS16(r)
    requires m == Merge16(WrapS32(s * TWO_16), r)
    ensures Lane16(m, 1) == s && Lane16(m, 0) == r
  {
    hide Merge16, Lane16, WrapS32, WrapS16;
    Merge16Value(s, r);
    HalvesOfSum(s % TWO_16, r % TWO_16, m);
    HalfRoundTrip(s);
    HalfRoundTrip(r);
  }

  lemma HalfRoundTrip(v: int)
    requires IsS16(v)
    ensures WrapS16(v % TWO_16) == v
  {}

  lemma Merge16Value(s: int, r: int)
    requires IsS16(s) && IsS16(r)
    ensures Merge16(WrapS32(s * TWO_16), r) == WrapS32(TWO_16 * (s % TWO_16) + r % TWO_16)
  {
    hide And, Or, WrapS32, Pattern;
    HalfMasks(s, r);
    LanePowers();
    OrAdds(s % TWO_16, r % TWO_16, 16);
  }

  lemma HalfMasks(s: int, r: int)
    requires IsS32(r)
    ensures And(Pattern(WrapS32(s * TWO_16)), 0xFFFF_0000) == TWO_16 * (s % TWO_16)
    ensures And(Pattern(r), 0xFFFF) == r % TWO_16
  {
    hide And, Pattern;
    LanePowers();
    MaskedHalf(s, 16);
    assert Pow2(0) == 1;
    MaskedHalf(r, 0);
  }

  lemma HalvesOfSum(hs: int, hr: int, m: int)
    requires 0 <= hs < TWO_16 && 0 <= hr < TWO_16
    requires m == WrapS32(TWO_16 * hs + hr)
    ensures Lane16(m, 1) == WrapS16(hs) && Lane16(m, 0) == WrapS16(hr)
  {
    var c := if hs < TWO_15 then hs else hs - TWO_16;
    assert m == TWO_16 * c + hr;
  }

  /** Sign-extending a lane by a left and a right shift. */
  lemma LaneOps8(x: int)
    requires IsS32(x)
    ensures WrapS8(x) == Lane8(x, 0) && IsS8(Lane8(x, 0)) && IsS8(Lane8(x, 1)) && IsS8(Lane8(x, 2)) && IsS8(Lane8(x, 3))
    ensures WrapS32(x * TWO_16) / TWO_24 == Lane8(x, 1)
    ensures WrapS32(x * TWO_8) / TWO_24 == Lane8(x, 2)
    ensures x / TWO_24 == Lane8(x, 3)
  {
    LowHalf(x);
    LowThree(x);
  }

  lemma LaneOps16(x: int)
    requires IsS32(x)
    ensures WrapS16(x) == Lane16(x, 0) && IsS16(Lane16(x, 0)) && IsS16(Lane16(x, 1))
    ensures x / TWO_16 == Lane16(x, 1)
  {}

  lemma LowHalf(x: int)
    ensures WrapS32(x * TWO_16) / TWO_24 == WrapS8(x / TWO_8)
  {
    WrapOfShiftedHalf(x);
    HighByteOfHalf(x);
    DropShift(WrapS16(x));
  }

  lemma WrapOfShiftedHalf(x: int)
    ensures WrapS32(x * TWO_16) == TWO_16 * WrapS16(x)
  {}

  lemma DropShift(y: int)
    ensures (TWO_16 * y) / TWO_24 == y / TWO_8
  {}

  lemma HighByteOfHalf(x: int)
    ensures WrapS16(x) / TWO_8 == WrapS8(x / TWO_8)
  {
    var w, k := WrapS16(x), (x + TWO_15) / TWO_16;
    assert x == w + k * TWO_16;
    hide WrapS16, WrapS8;
    WholeBytes(w, k);
    WrapWholeBytes(w / TWO_8, k);
  }

  lemma WholeBytes(w: int, k: int)
    requires IsS16(w)
    ensures (w + k * TWO_16) / TWO_8 == w / TWO_8 + k * TWO_8 && IsS8(w / TWO_8)
  {}

  lemma WrapWholeBytes(y: int, k: int)
    requires IsS8(y)
    ensures WrapS8(y + k * TWO_8) == y
  {}

  lemma LowThree(x: int)
    ensures WrapS32(x * TWO_8) / TWO_24 == WrapS8(x / TWO_16)
  {
    var y := (x + 0x80_0000) % TWO_24 - 0x80_0000;
    assert WrapS32(x * TWO_8) == TWO_8 * y;
    HighByteOfThree(x);
  }

  lemma HighByteOfThree(x: int)
    ensures ((x + 0x80_0000) % TWO_24 - 0x80_0000) / TWO_16 == WrapS8(x / TWO_16)
  {
    var k := (x + 0x80_0000) / TWO_24;
    var y := x - k * TWO_24;
    assert y == (x + 0x80_0000) % TWO_24 - 0x80_0000;
    assert y / TWO_16 == x / TWO_16 - TWO_8 * k;
    ByteOfMultiple(x / TWO_16, y / TWO_16);
  }

  // ----- the lane operations

  method QAdd8(x: int, y: int) returns (sum: int)
    requires IsS32(x) && IsS32(y)
    ensures IsS32(sum)
    ensures forall k: nat | k < 4 :: Lane8(sum, k) == Clamp(Lane8(x, k) + Lane8(y, k), -128, 127)
  {
    hide Lane8, Merge8, WrapS8, WrapS32;
    LaneOps8(x);
    LaneOps8(y);
    LanePowers();
    var r := Ssat(WrapS8(x) + WrapS8(y), 8);
    var s := Ssat(WrapS32(x * TWO_16) / TWO_24 + WrapS32(y * TWO_16) / TWO_24, 8);
    var t := Ssat(WrapS32(x * TWO_8) / TWO_24 + WrapS32(y * TWO_8) / TWO_24, 8);
    var u := Ssat(x / TWO_24 + y / TWO_24, 8);
    sum := Merge8(WrapS32(u * TWO_24), WrapS32(t * TWO_16), WrapS32(s * TWO_8), r);
    Merge8Lanes(u, t, s, r, sum);
  }

  method QSub8(x: int, y: int) returns (sum: int)
    requires IsS32(x) && IsS32(y)
    ensures IsS32(sum)
    ensures forall k: nat | k < 4 :: Lane8(sum, k) == Clamp(Lane8(x, k) - Lane8(y, k), -128, 127)
  {
    hide Lane8, Merge8, WrapS8, WrapS32;
    LaneOps8(x);
    LaneOps8(y);
    LanePowers();
    var r := Ssat(WrapS8(x) - WrapS8(y), 8);
    var s := Ssat(WrapS32(x * TWO_16) / TWO_24 - WrapS32(y * TWO_16) / TWO_24, 8);
    var t := Ssat(WrapS32(x * TWO_8) / TWO_24 - WrapS32(y * TWO_8) / TWO_24, 8);
    var u := Ssat(x / TWO_24 - y / TWO_24, 8);
    sum := Merge8(WrapS32(u * TWO_24), WrapS32(t * TWO_16), WrapS32(s * TWO_8), r);
    Merge8Lanes(u, t, s, r, sum);
  }

  method QAdd16(x: int, y: int) returns (sum: int)
    requires IsS32(x) && IsS32(y)
    ensures IsS32(sum)
    ensures forall k: nat | k < 2 :: Lane16(sum, k) == Clamp(Lane16(x, k) + Lane16(y, k), -TWO_15, TWO_15 - 1)
  {
    hide Lane16, Merge16, WrapS16, WrapS32;
    LaneOps16(x);
    LaneOps16(y);
    LanePowers();
    var r := Ssat(WrapS16(x) + WrapS16(y), 16);
    var s := Ssat(x / TWO_16 + y / TWO_16, 16);
    sum := Merge16(WrapS32(s * TWO_16), r);
    Merge16Lanes(s, r, sum);
  }

  method QSub16(x: int, y: int) returns (sum: int)
    requires IsS32(x) && IsS32(y)
    ensures IsS32(sum)
    ensures forall k: nat | k < 2 :: Lane16(sum, k) == Clamp(Lane16(x, k) - Lane16(y, k), -TWO_15, TWO_15 - 1)
  {
    hide Lane16, Merge16, WrapS16, WrapS32;
    LaneOps16(x);
    LaneOps16(y);
    LanePowers();
    var r := Ssat(WrapS16(x) - WrapS16(y), 16);
    var s := Ssat(x / TWO_16 - y / TWO_16, 16);
    sum := Merge16(WrapS32(s * TWO_16), r);
    Merge16Lanes(s, r, sum);
  }
}
