/** Strided circular buffers: arm_circularWrite_q15 and arm_circularRead_q15. */
module Circular {
  import opened MachineInt
  import opened Bits

  /** The bounds and stride of one transfer. */
  datatype Ring = Ring(length: int, start: int, inc: int)

  /** The routines subtract the length at most once per step, so a stride that keeps the offset
      inside lies in 1 .. length; and the addition must not overflow. */
  ghost predicate ValidRing(r: Ring) {
    0 < r.length && 0 <= r.start < r.length && 1 <= r.inc <= r.length && r.length + r.inc <= TWO_31
  }

  function Advance(r: Ring, offset: int): int {
    var next := WrapS32(offset + r.inc);
    if next >= r.length then WrapS32(next - r.length) else next
  }

  /** The offset of access `i`. */
  function Offset(r: Ring, i: nat): int {
    if i == 0 then r.start else Advance(r, Offset(r, i - 1))
  }

  /** Single subtractions keep the offset reduced modulo the length. */
  lemma {:induction false} OffsetIsModular(r: Ring, i: nat)
    requires ValidRing(r)
    ensures 0 <= Offset(r, i) < r.length
    ensures Offset(r, i) == (r.start + i * r.inc) % r.length
  {
    if i == 0 {
      assert 0 * r.inc == 0;
      RemainderIsUnique(r.start, r.length, 0, r.start);
    } else {
      OffsetIsModular(r, i - 1);
      assert r.start + i * r.inc == (r.start + (i - 1) * r.inc) + r.inc;
      AdvanceIsModular(r, r.start + (i - 1) * r.inc);
    }
  }

  lemma AdvanceIsModular(r: Ring, x: int)
    requires ValidRing(r)
    ensures 0 <= Advance(r, x % r.length) < r.length
    ensures Advance(r, x % r.length) == (x + r.inc) % r.length
  {
    var q, o := x / r.length, x % r.length;
    assert x == r.length * q + o && IsS32(o + r.inc);
    if o + r.inc >= r.length {
      assert r.length * (q + 1) == r.length * q + r.length;
      RemainderIsUnique(x + r.inc, r.length, q + 1, Advance(r, o));
    } else {
      RemainderIsUnique(x + r.inc, r.length, q, Advance(r, o));
    }
  }

  // ----- what the routines compute

  function Written(buf: seq<int>, r: Ring, src: seq<int>, srcInc: nat, n: nat): (s: seq<int>)
    requires forall i: nat | i < n :: 0 <= Offset(r, i) < |buf| && 0 <= i * srcInc < |src|
    ensures |s| == |buf|
  {
    if n == 0 then buf
    else Written(buf, r, src, srcInc, n - 1)[Offset(r, n - 1) := src[(n - 1) * srcInc]]
  }

  /** The destination walks its own circle: back to the base when it meets the end exactly. */
  datatype Sink = Sink(length: int, first: nat, inc: int)

  function SinkOffset(d: Sink, i: nat): int {
    if i == 0 then d.first
    else
      var next := SinkOffset(d, i - 1) + d.inc;
      if next == d.length then 0 else next
  }

  function ReadInto(dst: seq<int>, d: Sink, buf: seq<int>, r: Ring, n: nat): (s: seq<int>)
    requires forall i: nat | i < n :: 0 <= Offset(r, i) < |buf| && 0 <= SinkOffset(d, i) < |dst|
    ensures |s| == |dst|
  {
    if n == 0 then dst
    else ReadInto(dst, d, buf, r, n - 1)[SinkOffset(d, n - 1) := buf[Offset(r, n - 1)]]
  }

  lemma NextMultiple(k: nat, m: nat)
    ensures (k + 1) * m == k * m + m
  {}

  lemma LastOffset(r: Ring, n: nat)
    ensures ValidRing(r) ==> Offset(r, n) == (r.start + n * r.inc) % r.length
  {
    if ValidRing(r) { OffsetIsModular(r, n); }
  }

  /** The write offset lives in a 16-bit variable of the caller.  Any stride will do that keeps
      the accesses inside the buffer. */
  method CircularWrite(circBuffer: array<int>, r: Ring, src: array<int>, srcInc: nat, blockSize: nat)
    returns (writeOffset: int)
    requires src != circBuffer && 0 <= r.start < TWO_16
    requires forall i: nat | i < blockSize :: 0 <= Offset(r, i) < circBuffer.Length && 0 <= i * srcInc < src.Length
    modifies circBuffer
    ensures circBuffer[..] == Written(old(circBuffer[..]), r, src[..], srcInc, blockSize)
    ensures writeOffset == Offset(r, blockSize) % TWO_16
    ensures ValidRing(r) ==> writeOffset == ((r.start + blockSize * r.inc) % r.length) % TWO_16
  {
    hide ValidRing, WrapS32;
    var wOffset := r.start;
    var from := 0;
    var i: nat := blockSize;
    ghost var was := circBuffer[..];
    while i > 0
      invariant i <= blockSize
      invariant wOffset == Offset(r, blockSize - i)
      invariant from == (blockSize - i) * srcInc
      invariant circBuffer[..] == Written(was, r, src[..], srcInc, blockSize - i)
    {
      NextMultiple(blockSize - i, srcInc);
      circBuffer[wOffset] := src[from];
      from := from + srcInc;
      wOffset := WrapS32(wOffset + r.inc);
      if wOffset >= r.length {
        wOffset := WrapS32(wOffset - r.length);
      }
      i := i - 1;
    }
    LastOffset(r, blockSize);
    writeOffset := wOffset % TWO_16;
  }

  method CircularRead(circBuffer: array<int>, r: Ring, dst: array<int>, d: Sink, blockSize: nat)
    returns (readOffset: int)
    requires dst != circBuffer
    requires forall i: nat | i < blockSize :: 0 <= Offset(r, i) < circBuffer.Length && 0 <= SinkOffset(d, i) < dst.Length
    modifies dst
    ensures dst[..] == ReadInto(old(dst[..]), d, circBuffer[..], r, blockSize)
    ensures readOffset == Offset(r, blockSize)
    ensures ValidRing(r) ==> readOffset == (r.start + blockSize * r.inc) % r.length
  {
    hide ValidRing, WrapS32;
    var rOffset := r.start;
    var to: int := d.first;
    var i: nat := blockSize;
    ghost var was := dst[..];
    while i > 0
      invariant i <= blockSize
      invariant rOffset == Offset(r, blockSize - i)
      invariant to == SinkOffset(d, blockSize - i)
      invariant dst[..] == ReadInto(was, d, circBuffer[..], r, blockSize - i)
    {
      dst[to] := circBuffer[rOffset];
      to := to + d.inc;
      if to == d.length {
        to := 0;
      }
      rOffset := WrapS32(rOffset + r.inc);
      if rOffset >= r.length {
        rOffset := WrapS32(rOffset - r.length);
      }
      i := i - 1;
    }
    LastOffset(r, blockSize);
    readOffset := rOffset;
  }

  // ----- round trip

  predicate Collide(length: int, inc: int, i: nat, j: nat)
    requires 0 < length
  {
    ((j - i) * inc) % length == 0
  }

  /** No two of `n` accesses touch the same element. */
  ghost predicate NoCollision(length: int, inc: int, n: nat)
    requires 0 < length
  {
    forall i: nat, j: nat | i < j < n :: !Collide(length, inc, i, j)
  }

  lemma CollisionIsSameOffset(r: Ring, i: nat, j: nat)
    requires ValidRing(r) && i < j
    ensures Offset(r, i) == Offset(r, j) <==> Collide(r.length, r.inc, i, j)
  {
    hide Offset;
    OffsetIsModular(r, i);
    OffsetIsModular(r, j);
    Distance(r.start, r.inc, i, j);
    SameRemainder(r.start + i * r.inc, r.start + j * r.inc, r.length);
  }

  lemma Distance(start: int, inc: int, i: int, j: int)
    ensures (start + j * inc) - (start + i * inc) == (j - i) * inc
  {}

  lemma SameRemainder(a: int, b: int, d: int)
    requires 0 < d
    ensures a % d == b % d <==> (b - a) % d == 0
  {
    var qa, qb, q := a / d, b / d, (b - a) / d;
    assert a == d * qa + a % d && b == d * qb + b % d && b - a == d * q + (b - a) % d;
    if a % d == b % d {
      assert b - a == d * (qb - qa) + 0;
      RemainderIsUnique(b - a, d, qb - qa, 0);
    }
    if (b - a) % d == 0 {
      assert b == d * (qa + q) + a % d;
      RemainderIsUnique(b, d, qa + q, a % d);
    }
  }

  /** Accesses do not collide if and only if there are at most as many of them as the stride
      reaches different elements, which is the length over the greatest common divisor. */
  lemma NoCollisionIff(length: int, inc: int, n: nat)
    requires 0 < length && 0 < inc
    ensures NoCollision(length, inc, n) <==> n * Gcd(length, inc) <= length
  {
    hide Gcd;
    var g := Gcd(length, inc);
    var x, y := Bezout(length, inc);
    var l, c := length / g, inc / g;
    GcdDivides(length, inc);
    assert length == l * g && inc == c * g;
    Factored(l, c, g, x, y);
    assert 0 < l by { if l <= 0 { MulLe(l, 0, g); } }
    if n <= l {
      MulLe(n, l, g);
      forall i: nat, j: nat | i < j < n ensures !Collide(length, inc, i, j) {
        CollisionIsMultiple(l, c, g, x, y, j - i);
      }
    } else {
      MulLe(l + 1, n, g);
      CollisionIsMultiple(l, c, g, x, y, l);
      assert 0 < l < n && Collide(length, inc, 0, l);
    }
  }

  /** With the common divisor taken out, the two are coprime. */
  lemma Factored(l: int, c: int, g: int, x: int, y: int)
    requires 0 < g && (l * g) * x + (c * g) * y == g
    ensures l * x + c * y == 1
  {
    var s := l * x + c * y;
    assert s * g == g;
    if s < 1 { MulLe(s, 0, g); }
    if s > 1 { MulLe(2, s, g); }
  }

  /** Accesses `d` apart collide if and only if `d` is a multiple of the coprime length. */
  lemma CollisionIsMultiple(l: int, c: int, g: int, x: int, y: int, d: nat)
    requires 0 < l && 0 < g && 0 < l * g && l * x + c * y == 1 && 0 < d <= l
    ensures (d * (c * g)) % (l * g) == 0 <==> d == l
  {
    if d == l {
      assert l * (c * g) == (l * g) * c + 0;
      RemainderIsUnique(l * (c * g), l * g, c, 0);
    } else if (d * (c * g)) % (l * g) == 0 {
      var q := (d * (c * g)) / (l * g);
      assert d * (c * g) == (l * g) * q;
      CancelFactor(d * c, l * q, g);
      Coprime(l, c, x, y, d, q);
      if d * x + q * y >= 1 { MulLe(1, d * x + q * y, l); } else { MulLe(d * x + q * y, 0, l); }
    }
  }

  lemma CancelFactor(a: int, b: int, g: int)
    requires 0 < g && a * g == b * g
    ensures a == b
  {
    if a < b { MulLe(a + 1, b, g); }
    if b < a { MulLe(b + 1, a, g); }
  }

  lemma Coprime(l: int, c: int, x: int, y: int, d: int, q: int)
    requires l * x + c * y == 1 && d * c == l * q
    ensures d == (d * x + q * y) * l
  {
    assert d == d * (l * x + c * y);
    assert d * (l * x + c * y) == (d * x) * l + (d * c) * y;
    assert (l * q) * y == (q * y) * l;
  }

  function Gcd(a: nat, b: nat): (g: nat)
    ensures a > 0 || b > 0 ==> g > 0
    decreases b
  {
    if b == 0 then a else Gcd(b, a % b)
  }

  lemma {:induction false} GcdDivides(a: nat, b: nat)
    requires a > 0 || b > 0
    ensures a == (a / Gcd(a, b)) * Gcd(a, b) && b == (b / Gcd(a, b)) * Gcd(a, b)
    decreases b
  {
    if b == 0 {
      RemainderIsUnique(a, a, 1, 0);
      RemainderIsUnique(0, a, 0, 0);
    } else {
      var g, r := Gcd(a, b), a % b;
      GcdDivides(b, r);
      var q := (a / b) * (b / g) + r / g;
      assert a == (a / b) * b + r;
      assert ((a / b) * (b / g)) * g == (a / b) * ((b / g) * g);
      assert a == q * g;
      RemainderIsUnique(a, g, q, 0);
    }
  }

  /** The greatest common divisor is a combination of the two. */
  lemma {:induction false} Bezout(a: nat, b: nat) returns (x: int, y: int)
    requires a > 0 || b > 0
    ensures a * x + b * y == Gcd(a, b)
    decreases b
  {
    if b == 0 {
      x, y := 1, 0;
    } else {
      var u, v := Bezout(b, a % b);
      x, y := v, u - (a / b) * v;
      assert a == (a / b) * b + a % b;
      assert a * v == ((a / b) * b) * v + (a % b) * v;
      assert b * ((a / b) * v) == ((a / b) * b) * v;
    }
  }

  /** In particular a block that does not wrap onto itself does not collide. */
  lemma ShortBlockDoesNotCollide(length: int, inc: int, n: nat)
    requires 0 < length && 1 <= inc && n * inc <= length
    ensures NoCollision(length, inc, n)
  {
    hide Gcd, NoCollision;
    NoCollisionIff(length, inc, n);
    GcdDivides(length, inc);
    var g := Gcd(length, inc);
    if inc / g < 1 { MulLe(inc / g, 0, g); }
    MulLe(1, inc / g, g);
    MulLe(g, inc, n);
  }

  ghost predicate Fits(buf: seq<int>, r: Ring, src: seq<int>, srcInc: nat, n: nat) {
    forall i: nat | i < n :: 0 <= Offset(r, i) < |buf| && 0 <= i * srcInc < |src|
  }

  /** After a write each touched element holds what the last access to it stored. */
  lemma {:induction false} LastWriteWins(buf: seq<int>, r: Ring, src: seq<int>, srcInc: nat, n: nat, i: nat)
    requires Fits(buf, r, src, srcInc, n) && i < n
    requires forall j: nat | i < j < n :: Offset(r, j) != Offset(r, i)
    ensures Written(buf, r, src, srcInc, n)[Offset(r, i)] == src[i * srcInc]
    decreases n
  {
    if i < n - 1 {
      LastWriteWins(buf, r, src, srcInc, n - 1, i);
    }
  }

  /** Elements no access touches keep their value. */
  lemma {:induction false} UntouchedStays(buf: seq<int>, r: Ring, src: seq<int>, srcInc: nat, n: nat, p: nat)
    requires Fits(buf, r, src, srcInc, n) && p < |buf|
    requires forall i: nat | i < n :: Offset(r, i) != p
    ensures Written(buf, r, src, srcInc, n)[p] == buf[p]
  {
    if n > 0 {
      UntouchedStays(buf, r, src, srcInc, n - 1, p);
    }
  }

  /** A destination of unit or larger stride that does not run past its end. */
  ghost predicate Straight(d: Sink, n: nat, room: nat) {
    d.first == 0 && 1 <= d.inc && (n > 0 ==> (n - 1) * d.inc < d.length <= room)
  }

  lemma {:induction false} StraightOffset(d: Sink, n: nat, room: nat, i: nat)
    requires Straight(d, n, room) && i < n
    ensures SinkOffset(d, i) == i * d.inc && 0 <= i * d.inc < room
  {
    MulLe(0, i, d.inc);
    MulLe(i, n - 1, d.inc);
    if i > 0 {
      StraightOffset(d, n, room, i - 1);
      assert (i - 1) * d.inc + d.inc == i * d.inc;
    }
  }

  /** A destination whose stride divides both its length and where it starts is a circle. */
  lemma {:induction false} SinkIsModular(d: Sink, i: nat)
    requires 1 <= d.inc && d.first < d.length && d.first % d.inc == 0 && d.length % d.inc == 0
    ensures SinkOffset(d, i) == (d.first + i * d.inc) % d.length
    ensures 0 <= SinkOffset(d, i) < d.length && SinkOffset(d, i) % d.inc == 0
  {
    if i == 0 {
      RemainderIsUnique(d.first, d.length, 0, d.first);
    } else {
      SinkIsModular(d, i - 1);
      var o := SinkOffset(d, i - 1);
      NextMultiple(i - 1, d.inc);
      NextMultipleStays(o, d.length, d.inc);
      NextOnCircle(d.first + (i - 1) * d.inc, d.length, d.inc);
      if o + d.inc == d.length { RemainderIsUnique(0, d.inc, 0, 0); }
    }
  }

  lemma NextOnCircle(x: int, length: int, inc: int)
    requires 0 < length && 1 <= inc && x % length + inc <= length
    ensures (x + inc) % length == if x % length + inc == length then 0 else x % length + inc
  {
    var q, o := x / length, x % length;
    assert x == length * q + o;
    if o + inc == length {
      assert length * (q + 1) == length * q + length;
      RemainderIsUnique(x + inc, length, q + 1, 0);
    } else {
      RemainderIsUnique(x + inc, length, q, o + inc);
    }
  }

  /** Between two multiples of the stride there is no other. */
  lemma NextMultipleStays(o: int, length: int, inc: int)
    requires 1 <= inc && 0 <= o < length && o % inc == 0 && length % inc == 0
    ensures o + inc <= length && (o + inc) % inc == 0
  {
    var p, q := o / inc, length / inc;
    assert o == inc * p && length == inc * q;
    if q < p + 1 { MulLe(q, p, inc); }
    MulLe(p + 1, q, inc);
    assert inc * (p + 1) == o + inc;
    RemainderIsUnique(o + inc, inc, p + 1, 0);
  }

  /** One that does not meet its end exactly runs past it and on. */
  lemma {:induction false} SinkRunsPast(d: Sink, i: nat)
    requires 1 <= d.inc && d.first < d.length && (d.length - d.first) % d.inc != 0
    ensures SinkOffset(d, i) == d.first + i * d.inc
  {
    if i > 0 {
      SinkRunsPast(d, i - 1);
      NextMultiple(i - 1, d.inc);
      if d.first + i * d.inc == d.length {
        RemainderIsUnique(d.length - d.first, d.inc, i, 0);
      }
    }
  }

  /** A read leaves destination positions it does not come to alone. */
  lemma {:induction false} UnreadStays(dst: seq<int>, d: Sink, buf: seq<int>, r: Ring, n: nat, p: nat)
    requires CanRead(dst, d, buf, r, n) && p < |dst|
    requires forall i: nat | i < n :: SinkOffset(d, i) != p
    ensures ReadInto(dst, d, buf, r, n)[p] == dst[p]
  {
    if n > 0 {
      UnreadStays(dst, d, buf, r, n - 1, p);
    }
  }

  ghost predicate CanRead(dst: seq<int>, d: Sink, buf: seq<int>, r: Ring, n: nat) {
    forall i: nat | i < n :: 0 <= Offset(r, i) < |buf| && 0 <= SinkOffset(d, i) < |dst|
  }

  lemma {:induction false} ReadAt(dst: seq<int>, d: Sink, buf: seq<int>, r: Ring, n: nat, i: nat)
    requires CanRead(dst, d, buf, r, n) && i < n
    requires forall j: nat | i < j < n :: SinkOffset(d, j) != SinkOffset(d, i)
    ensures ReadInto(dst, d, buf, r, n)[SinkOffset(d, i)] == buf[Offset(r, i)]
    decreases n
  {
    if i < n - 1 {
      ReadAt(dst, d, buf, r, n - 1, i);
    }
  }

  /** What comes back at destination position `i` after writing a block and reading it again
      from the same offset. */
  function ReadBack(buf: seq<int>, dst: seq<int>, r: Ring, src: seq<int>, srcInc: nat, d: Sink, n: nat): (s: seq<int>)
    requires Fits(buf, r, src, srcInc, n) && CanRead(dst, d, buf, r, n)
    ensures |s| == |dst|
  {
    ReadInto(dst, d, Written(buf, r, src, srcInc, n), r, n)
  }

  lemma ReadBackAt(buf: seq<int>, dst: seq<int>, r: Ring, src: seq<int>, srcInc: nat, d: Sink, n: nat, i: nat)
    requires Fits(buf, r, src, srcInc, n) && CanRead(dst, d, buf, r, n)
    requires Straight(d, n, |dst|) && i < n
    ensures 0 <= i * d.inc < |dst|
    ensures ReadBack(buf, dst, r, src, srcInc, d, n)[i * d.inc] == Written(buf, r, src, srcInc, n)[Offset(r, i)]
  {
    StraightOffset(d, n, |dst|, i);
    forall j: nat | i < j < n ensures SinkOffset(d, j) != SinkOffset(d, i) {
      StraightOffset(d, n, |dst|, j);
      MulLe(i + 1, j, d.inc);
      assert (i + 1) * d.inc == i * d.inc + d.inc;
    }
    ReadAt(dst, d, Written(buf, r, src, srcInc, n), r, n, i);
  }

  /** Write then read from the same offset returns the block, whatever its contents, if and
      only if no two accesses collide. */
  lemma RoundTripIff(buf: seq<int>, dst: seq<int>, r: Ring, d: Sink, n: nat)
    requires ValidRing(r) && r.length <= |buf| && Straight(d, n, |dst|)
    ensures forall src: seq<int> | |src| == n :: Fits(buf, r, src, 1, n)
    ensures CanRead(dst, d, buf, r, n) && forall i: nat | i < n :: 0 <= i * d.inc < |dst|
    ensures (forall src: seq<int>, i: nat | |src| == n && i < n ::
               ReadBack(buf, dst, r, src, 1, d, n)[i * d.inc] == src[i])
        <==> NoCollision(r.length, r.inc, n)
  {
    forall i: nat | i < n
      ensures 0 <= Offset(r, i) < |buf| && 0 <= SinkOffset(d, i) < |dst| && 0 <= i * d.inc < |dst|
    {
      OffsetIsModular(r, i);
      StraightOffset(d, n, |dst|, i);
    }
    if NoCollision(r.length, r.inc, n) {
      forall src: seq<int>, i: nat | |src| == n && i < n
        ensures ReadBack(buf, dst, r, src, 1, d, n)[i * d.inc] == src[i]
      {
        RoundTripOne(buf, dst, r, src, d, n, i);
      }
    } else {
      var i: nat, j: nat :| i < j < n && Collide(r.length, r.inc, i, j);
      var src := CollisionLosesData(buf, dst, r, d, n, i, j);
      assert |src| == n && ReadBack(buf, dst, r, src, 1, d, n)[i * d.inc] != src[i];
    }
  }

  lemma RoundTripOne(buf: seq<int>, dst: seq<int>, r: Ring, src: seq<int>, d: Sink, n: nat, i: nat)
    requires ValidRing(r) && Straight(d, n, |dst|) && |src| == n && i < n
    requires Fits(buf, r, src, 1, n) && CanRead(dst, d, buf, r, n) && NoCollision(r.length, r.inc, n)
    ensures 0 <= i * d.inc < |dst|
    ensures ReadBack(buf, dst, r, src, 1, d, n)[i * d.inc] == src[i]
  {
    forall j: nat | i < j < n ensures Offset(r, j) != Offset(r, i) { CollisionIsSameOffset(r, i, j); }
    LastWriteWins(buf, r, src, 1, n, i);
    ReadBackAt(buf, dst, r, src, 1, d, n, i);
  }

  /** On a collision, a block that marks only the earlier element does not survive. */
  lemma CollisionLosesData(buf: seq<int>, dst: seq<int>, r: Ring, d: Sink, n: nat, i: nat, j: nat)
    returns (src: seq<int>)
    requires ValidRing(r) && r.length <= |buf| && Straight(d, n, |dst|) && CanRead(dst, d, buf, r, n)
    requires i < j < n && Collide(r.length, r.inc, i, j)
    ensures |src| == n && Fits(buf, r, src, 1, n) && 0 <= i * d.inc < |dst|
    ensures ReadBack(buf, dst, r, src, 1, d, n)[i * d.inc] != src[i]
  {
    src := seq(n, k => if k == i then 1 else 0);
    CollisionIsSameOffset(r, i, j);
    var last := j;
    while exists k: nat :: last < k < n && Offset(r, k) == Offset(r, i)
      invariant j <= last < n && Offset(r, last) == Offset(r, i)
      decreases n - last
    {
      var k: nat :| last < k < n && Offset(r, k) == Offset(r, i);
      last := k;
    }
    LastWriteWins(buf, r, src, 1, n, last);
    ReadBackAt(buf, dst, r, src, 1, d, n, i);
  }

  /** The 16-bit write offset is right after every number of steps from every 16-bit start if
      and only if the ring has at most 2^16 elements, or the stride goes all the way round. */
  lemma OffsetsAgreeIff(length: int, inc: int)
    requires ValidRing(Ring(length, 0, inc))
    ensures (forall start: nat, n: nat | start < length && start < TWO_16 ::
               Offset(Ring(length, start, inc), n) % TWO_16 == Offset(Ring(length, start, inc), n))
        <==> length <= TWO_16 || inc == length
  {
    hide Offset;
    if length <= TWO_16 || inc == length {
      forall start: nat, n: nat | start < length && start < TWO_16
        ensures Offset(Ring(length, start, inc), n) % TWO_16 == Offset(Ring(length, start, inc), n)
      {
        OffsetIsModular(Ring(length, start, inc), n);
        if inc == length { RemainderIsUnique(start + n * inc, length, n, start); }
      }
    } else {
      var start := if inc >= TWO_16 then 0 else TWO_16 - inc;
      OffsetIsModular(Ring(length, start, inc), 1);
      RemainderIsUnique(start + 1 * inc, length, 0, start + inc);
      assert 0 <= start < length && start < TWO_16 && Offset(Ring(length, start, inc), 1) >= TWO_16;
    }
  }

  /** One step from the last 16-bit offset of a ring of 70000 elements. */
  lemma OffsetIsCutOff()
    ensures Offset(Ring(70000, 65535, 1), 1) == 65536 && 65536 % TWO_16 == 0
  {
    assert Offset(Ring(70000, 65535, 1), 0) == 65535;
  }
}
