/** The split of a priority into preemption and sub-priority fields, and the byte-wide
    priority registers of core_cm4.h that store the combined value. */
module PriorityCodec {
  import opened MachineInt
  import opened Bits
  import opened RegisterBytes

  datatype Pair = Pair(preempt: nat, sub: nat)

  predicate Implemented(bits: nat) { 1 <= bits <= 8 }

  /** Only the low three bits of a grouping are used. */
  function Group(group: nat): nat { And(group, 7) }

  function PreemptBits(group: nat, bits: nat): int {
    if 7 - Group(group) > bits then bits else 7 - Group(group)
  }

  function SubBits(group: nat, bits: nat): int {
    if Group(group) + bits < 7 then 0 else Group(group) - 7 + bits
  }

  /** The two fields share the implemented bits exactly, for every grouping. */
  lemma WidthsAddUp(group: nat, bits: nat)
    requires Implemented(bits)
    ensures Group(group) == group % 8
    ensures 0 <= PreemptBits(group, bits) <= 7 && 0 <= SubBits(group, bits) <= 8
    ensures PreemptBits(group, bits) + SubBits(group, bits) == bits
  {
    assert Pow2(3) == 8;
    AndLowMask(group, 3);
  }

  /** Of the eight bits of a register byte the low `8 - bits` are not implemented; those above
      bit `group` are for preemption and the rest for the sub-priority. */
  predicate ForPreemption(group: nat, bits: nat, i: int) { 8 - bits <= i < 8 && group % 8 < i }
  predicate ForSub(group: nat, bits: nat, i: int) { 8 - bits <= i < 8 && i <= group % 8 }

  /** The widths count those bits, for every grouping. */
  lemma WidthsAre(group: nat, bits: nat)
    requires Implemented(bits)
    ensures PreemptBits(group, bits) == |set i | 0 <= i < 8 && ForPreemption(group, bits, i)|
    ensures SubBits(group, bits) == |set i | 0 <= i < 8 && ForSub(group, bits, i)|
  {
    hide Interval, Group;
    WidthsAddUp(group, bits);
    var split := if 8 - bits < group % 8 + 1 then group % 8 + 1 else 8 - bits;
    CountFrom(split, 8);
    CountFrom(8 - bits, split);
    BitsOf(group, bits, split);
  }

  lemma BitsOf(group: nat, bits: nat, split: int)
    requires Implemented(bits) && split == if 8 - bits < group % 8 + 1 then group % 8 + 1 else 8 - bits
    ensures (set i | 0 <= i < 8 && ForPreemption(group, bits, i)) == Interval(split, 8)
    ensures (set i | 0 <= i < 8 && ForSub(group, bits, i)) == Interval(8 - bits, split)
  {
    hide Interval;
    CountFrom(split, 8);
    CountFrom(8 - bits, split);
  }

  function Interval(lo: int, hi: int): set<int>
    decreases hi - lo
  {
    if hi <= lo then {} else Interval(lo, hi - 1) + {hi - 1}
  }

  lemma {:induction false} CountFrom(lo: int, hi: int)
    requires lo <= hi
    ensures |Interval(lo, hi)| == hi - lo && forall i :: i in Interval(lo, hi) <==> lo <= i < hi
    decreases hi - lo
  {
    if lo < hi { CountFrom(lo, hi - 1); }
  }

  function Encode(bits: nat, group: nat, p: Pair): nat
    requires Implemented(bits)
  {
    WidthsAddUp(group, bits);
    Or(ShiftLeft32(And(p.preempt, Pow2(PreemptBits(group, bits)) - 1), SubBits(group, bits)),
       And(p.sub, Pow2(SubBits(group, bits)) - 1))
  }

  function Decode(bits: nat, group: nat, priority: nat): Pair
    requires Implemented(bits)
  {
    WidthsAddUp(group, bits);
    Pair(And(ShiftRight(priority, SubBits(group, bits)), Pow2(PreemptBits(group, bits)) - 1),
         And(priority, Pow2(SubBits(group, bits)) - 1))
  }

  /** Both values reduced to the widths of their fields. */
  function Reduced(bits: nat, group: nat, p: Pair): Pair
    requires Implemented(bits)
  {
    WidthsAddUp(group, bits);
    Pair(p.preempt % Pow2(PreemptBits(group, bits)), p.sub % Pow2(SubBits(group, bits)))
  }

  // ----- the encoding as a number

  lemma MixedRadix(hi: nat, lo: nat, m: nat, n: nat)
    requires hi < Pow2(m) && lo < Pow2(n)
    ensures 0 <= hi * Pow2(n) && hi * Pow2(n) + lo < Pow2(m + n)
  {
    Pow2Adds(m, n);
    MulLe(hi + 1, Pow2(m), Pow2(n));
    assert (hi + 1) * Pow2(n) == hi * Pow2(n) + Pow2(n);
    MulNonneg(hi, Pow2(n));
  }

  lemma FieldsJoin(preempt: nat, sub: nat, m: nat, n: nat)
    requires m + n <= 8
    ensures var hi, lo := preempt % Pow2(m), sub % Pow2(n);
            && 0 <= hi * Pow2(n)
            && Or(ShiftLeft32(And(preempt, Pow2(m) - 1), n), And(sub, Pow2(n) - 1)) == hi * Pow2(n) + lo
  {
    hide Or, And;
    var hi, lo := preempt % Pow2(m), sub % Pow2(n);
    AndLowMask(preempt, m);
    AndLowMask(sub, n);
    MixedRadix(hi, lo, m, n);
    Pow2Grows(m + n, 8);
    ShiftLeftExact(hi, n);
    OrAdds(hi, lo, n);
  }

  lemma ShiftLeftExact(x: nat, n: nat)
    requires x * Pow2(n) < Pow2(8)
    ensures ShiftLeft32(x, n) == Pow2(n) * x == x * Pow2(n)
  {
    LanePowers();
    MulNonneg(x, Pow2(n));
  }

  lemma EncodeIs(bits: nat, group: nat, p: Pair)
    requires Implemented(bits)
    ensures 0 <= PreemptBits(group, bits) && 0 <= SubBits(group, bits)
    ensures var q := Reduced(bits, group, p);
            && q.preempt < Pow2(PreemptBits(group, bits)) && q.sub < Pow2(SubBits(group, bits))
            && Encode(bits, group, p) == q.preempt * Pow2(SubBits(group, bits)) + q.sub < Pow2(bits)
  {
    WidthsAddUp(group, bits);
    var m, n := PreemptBits(group, bits), SubBits(group, bits);
    FieldsJoin(p.preempt, p.sub, m, n);
    MixedRadix(p.preempt % Pow2(m), p.sub % Pow2(n), m, n);
  }

  lemma DecodeIs(bits: nat, group: nat, priority: nat)
    requires Implemented(bits)
    ensures 0 <= PreemptBits(group, bits) && 0 <= SubBits(group, bits)
    ensures Decode(bits, group, priority)
         == Pair((priority / Pow2(SubBits(group, bits))) % Pow2(PreemptBits(group, bits)), priority % Pow2(SubBits(group, bits)))
  {
    WidthsAddUp(group, bits);
    ShiftRightDivides(priority, SubBits(group, bits));
    AndLowMask(ShiftRight(priority, SubBits(group, bits)), PreemptBits(group, bits));
    AndLowMask(priority, SubBits(group, bits));
  }

  // ----- round trips and order

  /** Decoding an encoding gives both values back, reduced to their widths. */
  lemma DecodeEncode(bits: nat, group: nat, p: Pair)
    requires Implemented(bits)
    ensures Decode(bits, group, Encode(bits, group, p)) == Reduced(bits, group, p)
  {
    EncodeIs(bits, group, p);
    DecodeIs(bits, group, Encode(bits, group, p));
    var q, n := Reduced(bits, group, p), SubBits(group, bits);
    SplitMixed(q.preempt, q.sub, Pow2(n));
    RemainderIsUnique(q.preempt, Pow2(PreemptBits(group, bits)), 0, q.preempt);
  }

  lemma SplitMixed(hi: nat, lo: nat, d: int)
    requires lo < d
    ensures (hi * d + lo) / d == hi && (hi * d + lo) % d == lo
  {
    RemainderIsUnique(hi * d + lo, d, hi, lo);
  }

  /** Encoding a decoded register value gives the register value back. */
  lemma EncodeDecode(bits: nat, group: nat, priority: nat)
    requires Implemented(bits) && priority < Pow2(bits)
    ensures Encode(bits, group, Decode(bits, group, priority)) == priority
  {
    hide Encode, Decode, PreemptBits, SubBits;
    WidthsAddUp(group, bits);
    var m, n := PreemptBits(group, bits), SubBits(group, bits);
    FieldsOf(priority, m, n);
    DecodeIs(bits, group, priority);
    EncodeFitting(bits, group, Pair(priority / Pow2(n), priority % Pow2(n)));
  }

  lemma FieldsOf(x: nat, m: nat, n: nat)
    requires x < Pow2(m + n)
    ensures 0 <= x / Pow2(n) < Pow2(m) && (x / Pow2(n)) % Pow2(m) == x / Pow2(n)
    ensures (x / Pow2(n)) * Pow2(n) + x % Pow2(n) == x
  {
    hide Pow2, ShiftRight;
    ShiftRightDivides(x, n);
    ShiftRightBound(x, m, n);
    RemainderIsUnique(x / Pow2(n), Pow2(m), 0, x / Pow2(n));
  }

  lemma EncodeFitting(bits: nat, group: nat, p: Pair)
    requires Implemented(bits)
    requires 0 <= PreemptBits(group, bits) && 0 <= SubBits(group, bits)
    requires p.preempt < Pow2(PreemptBits(group, bits)) && p.sub < Pow2(SubBits(group, bits))
    ensures Encode(bits, group, p) == p.preempt * Pow2(SubBits(group, bits)) + p.sub
  {
    hide Encode, PreemptBits, SubBits;
    EncodeIs(bits, group, p);
    RemainderIsUnique(p.preempt, Pow2(PreemptBits(group, bits)), 0, p.preempt);
    RemainderIsUnique(p.sub, Pow2(SubBits(group, bits)), 0, p.sub);
  }

  /** On pairs that fit their fields, the encoding orders by preemption first. */
  lemma EncodeIsLexicographic(bits: nat, group: nat, p: Pair, q: Pair)
    requires Implemented(bits)
    requires Reduced(bits, group, p) == p && Reduced(bits, group, q) == q
    ensures Encode(bits, group, p) < Encode(bits, group, q)
       <==> p.preempt < q.preempt || (p.preempt == q.preempt && p.sub < q.sub)
  {
    EncodeIs(bits, group, p);
    EncodeIs(bits, group, q);
    var d := Pow2(SubBits(group, bits));
    if p.preempt < q.preempt {
      HigherWins(p.preempt, p.sub, q.preempt, q.sub, d);
    } else if q.preempt < p.preempt {
      HigherWins(q.preempt, q.sub, p.preempt, p.sub, d);
    }
  }

  lemma HigherWins(a: nat, x: nat, b: nat, y: nat, d: int)
    requires a < b && x < d
    ensures a * d + x < b * d + y
  {
    MulLe(a + 1, b, d);
    assert (a + 1) * d == a * d + d;
  }

  // ----- the byte-wide registers

  /** External interrupts have 240 bytes, system handlers 12. */
  class Registers {
    const ip: array<nat>
    const shp: array<nat>
    const bits: nat

    ghost predicate Valid()
      reads ip, shp
    {
      && ip.Length == 240 && shp.Length == 12 && ip != shp && Implemented(bits)
      && (forall k | 0 <= k < 240 :: ip[k] < TWO_8) && (forall k | 0 <= k < 12 :: shp[k] < TWO_8)
    }

    predicate Settable(irq: int) { -12 <= irq < 240 }

    function Handler(irq: int): int { And(WrapU32(irq), 0xF) - 4 }

    lemma HandlerIs(irq: int)
      requires -12 <= irq < 0
      ensures Handler(irq) == irq + 12
    {
      assert WrapU32(irq) % 16 == irq + 16;
      assert Pow2(4) == 16;
      AndLowMask(WrapU32(irq), 4);
    }

    /** The stored bytes, by interrupt number. */
    ghost function Bytes(): map<int, nat>
      requires ip.Length == 240 && shp.Length == 12
      reads ip, shp
    {
      map irq: int | -12 <= irq < 240 :: if irq < 0 then shp[irq + 12] else ip[irq]
    }

    constructor (bits: nat)
      requires Implemented(bits)
      ensures Valid() && fresh(ip) && fresh(shp) && this.bits == bits
    {
      this.bits := bits;
      ip := new nat[240](_ => 0);
      shp := new nat[12](_ => 0);
    }

    method SetPriority(irq: int, priority: nat)
      requires Valid() && Settable(irq)
      modifies ip, shp
      ensures Valid()
      ensures 0 <= (priority % Pow2(bits)) * Pow2(8 - bits)
      ensures Bytes() == old(Bytes())[irq := (priority % Pow2(bits)) * Pow2(8 - bits)]
    {
      PriorityByteHolds(priority, bits);
      PriorityByteIs(priority, bits);
      if irq < 0 {
        HandlerIs(irq);
        shp[Handler(irq)] := PriorityByte(priority, bits);
      } else {
        ip[irq] := PriorityByte(priority, bits);
      }
    }

    method GetPriority(irq: int) returns (priority: nat)
      requires Valid() && Settable(irq)
      ensures priority == Bytes()[irq] / Pow2(8 - bits)
    {
      ShiftRightDivides(Bytes()[irq], 8 - bits);
      if irq < 0 {
        HandlerIs(irq);
        priority := HighBits(shp[Handler(irq)], bits);
      } else {
        priority := HighBits(ip[irq], bits);
      }
    }
  }

  /** An encoded pair survives the register and decodes to itself. */
  lemma EncodingSurvivesRegister(bits: nat, group: nat, p: Pair)
    requires Implemented(bits)
    ensures var loaded := HighBits(PriorityByte(Encode(bits, group, p), bits), bits);
            loaded == Encode(bits, group, p) && Decode(bits, group, loaded) == Reduced(bits, group, p)
  {
    var e := Encode(bits, group, p);
    PriorityByteHolds(e, bits);
    EncodeIs(bits, group, p);
    RemainderIsUnique(e, Pow2(bits), 0, e);
    DecodeEncode(bits, group, p);
  }
}
