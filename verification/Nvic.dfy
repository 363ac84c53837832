/** Interrupt priorities of core_cm0plus.h, where four 8-bit fields share a 32-bit register
    word and every write is a read-modify-write of the word. */
module Nvic {
  import opened MachineInt
  import opened Bits
  import opened RegisterBytes

  /** External interrupts live in eight words, system handlers in two. */
  datatype Registers = Registers(ip: seq<nat>, shp: seq<nat>)

  ghost predicate ValidRegisters(r: Registers) {
    |r.ip| == 8 && |r.shp| == 2 && (forall k | 0 <= k < 8 :: r.ip[k] < TWO_32) && (forall k | 0 <= k < 2 :: r.shp[k] < TWO_32)
  }

  /** Interrupt numbers whose word index falls inside its register bank. */
  predicate Settable(irq: int) { -8 <= irq < 32 }

  function BitShift(irq: int): nat { And(WrapU32(irq), 3) * 8 }

  function WordIndex(irq: int): int {
    if irq < 0 then WrapU32(And(WrapU32(irq), 0xF) - 8) / 4 else WrapU32(irq) / 4
  }

  lemma WordIndexIs(irq: int)
    requires Settable(irq)
    ensures BitShift(irq) == 8 * (irq % 4)
    ensures WordIndex(irq) == if irq < 0 then (irq + 8) / 4 else irq / 4
    ensures 0 <= WordIndex(irq) < if irq < 0 then 2 else 8
  {
    assert Pow2(2) == 4 && Pow2(4) == 16;
    AndLowMask(WrapU32(irq), 2);
    AndLowMask(WrapU32(irq), 4);
    LowNibble(irq);
  }

  lemma LowNibble(irq: int)
    requires Settable(irq)
    ensures WrapU32(irq) % 4 == irq % 4
    ensures irq < 0 ==> WrapU32(irq) % 16 == irq + 16
  {}

  function WordOf(r: Registers, irq: int): nat
    requires ValidRegisters(r) && Settable(irq)
  {
    WordIndexIs(irq);
    if irq < 0 then r.shp[WordIndex(irq)] else r.ip[WordIndex(irq)]
  }

  /** Replaces the byte at `shift` of a word. */
  function WithByte(word: nat, shift: nat, byte: nat): nat
    requires shift <= 24
  {
    ByteMaskFits(shift);
    Or(And(word, Not32(ShiftLeft32(0xFF, shift))), ShiftLeft32(byte, shift))
  }

  function ByteAt(word: nat, shift: nat): nat {
    And(ShiftRight(word, shift), 0xFF)
  }

  lemma ByteMaskFits(shift: nat)
    ensures ShiftLeft32(0xFF, shift) < TWO_32
  {}

  function SetPriority(r: Registers, irq: int, priority: nat, bits: nat): Registers
    requires ValidRegisters(r) && Settable(irq) && 1 <= bits <= 8
  {
    WordIndexIs(irq);
    var word := WithByte(WordOf(r, irq), BitShift(irq), PriorityByte(priority, bits));
    if irq < 0 then r.(shp := r.shp[WordIndex(irq) := word]) else r.(ip := r.ip[WordIndex(irq) := word])
  }

  function GetPriority(r: Registers, irq: int, bits: nat): nat
    requires ValidRegisters(r) && Settable(irq) && 1 <= bits <= 8
  {
    HighBits(ByteAt(WordOf(r, irq), BitShift(irq)), bits)
  }

  // ----- one byte of one word

  lemma ByteAtBit(word: nat, shift: nat, i: nat)
    ensures Bit(ByteAt(word, shift), i) <==> i < 8 && Bit(word, i + shift)
  {
    LanePowers();
    AndBit(ShiftRight(word, shift), 0xFF, i);
    ShiftRightBit(word, shift, i);
    LowMaskBit(8, i);
  }

  lemma ByteAtFits(word: nat, shift: nat)
    ensures ByteAt(word, shift) < TWO_8
  {
    LanePowers();
    AndLowMask(ShiftRight(word, shift), 8);
  }

  lemma WithByteBit(word: nat, shift: nat, byte: nat, i: nat)
    requires word < TWO_32 && shift <= 24 && byte < TWO_8
    ensures Bit(WithByte(word, shift, byte), i) <==>
              if shift <= i < shift + 8 then Bit(byte, i - shift) else i < 32 && Bit(word, i)
  {
    LanePowers();
    var mask := ShiftLeft32(0xFF, shift);
    OrBit(And(word, Not32(mask)), ShiftLeft32(byte, shift), i);
    AndBit(word, Not32(mask), i);
    Not32Bit(mask, i);
    ShiftLeft32Bit(0xFF, shift, i);
    ShiftLeft32Bit(byte, shift, i);
    if shift <= i {
      LowMaskBit(8, i - shift);
      HighBitClear(byte, 8, i - shift);
    }
  }

  lemma {:induction false} HighBitClear(x: nat, n: nat, i: nat)
    requires x < Pow2(n)
    ensures n <= i ==> !Bit(x, i)
    decreases n
  {
    if n == 0 {
      BitOfZero(i);
    } else if i > 0 {
      HighBitClear(x / 2, n - 1, i - 1);
    }
  }

  lemma {:induction false} BitsBound(x: nat, n: nat)
    requires forall i: nat | n <= i :: !Bit(x, i)
    ensures x < Pow2(n)
    decreases n + x
  {
    if x > 0 {
      if n == 0 {
        var i := TopBitOf(x);
        assert false;
      } else {
        forall i: nat | n - 1 <= i ensures !Bit(x / 2, i) {
          assert !Bit(x, i + 1);
        }
        BitsBound(x / 2, n - 1);
      }
    }
  }

  lemma {:induction false} TopBitOf(x: nat) returns (i: nat)
    requires 0 < x
    ensures Bit(x, i)
  {
    if x == 1 {
      i := 0;
    } else {
      var j := TopBitOf(x / 2);
      i := j + 1;
    }
  }

  lemma WithByteFits(word: nat, shift: nat, byte: nat)
    requires word < TWO_32 && byte < TWO_8 && shift <= 24
    ensures WithByte(word, shift, byte) < TWO_32
  {
    forall i: nat | 32 <= i ensures !Bit(WithByte(word, shift, byte), i) {
      WithByteBit(word, shift, byte, i);
    }
    BitsBound(WithByte(word, shift, byte), 32);
    LanePowers();
  }

  /** Writing one byte of a word gives that byte and leaves the other three alone. */
  lemma WithByteThenByteAt(word: nat, shift: nat, byte: nat, other: nat)
    requires word < TWO_32 && byte < TWO_8
    requires shift % 8 == 0 && other % 8 == 0 && shift <= 24 && other <= 24
    ensures ByteAt(WithByte(word, shift, byte), other) == if other == shift then byte else ByteAt(word, other)
  {
    var after := WithByte(word, shift, byte);
    forall i: nat | i < 8
      ensures Bit(ByteAt(after, other), i) == if other == shift then Bit(byte, i) else Bit(ByteAt(word, other), i)
    {
      ByteBitAfterWrite(word, shift, byte, other, i);
    }
    SameByteBits(ByteAt(after, other), if other == shift then byte else ByteAt(word, other), after, word, other);
  }

  lemma ByteBitAfterWrite(word: nat, shift: nat, byte: nat, other: nat, i: nat)
    requires word < TWO_32 && byte < TWO_8 && i < 8
    requires shift % 8 == 0 && other % 8 == 0 && shift <= 24 && other <= 24
    ensures Bit(ByteAt(WithByte(word, shift, byte), other), i)
         == if other == shift then Bit(byte, i) else Bit(ByteAt(word, other), i)
  {
    hide ByteAt, WithByte;
    ByteAtBit(WithByte(word, shift, byte), other, i);
    ByteAtBit(word, other, i);
    WithByteBit(word, shift, byte, i + other);
  }

  lemma SameByteBits(x: nat, y: nat, after: nat, word: nat, other: nat)
    requires x == ByteAt(after, other) && (y < TWO_8 || y == ByteAt(word, other))
    requires forall i: nat | i < 8 :: Bit(x, i) == Bit(y, i)
    ensures x == y
  {
    LanePowers();
    ByteAtFits(after, other);
    ByteAtFits(word, other);
    SameBits(x, y, 8);
  }

  // ----- the registers as a map

  /** A write is seen by a read of the same interrupt, reduced to the implemented bits, and by
      no other read. */
  lemma SetThenGet(r: Registers, irq: int, priority: nat, bits: nat, other: int)
    requires ValidRegisters(r) && Settable(irq) && Settable(other) && 1 <= bits <= 8
    ensures ValidRegisters(SetPriority(r, irq, priority, bits))
    ensures GetPriority(SetPriority(r, irq, priority, bits), other, bits)
         == if other == irq then priority % Pow2(bits) else GetPriority(r, other, bits)
  {
    hide WithByte, ByteAt, BitShift, WordIndex, PriorityByte, WordOf, HighBits;
    WordAfterSet(r, irq, priority, bits, other);
    SameSlot(irq, other);
    SlotShift(irq);
    SlotShift(other);
    PriorityByteHolds(priority, bits);
    ByteAfterWrite(WordOf(r, irq), WordOf(r, other), BitShift(irq), BitShift(other), PriorityByte(priority, bits), SameWord(irq, other));
  }

  lemma SlotShift(irq: int)
    requires Settable(irq)
    ensures BitShift(irq) % 8 == 0 && BitShift(irq) <= 24
  {
    WordIndexIs(irq);
  }

  /** Word and byte position together identify an interrupt. */
  lemma SameSlot(irq: int, other: int)
    requires Settable(irq) && Settable(other)
    ensures SameWord(irq, other) && BitShift(irq) == BitShift(other) <==> irq == other
  {
    WordIndexIs(irq);
    WordIndexIs(other);
  }

  lemma ByteAfterWrite(word: nat, otherWord: nat, shift: nat, other: nat, byte: nat, same: bool)
    requires word < TWO_32 && byte < TWO_8 && (same ==> otherWord == word)
    requires shift % 8 == 0 && other % 8 == 0 && shift <= 24 && other <= 24
    ensures ByteAt(if same then WithByte(word, shift, byte) else otherWord, other)
         == if same && other == shift then byte else ByteAt(otherWord, other)
  {
    if same {
      WithByteThenByteAt(word, shift, byte, other);
    }
  }

  predicate SameWord(irq: int, other: int) {
    (irq < 0) == (other < 0) && WordIndex(irq) == WordIndex(other)
  }

  lemma WordAfterSet(r: Registers, irq: int, priority: nat, bits: nat, other: int)
    requires ValidRegisters(r) && Settable(irq) && Settable(other) && 1 <= bits <= 8
    ensures BitShift(irq) <= 24 && WordOf(r, irq) < TWO_32
    ensures ValidRegisters(SetPriority(r, irq, priority, bits))
    ensures SameWord(irq, other) ==> WordOf(r, irq) == WordOf(r, other)
    ensures WordOf(SetPriority(r, irq, priority, bits), other)
         == if SameWord(irq, other) then WithByte(WordOf(r, irq), BitShift(irq), PriorityByte(priority, bits))
            else WordOf(r, other)
  {
    WordIndexIs(irq);
    WordIndexIs(other);
    PriorityByteHolds(priority, bits);
    WithByteFits(WordOf(r, irq), BitShift(irq), PriorityByte(priority, bits));
  }

  lemma ByteAtIs(word: nat, shift: nat)
    ensures ByteAt(word, shift) == word / Pow2(shift) % 256
  {
    LanePowers();
    AndLowMask(ShiftRight(word, shift), 8);
    ShiftRightDivides(word, shift);
  }

  /** What a write leaves in the registers: in its own byte the priority, cut to the implemented
      bits and moved to the top; in every other byte what was there.  The byte of an interrupt is
      number `irq % 4` of its word. */
  lemma BytesAfterSet(r: Registers, irq: int, priority: nat, bits: nat, other: int)
    requires ValidRegisters(r) && Settable(irq) && Settable(other) && 1 <= bits <= 8
    ensures ValidRegisters(SetPriority(r, irq, priority, bits)) && 0 <= (priority % Pow2(bits)) * Pow2(8 - bits)
    ensures WordOf(SetPriority(r, irq, priority, bits), other) / Pow2(8 * (other % 4)) % 256
         == if other == irq then (priority % Pow2(bits)) * Pow2(8 - bits) else WordOf(r, other) / Pow2(8 * (other % 4)) % 256
  {
    hide WithByte, ByteAt, BitShift, WordIndex, PriorityByte, WordOf, HighBits, SetPriority;
    WordAfterSet(r, irq, priority, bits, other);
    SameSlot(irq, other);
    SlotShift(irq);
    SlotShift(other);
    WordIndexIs(other);
    PriorityByteHolds(priority, bits);
    PriorityByteIs(priority, bits);
    ByteAtIs(WordOf(r, other), BitShift(other));
    ByteAtIs(WordOf(SetPriority(r, irq, priority, bits), other), BitShift(other));
    ByteAfterWrite(WordOf(r, irq), WordOf(r, other), BitShift(irq), BitShift(other), PriorityByte(priority, bits), SameWord(irq, other));
  }

  /** What a read returns: the implemented bits of the interrupt's byte. */
  lemma GetIs(r: Registers, irq: int, bits: nat)
    requires ValidRegisters(r) && Settable(irq) && 1 <= bits <= 8
    ensures GetPriority(r, irq, bits) == (WordOf(r, irq) / Pow2(8 * (irq % 4)) % 256) / Pow2(8 - bits)
  {
    WordIndexIs(irq);
    ByteAtIs(WordOf(r, irq), BitShift(irq));
    ShiftRightDivides(ByteAt(WordOf(r, irq), BitShift(irq)), 8 - bits);
  }

  ghost function Priorities(r: Registers, bits: nat): map<int, nat>
    requires ValidRegisters(r) && 1 <= bits <= 8
  {
    map irq: int | -8 <= irq < 32 :: GetPriority(r, irq, bits)
  }

  lemma MapAfterSet(r: Registers, irq: int, priority: nat, bits: nat)
    requires ValidRegisters(r) && Settable(irq) && 1 <= bits <= 8
    ensures ValidRegisters(SetPriority(r, irq, priority, bits))
    ensures Priorities(SetPriority(r, irq, priority, bits), bits) == Priorities(r, bits)[irq := priority % Pow2(bits)]
  {
    hide GetPriority, SetPriority;
    SetThenGet(r, irq, priority, bits, irq);
    forall other | Settable(other)
      ensures GetPriority(SetPriority(r, irq, priority, bits), other, bits)
           == if other == irq then priority % Pow2(bits) else GetPriority(r, other, bits)
    {
      SetThenGet(r, irq, priority, bits, other);
    }
  }

  datatype Call = Call(irq: int, priority: nat)

  ghost predicate SettableCalls(calls: seq<Call>) { forall c | c in calls :: Settable(c.irq) }

  function Replay(r: Registers, calls: seq<Call>, bits: nat): (s: Registers)
    requires ValidRegisters(r) && SettableCalls(calls) && 1 <= bits <= 8
    ensures ValidRegisters(s)
  {
    if calls == [] then r
    else
      var before := Replay(r, calls[..|calls| - 1], bits);
      var c := calls[|calls| - 1];
      SetThenGet(before, c.irq, c.priority, bits, c.irq);
      SetPriority(before, c.irq, c.priority, bits)
  }

  function Updates(m: map<int, nat>, calls: seq<Call>, bits: nat): map<int, nat> {
    if calls == [] then m
    else
      var c := calls[|calls| - 1];
      Updates(m, calls[..|calls| - 1], bits)[c.irq := c.priority % Pow2(bits)]
  }

  /** Over any sequence of writes the packed registers behave as a plain map. */
  lemma {:induction false} RegistersRefineMap(r: Registers, calls: seq<Call>, bits: nat)
    requires ValidRegisters(r) && SettableCalls(calls) && 1 <= bits <= 8
    ensures Priorities(Replay(r, calls, bits), bits) == Updates(Priorities(r, bits), calls, bits)
  {
    if calls != [] {
      var earlier, c := calls[..|calls| - 1], calls[|calls| - 1];
      RegistersRefineMap(r, earlier, bits);
      MapAfterSet(Replay(r, earlier, bits), c.irq, c.priority, bits);
    }
  }

  // ----- the routines over the register words

  class Controller {
    const ip: array<nat>
    const shp: array<nat>
    const bits: nat

    ghost predicate Valid()
      reads ip, shp
    {
      ip.Length == 8 && shp.Length == 2 && ip != shp && 1 <= bits <= 8 && ValidRegisters(View())
    }

    ghost function View(): Registers
      reads ip, shp
    {
      Registers(ip[..], shp[..])
    }

    constructor (bits: nat)
      requires 1 <= bits <= 8
      ensures Valid() && fresh(ip) && fresh(shp) && this.bits == bits
    {
      this.bits := bits;
      ip := new nat[8](_ => 0);
      shp := new nat[2](_ => 0);
    }

    method Set(irq: int, priority: nat)
      requires Valid() && Settable(irq)
      modifies ip, shp
      ensures Valid() && View() == SetPriority(old(View()), irq, priority, bits)
      ensures Priorities(View(), bits) == old(Priorities(View(), bits))[irq := priority % Pow2(bits)]
    {
      ghost var was := View();
      WordIndexIs(irq);
      SetThenGet(was, irq, priority, bits, irq);
      var k := WordIndex(irq);
      if irq < 0 {
        shp[k] := WithByte(shp[k], BitShift(irq), PriorityByte(priority, bits));
      } else {
        ip[k] := WithByte(ip[k], BitShift(irq), PriorityByte(priority, bits));
      }
      assert View() == SetPriority(was, irq, priority, bits);
      MapAfterSet(was, irq, priority, bits);
    }

    method Get(irq: int) returns (priority: nat)
      requires Valid() && Settable(irq)
      ensures priority == Priorities(View(), bits)[irq]
    {
      WordIndexIs(irq);
      var k := WordIndex(irq);
      var word := if irq < 0 then shp[k] else ip[k];
      priority := HighBits(ByteAt(word, BitShift(irq)), bits);
    }
  }
}
