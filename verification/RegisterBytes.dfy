/** The byte in which a priority register keeps a priority: left-aligned, so that only the
    implemented high bits carry it. */
module RegisterBytes {
  import opened MachineInt
  import opened Bits

  /** The byte a priority becomes when only `bits` priority bits are implemented. */
  function PriorityByte(priority: nat, bits: nat): nat
    requires 1 <= bits <= 8
  {
    And(ShiftLeft32(priority, 8 - bits), 0xFF)
  }

  /** The implemented bits are the high bits of the byte. */
  function HighBits(byte: nat, bits: nat): nat
    requires 1 <= bits <= 8
  {
    ShiftRight(byte, 8 - bits)
  }

  lemma PriorityBit(priority: nat, bits: nat, i: nat)
    requires 1 <= bits <= 8 && i < bits
    ensures Bit(HighBits(PriorityByte(priority, bits), bits), i) == Bit(priority % Pow2(bits), i)
  {
    hide And, Bit, ShiftLeft32, ShiftRight;
    assert Pow2(8) - 1 == 0xFF by { LanePowers(); }
    ShiftRightBit(PriorityByte(priority, bits), 8 - bits, i);
    AndBit(ShiftLeft32(priority, 8 - bits), 0xFF, i + 8 - bits);
    LowMaskBit(8, i + 8 - bits);
    ShiftLeft32Bit(priority, 8 - bits, i + 8 - bits);
    ModBit(priority, bits, i);
  }

  /** The byte is the priority, cut to the implemented bits and moved to the top; the others are
      zero. */
  lemma PriorityByteIs(priority: nat, bits: nat)
    requires 1 <= bits <= 8
    ensures 0 <= (priority % Pow2(bits)) * Pow2(8 - bits)
    ensures PriorityByte(priority, bits) == (priority % Pow2(bits)) * Pow2(8 - bits)
  {
    hide And, Bit, ShiftLeft32;
    var byte, kept, k := PriorityByte(priority, bits), priority % Pow2(bits), 8 - bits;
    assert Pow2(8) - 1 == 0xFF && Pow2(8) == TWO_8 by { LanePowers(); }
    AndLowMask(ShiftLeft32(priority, k), 8);
    Pow2Adds(bits, k);
    MulLe(kept + 1, Pow2(bits), Pow2(k));
    MulNonneg(kept, Pow2(k));
    assert (kept + 1) * Pow2(k) == kept * Pow2(k) + Pow2(k);
    forall i: nat | i < 8 ensures Bit(byte, i) == Bit(kept * Pow2(k), i) {
      AndBit(ShiftLeft32(priority, k), 0xFF, i);
      LowMaskBit(8, i);
      ShiftLeft32Bit(priority, k, i);
      ShiftUpBit(kept, k, i);
      if k <= i { ModBit(priority, bits, i - k); }
    }
    SameBits(byte, kept * Pow2(k), 8);
  }

  /** Shifting a priority up and back down keeps its low bits. */
  lemma PriorityByteHolds(priority: nat, bits: nat)
    requires 1 <= bits <= 8
    ensures PriorityByte(priority, bits) < TWO_8
    ensures HighBits(PriorityByte(priority, bits), bits) == priority % Pow2(bits)
  {
    var byte := PriorityByte(priority, bits);
    LanePowers();
    AndLowMask(ShiftLeft32(priority, 8 - bits), 8);
    ShiftRightBound(byte, bits, 8 - bits);
    forall i: nat | i < bits ensures Bit(HighBits(byte, bits), i) == Bit(priority % Pow2(bits), i) {
      PriorityBit(priority, bits, i);
    }
    SameBits(HighBits(byte, bits), priority % Pow2(bits), bits);
  }
}
