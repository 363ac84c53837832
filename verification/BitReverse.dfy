/** The portable __RBIT loop of core_cmInstr.h. */
module BitReverse {
  import opened MachineInt
  import opened Bits

  ghost predicate IsReverse(x: nat, r: nat) {
    r < TWO_32 && forall i: nat | i < 32 :: Bit(r, i) == Bit(x, 31 - i)
  }

  /** What the loop has established when `s` positions are still to be filled: the low bits
      of `result` are the low bits of `x` reversed, and `rest` holds the bits not yet seen. */
  ghost predicate Progress(x: nat, result: nat, rest: nat, s: nat) {
    && s <= 31
    && (forall i: nat | i <= 31 - s :: Bit(result, i) == Bit(x, 31 - s - i))
    && (forall i: nat {:trigger Bit(rest, i)} :: Bit(rest, i) == Bit(x, i + 32 - s))
  }

  lemma ProgressStep(x: nat, result: nat, rest: nat, s: nat)
    requires Progress(x, result, rest, s) && 0 < s
    ensures Progress(x, Or(ShiftLeft32(result, 1), And(rest, 1)), rest / 2, s - 1)
  {
    var shifted, low := ShiftLeft32(result, 1), And(rest, 1);
    var result' := Or(shifted, low);
    forall i: nat | i <= 32 - s
      ensures Bit(result', i) == Bit(x, 32 - s - i)
    {
      OrBit(shifted, low, i);
      ShiftLeft32Bit(result, 1, i);
      AndBit(rest, 1, i);
      if i == 0 {
        assert Bit(rest, 0) == Bit(x, 32 - s);
      } else {
        BitOfZero(i - 1);
        assert !Bit(1, i);
      }
    }
    forall i: nat
      ensures Bit(rest / 2, i) == Bit(x, i + 33 - s)
    {
      assert Bit(rest, i + 1) == Bit(x, i + 1 + 32 - s);
    }
  }

  lemma ProgressDone(x: nat, result: nat, s: nat)
    requires Progress(x, result, 0, s)
    ensures IsReverse(x, ShiftLeft32(result, s))
  {
    forall i: nat | i < 32
      ensures Bit(ShiftLeft32(result, s), i) == Bit(x, 31 - i)
    {
      ShiftLeft32Bit(result, s, i);
      if i < s {
        BitOfZero(s - 1 - i);
        assert Bit(0, s - 1 - i) == Bit(x, s - 1 - i + 32 - s);
      }
    }
  }

  /** Shifts bits out of the low end of the value and into the low end of the result, leaves
      early once no set bit remains, and makes up the missing shifts at the end. */
  method ReverseBits(value: nat) returns (result: nat)
    requires value < TWO_32
    ensures IsReverse(value, result)
  {
    result := value;
    var rest: nat := value / 2;
    var s: nat := 31;
    LanePowers();
    while rest != 0
      invariant s <= 31 && rest < Pow2(s)
      invariant Progress(value, result, rest, s)
      decreases rest
    {
      ProgressStep(value, result, rest, s);
      result := ShiftLeft32(result, 1);
      result := Or(result, And(rest, 1));
      s := s - 1;
      rest := rest / 2;
    }
    ProgressDone(value, result, s);
    result := ShiftLeft32(result, s);
  }

  lemma ReverseIsUnique(x: nat, r: nat, r': nat)
    requires IsReverse(x, r) && IsReverse(x, r')
    ensures r == r'
  {
    LanePowers();
    SameBits(r, r', 32);
  }

  /** Reversing twice gives the value back. */
  lemma ReverseTwice(x: nat, r: nat, y: nat)
    requires x < TWO_32 && IsReverse(x, r) && IsReverse(r, y)
    ensures y == x
  {
    LanePowers();
    forall i: nat | i < 32 ensures Bit(y, i) == Bit(x, i) {
      assert Bit(y, i) == Bit(r, 31 - i);
      assert Bit(r, 31 - i) == Bit(x, 31 - (31 - i));
    }
    SameBits(x, y, 32);
  }
}
