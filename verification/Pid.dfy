/** The incremental q31 PID controller arm_pid_q31.

    The header documents y[n] = y[n-1] + A0 x[n] + A1 x[n-1] + A2 x[n-2] and a
    saturated result; the code has no saturation, every intermediate wraps.  The
    results below hold of the code, for every run. */
module Pid {
  import opened MachineInt

  datatype Gains = Gains(a0: int, a1: int, a2: int)

  /** The last two inputs and the last output. */
  datatype State = State(x1: int, x2: int, y1: int)

  const ZERO_STATE: State := State(0, 0, 0)

  predicate GainsFit(g: Gains) { IsS32(g.a0) && IsS32(g.a1) && IsS32(g.a2) }
  predicate StateFits(st: State) { IsS32(st.x1) && IsS32(st.x2) && IsS32(st.y1) }

  function Accumulate(g: Gains, st: State, x: int): int {
    g.a0 * x + g.a1 * st.x1 + g.a2 * st.x2
  }

  /** One call: a wrapping 64-bit sum, its high part cut to 32 bits, a wrapping addition. */
  function Step(g: Gains, st: State, x: int): State {
    var acc := WrapS64(g.a0 * x);
    var acc := WrapS64(acc + WrapS64(g.a1 * st.x1));
    var acc := WrapS64(acc + WrapS64(g.a2 * st.x2));
    var out := WrapS32(acc / TWO_31);
    State(x, st.x1, WrapS32(out + st.y1))
  }

  function Run(g: Gains, xs: seq<int>): State {
    if xs == [] then ZERO_STATE else Step(g, Run(g, xs[..|xs| - 1]), xs[|xs| - 1])
  }

  class PidQ31 {
    var a0: int
    var a1: int
    var a2: int
    const state: array<int>

    ghost predicate Valid()
      reads this, state
    {
      state.Length == 3 && GainsFit(TheGains()) && StateFits(TheState())
    }

    function TheGains(): Gains
      reads this
    {
      Gains(a0, a1, a2)
    }

    function TheState(): State
      requires state.Length == 3
      reads this, state
    {
      State(state[0], state[1], state[2])
    }

    /** The documented gains of a controller with zeroed state. */
    constructor (kp: int, ki: int, kd: int)
      requires GainsFit(ControllerGains(kp, ki, kd))
      ensures Valid() && fresh(state)
      ensures TheGains() == ControllerGains(kp, ki, kd) && TheState() == ZERO_STATE
    {
      var g := ControllerGains(kp, ki, kd);
      a0, a1, a2 := g.a0, g.a1, g.a2;
      state := new int[3](_ => 0);
    }

    method Process(x: int) returns (out: int)
      requires Valid() && IsS32(x)
      modifies state
      ensures Valid() && TheGains() == old(TheGains())
      ensures TheState() == Step(TheGains(), old(TheState()), x) && out == TheState().y1
    {
      var acc := WrapS64(a0 * x);
      acc := WrapS64(acc + WrapS64(a1 * state[0]));
      acc := WrapS64(acc + WrapS64(a2 * state[1]));
      out := WrapS32(acc / TWO_31);
      out := WrapS32(out + state[2]);
      state[1] := state[0];
      state[0] := x;
      state[2] := out;
    }
  }

  // ----- the controller the incremental form stands for

  function ControllerGains(kp: int, ki: int, kd: int): Gains {
    Gains(kp + ki + kd, -kp - 2 * kd, kd)
  }

  function Sum(xs: seq<int>): int {
    if xs == [] then 0 else Sum(xs[..|xs| - 1]) + xs[|xs| - 1]
  }

  /** The `k`-th input before the end, zero before the start. */
  function Back(xs: seq<int>, k: nat): int {
    if k < |xs| then xs[|xs| - 1 - k] else 0
  }

  /** Proportional, integral and derivative parts of the input so far, scaled by 2^31. */
  function Positional(kp: int, ki: int, kd: int, xs: seq<int>): int {
    kp * Back(xs, 0) + ki * Sum(xs) + kd * (Back(xs, 0) - Back(xs, 1))
  }

  /** The increments of a run without any wrap-around, floored one by one and added up. */
  function Ideal(g: Gains, xs: seq<int>): int {
    if xs == [] then 0
    else
      var before := xs[..|xs| - 1];
      Ideal(g, before) + Accumulate(g, State(Back(before, 0), Back(before, 1), 0), xs[|xs| - 1]) / TWO_31
  }

  // ----- wrap-around cancels

  lemma Wrap32Periodic(a: int, k: int)
    ensures WrapS32(a + k * TWO_32) == WrapS32(a)
  {}

  lemma Wrap64Periodic(a: int, k: int)
    ensures WrapS64(a + k * TWO_64) == WrapS64(a)
  {}

  /** Wrapping the operands of a wrapped sum changes nothing. */
  lemma Wrap32Absorbs(a: int, b: int)
    ensures WrapS32(WrapS32(a) + WrapS32(b)) == WrapS32(a + b)
  {
    var j, k := (a + TWO_31) / TWO_32, (b + TWO_31) / TWO_32;
    assert WrapS32(a) + WrapS32(b) == (a + b) + (-j - k) * TWO_32;
    Wrap32Periodic(a + b, -j - k);
  }

  lemma Wrap64Absorbs(a: int, b: int)
    ensures WrapS64(WrapS64(a) + WrapS64(b)) == WrapS64(a + b)
  {
    var j, k := (a + TWO_63) / TWO_64, (b + TWO_63) / TWO_64;
    assert WrapS64(a) + WrapS64(b) == (a + b) + (-j - k) * TWO_64;
    Wrap64Periodic(a + b, -j - k);
  }

  /** Cutting a 64-bit wrap down to the 32 bits above bit 31 is as good as not wrapping. */
  lemma HighPartOfWrap(a: int)
    ensures WrapS32(WrapS64(a) / TWO_31) == WrapS32(a / TWO_31)
  {
    var k := (a + TWO_63) / TWO_64;
    assert WrapS64(a) == a - (2 * k * TWO_32) * TWO_31;
    DropWholeUnits(a, 2 * k * TWO_32);
    Wrap32Periodic(a / TWO_31, -2 * k);
  }

  lemma DropWholeUnits(a: int, m: int)
    ensures (a - m * TWO_31) / TWO_31 == a / TWO_31 - m
  {}

  lemma SumWrapsOnce(p: int, q: int, r: int)
    ensures WrapS64(WrapS64(WrapS64(p) + WrapS64(q)) + WrapS64(r)) == WrapS64(p + q + r)
  {
    hide WrapS64;
    Wrap64Absorbs(p, q);
    Wrap64Absorbs(p + q, r);
  }

  lemma ProductsWrap(p: int, q: int, r: int, total: int)
    ensures WrapS32(WrapS32(WrapS64(WrapS64(WrapS64(p) + WrapS64(q)) + WrapS64(r)) / TWO_31) + WrapS32(total))
         == WrapS32(total + (p + q + r) / TWO_31)
  {
    hide WrapS64, WrapS32;
    SumWrapsOnce(p, q, r);
    HighPartOfWrap(p + q + r);
    Wrap32Absorbs((p + q + r) / TWO_31, total);
  }

  /** A step whose previous output is a wrapped total gives the next wrapped total. */
  lemma StepWrapsTotal(g: Gains, x1: int, x2: int, total: int, x: int)
    ensures Step(g, State(x1, x2, WrapS32(total)), x)
         == State(x, x1, WrapS32(total + Accumulate(g, State(x1, x2, 0), x) / TWO_31))
  {
    hide WrapS64, WrapS32;
    ProductsWrap(g.a0 * x, g.a1 * x1, g.a2 * x2, total);
  }

  /** Over every run the state holds the last inputs, and the output is the ideal total
      reduced to 32 bits, however often intermediate results have wrapped. */
  lemma {:induction false} OutputIsWrappedIdeal(g: Gains, xs: seq<int>)
    ensures Run(g, xs) == State(Back(xs, 0), Back(xs, 1), WrapS32(Ideal(g, xs)))
  {
    if xs != [] {
      var before := xs[..|xs| - 1];
      OutputIsWrappedIdeal(g, before);
      StepWrapsTotal(g, Back(before, 0), Back(before, 1), Ideal(g, before), xs[|xs| - 1]);
      assert Back(xs, 1) == Back(before, 0);
    }
  }

  /** The ideal total is the positional controller, short by less than one unit a step. */
  lemma {:induction false} IdealTracksPositional(kp: int, ki: int, kd: int, xs: seq<int>)
    ensures var y := TWO_31 * Ideal(ControllerGains(kp, ki, kd), xs);
            y <= Positional(kp, ki, kd, xs) && Positional(kp, ki, kd, xs) - y <= |xs| * (TWO_31 - 1)
  {
    if xs != [] {
      var before, x := xs[..|xs| - 1], xs[|xs| - 1];
      IdealTracksPositional(kp, ki, kd, before);
      assert Back(xs, 1) == Back(before, 0);
      var acc := Accumulate(ControllerGains(kp, ki, kd), State(Back(before, 0), Back(before, 1), 0), x);
      Telescope(kp, ki, kd, x, Back(before, 0), Back(before, 1), Sum(before));
      assert Positional(kp, ki, kd, xs) == Positional(kp, ki, kd, before) + acc;
    }
  }

  lemma Telescope(kp: int, ki: int, kd: int, x: int, x1: int, x2: int, sum: int)
    ensures (kp * x1 + ki * sum + kd * (x1 - x2)) + ((kp + ki + kd) * x + (-kp - 2 * kd) * x1 + kd * x2)
         == kp * x + ki * (sum + x) + kd * (x - x1)
  {}

  /** The incremental form refines the positional controller.  The output equals the ideal
      total exactly when that total fits in 32 bits, and then lies below the positional value
      by less than one unit per sample. */
  lemma RefinesPositional(kp: int, ki: int, kd: int, xs: seq<int>)
    ensures var g := ControllerGains(kp, ki, kd);
            var y := Run(g, xs).y1;
            && (y == Ideal(g, xs) <==> IsS32(Ideal(g, xs)))
            && (IsS32(Ideal(g, xs)) && xs != [] ==>
                  0 <= Positional(kp, ki, kd, xs) - TWO_31 * y < |xs| * TWO_31)
  {
    OutputIsWrappedIdeal(ControllerGains(kp, ki, kd), xs);
    IdealTracksPositional(kp, ki, kd, xs);
  }

  /** How large the positional value may be: inside these bounds the output refines it, outside
      the wider ones it is certain to have wrapped.  They lie one unit a sample apart. */
  lemma RefinesWithin(kp: int, ki: int, kd: int, xs: seq<int>)
    ensures var g, p := ControllerGains(kp, ki, kd), Positional(kp, ki, kd, xs);
            var y := Run(g, xs).y1;
            && (-TWO_31 * TWO_31 + |xs| * (TWO_31 - 1) <= p < TWO_31 * TWO_31 ==>
                  y == Ideal(g, xs) && 0 <= p - TWO_31 * y <= |xs| * (TWO_31 - 1))
            && (p < -TWO_31 * TWO_31 || TWO_31 * TWO_31 + |xs| * (TWO_31 - 1) <= p ==> y != Ideal(g, xs))
  {
    OutputIsWrappedIdeal(ControllerGains(kp, ki, kd), xs);
    IdealTracksPositional(kp, ki, kd, xs);
  }

  /** The documented scaling of the input by two bits does not avoid wrap-around: a pure
      integrator fed five equal in-range samples comes out negative. */
  lemma ScaledInputStillWraps()
    ensures var xs := [0x1FFF_FFFF, 0x1FFF_FFFF, 0x1FFF_FFFF, 0x1FFF_FFFF, 0x1FFF_FFFF];
            && GainsFit(ControllerGains(0, TWO_31 - 1, 0))
            && (forall k | 0 <= k < 5 :: -0x2000_0000 <= xs[k] < 0x2000_0000)
            && Positional(0, TWO_31 - 1, 0, xs) > 0
            && Run(ControllerGains(0, TWO_31 - 1, 0), xs).y1 < 0
  {
    var x := 0x1FFF_FFFF;
    var g := ControllerGains(0, TWO_31 - 1, 0);
    var xs := [x, x, x, x, x];
    assert xs[..4] == [x, x, x, x] && xs[..4][..3] == [x, x, x];
    assert [x, x, x][..2] == [x, x] && [x, x][..1] == [x] && [x][..0] == [];
    assert Sum([x]) == x;
    assert Sum([x, x]) == 2 * x;
    assert Sum([x, x, x]) == 3 * x;
    assert Sum([x, x, x, x]) == 4 * x;
    assert Sum(xs) == 5 * x;
    assert Ideal(g, [x]) == x - 1;
    assert Ideal(g, [x, x]) == 2 * (x - 1);
    assert Ideal(g, [x, x, x]) == 3 * (x - 1);
    assert Ideal(g, [x, x, x, x]) == 4 * (x - 1);
    assert Ideal(g, xs) == 5 * (x - 1);
    OutputIsWrappedIdeal(g, xs);
  }

  /** With that scaling, neither the 64-bit sum nor its high part wraps; only the final
      addition can. */
  lemma ScaledSumNeverWraps(g: Gains, st: State, x: int)
    requires GainsFit(g)
    requires -0x2000_0000 <= x <= 0x2000_0000
    requires -0x2000_0000 <= st.x1 <= 0x2000_0000 && -0x2000_0000 <= st.x2 <= 0x2000_0000
    ensures IsS64(g.a0 * x) && IsS64(g.a0 * x + g.a1 * st.x1) && IsS64(Accumulate(g, st, x))
    ensures IsS32(Accumulate(g, st, x) / TWO_31)
  {
    ProductBound(g.a0, x, TWO_31, 0x2000_0000);
    ProductBound(g.a1, st.x1, TWO_31, 0x2000_0000);
    ProductBound(g.a2, st.x2, TWO_31, 0x2000_0000);
  }
}
