/** The enable, disable and reset sequences of the J1708 link, down to single register
    transfers, for one caller and for any number of overlapping ones.

    J1708_reset is called from both the Tx and the Rx task without a lock.  Each register
    change is a read over I2C followed by a write over I2C, so two resets can interleave
    between the two. */
module J1708Reset {

  import opened MachineInt
  import opened Bits

  type word = w: nat | w < TWO_32

  const ENABLE: word := 1
  const RX_IRQ: word := 1

  /** Bit 0 is the enable bit of the control register and the receive bit of the interrupt mask. */
  function On(w: word): word {
    OnIs(w);
    Or(w, ENABLE)
  }

  function Off(w: word): word {
    OffIs(w);
    And(w, Not32(ENABLE))
  }

  predicate IsOn(w: word) { And(w, RX_IRQ) != 0 }

  /** The priority field: three bits from bit 4 up. */
  function Prio(priority: nat): word { ShiftLeft32(And(priority, 7), 4) }

  /** Keeps the enable bit and replaces everything else by the priority field. */
  function WithPriority(w: word, priority: nat): word {
    WithPriorityIs(w, priority);
    Or(And(w, ENABLE), Prio(priority))
  }

  /** What the control register holds on a link enabled at this priority. */
  function Configured(priority: nat): word {
    WithPriorityIs(ENABLE, priority);
    Or(ENABLE, Prio(priority))
  }

  lemma OnIs(w: word)
    ensures Or(w, ENABLE) == 2 * (w / 2) + 1 < TWO_32
  {
    OrZero(w / 2);
  }

  lemma OffIs(w: word)
    ensures And(w, Not32(ENABLE)) == 2 * (w / 2)
  {
    hide And;
    LanePowers();
    AndEven(w, Pow2(31) - 1);
    AndLowMask(w / 2, 31);
    assert (w / 2) % TWO_31 == w / 2;
  }

  lemma IsOnIs(w: word)
    ensures And(w, ENABLE) == w % 2
  {
    assert Pow2(1) == 2;
    AndLowMask(w, 1);
  }

  lemma PrioIs(priority: nat)
    ensures Prio(priority) == 16 * (priority % 8)
  {
    assert Pow2(3) == 8 && Pow2(4) == 16;
    AndLowMask(priority, 3);
  }

  lemma WithPriorityIs(w: word, priority: nat)
    ensures Or(And(w, ENABLE), Prio(priority)) == 16 * (priority % 8) + w % 2
    ensures Or(ENABLE, Prio(priority)) == 16 * (priority % 8) + 1
  {
    PrioIs(priority);
    IsOnIs(w);
    OrCommutes(w % 2, Prio(priority));
    OrCommutes(ENABLE, Prio(priority));
    assert Pow2(4) == 16;
    OrAdds(priority % 8, w % 2, 4);
    OrAdds(priority % 8, ENABLE, 4);
  }

  /** Setting the bit sets it, absorbs an earlier set or clear, and does nothing twice. */
  lemma WordFacts(w: word)
    ensures IsOn(On(w)) && On(On(w)) == On(w) && On(Off(w)) == On(w)
    ensures IsOn(w) ==> On(w) == w
  {
    hide Or, And;
    OnIs(w);
    OffIs(w);
    OnIs(On(w));
    OnIs(Off(w));
    IsOnIs(w);
    IsOnIs(On(w));
  }

  lemma PriorityFacts(w: word, priority: nat)
    ensures On(WithPriority(w, priority)) == Configured(priority)
  {
    hide Or, And;
    WithPriorityIs(w, priority);
    OnIs(WithPriority(w, priority));
  }

  /** FPGA registers, enable pin, and the two static variables of the task file. */
  datatype Registers = Registers(control: word, mask: word, pinHigh: bool, enabled: bool, priority: nat)

  /** One reset in flight: its next step, the word it last read, and the priority it passes on. */
  datatype Reset = Reset(pc: nat, data: word, priority: nat)

  const LAST: nat := 16

  function Begin(): Reset { Reset(0, 0, 0) }

  datatype Outcome = Outcome(regs: Registers, reset: Reset)

  /** The sixteen steps of a reset.  `ok` is the result of the transfer where there is one: a
      failed read skips the write that depends on it, a failed write changes nothing, and the
      sequence carries on either way. */
  function Step(r: Registers, p: Reset, ok: bool): Outcome {
    var next := p.(pc := p.pc + 1);
    match p.pc
    // J1708_disable
    case 0 => Outcome(r.(pinHigh := true), next)
    case 1 => if ok then Outcome(r, next.(data := r.mask)) else Outcome(r, next.(pc := 3))
    case 2 => Outcome(if ok then r.(mask := Off(p.data)) else r, next)
    case 3 => if ok then Outcome(r, next.(data := r.control)) else Outcome(r, next.(pc := 5))
    case 4 => Outcome(if ok then r.(control := Off(p.data)) else r, next)
    case 5 => Outcome(r.(enabled := false), next)
    // J1708_enable (J1708_priority)
    case 6 => Outcome(r, next.(priority := r.priority))
    case 7 => if ok then Outcome(r, next.(data := r.mask)) else Outcome(r, next.(pc := 9))
    case 8 => Outcome(if ok then r.(mask := On(p.data)) else r, next)
    case 9 => if ok then Outcome(r, next.(data := r.control)) else Outcome(r, next.(pc := 11))
    case 10 => Outcome(if ok then r.(control := WithPriority(p.data, p.priority)) else r, next)
    case 11 => if ok then Outcome(r, next.(data := r.control)) else Outcome(r, next.(pc := 13))
    case 12 => Outcome(if ok then r.(control := On(p.data)) else r, next)
    case 13 => Outcome(r.(pinHigh := false), next)
    case 14 => Outcome(r.(enabled := true), next)
    case _ => Outcome(r.(priority := p.priority), next.(pc := LAST))
  }

  // ----- any number of resets

  datatype System = System(regs: Registers, inFlight: map<nat, Reset>, started: bool)

  datatype Action = Start(id: nat) | Run(id: nat, ok: bool)

  predicate Enabled(s: System, a: Action) {
    match a case Start(id) => id !in s.inFlight case Run(id, _) => id in s.inFlight
  }

  function After(s: System, a: Action): System
    requires Enabled(s, a)
  {
    match a
    case Start(id) => s.(inFlight := s.inFlight[id := Begin()], started := true)
    case Run(id, ok) =>
      var o := Step(s.regs, s.inFlight[id], ok);
      s.(regs := o.regs, inFlight := if o.reset.pc < LAST then s.inFlight[id := o.reset] else s.inFlight - {id})
  }

  /** The transfers that switch the link back on: setting the interrupt and the enable bit. */
  predicate SwitchesOn(pc: nat) { pc == 7 || pc == 8 || pc == 11 || pc == 12 }

  /** Failures are tolerated everywhere but in those transfers. */
  predicate Succeeds(s: System, a: Action)
    requires Enabled(s, a)
  {
    a.Run? && !a.ok ==> !SwitchesOn(s.inFlight[a.id].pc)
  }

  ghost predicate Pending(s: System, limit: nat) { exists id :: id in s.inFlight && s.inFlight[id].pc <= limit }

  /** Every reset in flight is within its sixteen steps. */
  ghost predicate Bounded(s: System) {
    (forall id | id in s.inFlight :: s.inFlight[id].pc < LAST) && (!s.started ==> s.inFlight == map[])
  }

  /** Whatever is off is going to be switched on by a reset that has not come to that yet. */
  ghost predicate WillBeOn(s: System) {
    && (!IsOn(s.regs.mask) ==> Pending(s, 8))
    && (!IsOn(s.regs.control) ==> Pending(s, 12))
  }

  ghost predicate WillBeActive(s: System) {
    (s.regs.pinHigh ==> Pending(s, 13)) && (!s.regs.enabled ==> Pending(s, 14))
  }

  /** Resets only ever touch bit 0 of the interrupt mask, and hand the priority on unchanged. */
  ghost predicate Preserves(s: System, mask0: word, priority0: nat) {
    && On(s.regs.mask) == On(mask0) && s.regs.priority == priority0
    && (forall id | id in s.inFlight :: ResetPreserves(s.inFlight[id], mask0, priority0))
  }

  predicate ResetPreserves(p: Reset, mask0: word, priority0: nat) {
    && (p.pc == 2 || p.pc == 8 ==> On(p.data) == On(mask0))
    && (7 <= p.pc ==> p.priority == priority0)
  }

  /** Up to the enable bit, a control word is the configured one or the one at the start. */
  predicate Known(word: word, control0: word, priority0: nat) {
    On(word) == On(control0) || On(word) == Configured(priority0)
  }

  ghost predicate ControlKnown(s: System, control0: word, priority0: nat) {
    && Known(s.regs.control, control0, priority0)
    && (forall id | id in s.inFlight :: ResetKnows(s.inFlight[id], control0, priority0))
  }

  predicate ResetKnows(p: Reset, control0: word, priority0: nat) {
    p.pc == 4 || p.pc == 10 || p.pc == 12 ==> Known(p.data, control0, priority0)
  }

  // ----- each step keeps each part

  lemma PendingKept(s: System, a: Action, limit: nat)
    requires Enabled(s, a) && Bounded(s) && Pending(s, limit) && limit < LAST - 1
    requires a.Run? ==> Step(s.regs, s.inFlight[a.id], a.ok).reset.pc <= limit || s.inFlight[a.id].pc > limit
    ensures Pending(After(s, a), limit)
  {
    var id :| id in s.inFlight && s.inFlight[id].pc <= limit;
    var t := After(s, a);
    assert id in t.inFlight && t.inFlight[id].pc <= limit;
  }

  lemma PendingMade(s: System, a: Action, limit: nat)
    requires Enabled(s, a) && limit < LAST - 1
    requires a.Run? ==> Step(s.regs, s.inFlight[a.id], a.ok).reset.pc <= limit
    ensures Pending(After(s, a), limit)
  {
    assert a.id in After(s, a).inFlight && After(s, a).inFlight[a.id].pc <= limit;
  }

  lemma BoundedKept(s: System, a: Action)
    requires Enabled(s, a) && Bounded(s)
    ensures Bounded(After(s, a))
  {}

  lemma WillBeOnKept(s: System, a: Action)
    requires Enabled(s, a) && Succeeds(s, a) && Bounded(s) && (s.started ==> WillBeOn(s))
    ensures WillBeOn(After(s, a))
  {
    if a.Start? {
      PendingMade(s, a, 8);
      PendingMade(s, a, 12);
    } else {
      if !IsOn(After(s, a).regs.mask) { MaskPending(s, a); }
      if !IsOn(After(s, a).regs.control) { ControlPending(s, a); }
    }
  }

  lemma MaskPending(s: System, a: Action)
    requires a.Run? && Enabled(s, a) && Succeeds(s, a) && Bounded(s) && WillBeOn(s)
    requires !IsOn(After(s, a).regs.mask)
    ensures Pending(After(s, a), 8)
  {
    hide On, Off, IsOn, WithPriority, Configured;
    var p := s.inFlight[a.id];
    WordFacts(p.data);
    if p.pc == 8 {
    } else if p.pc <= 7 {
      PendingMade(s, a, 8);
    } else {
      PendingKept(s, a, 8);
    }
  }

  lemma ControlPending(s: System, a: Action)
    requires a.Run? && Enabled(s, a) && Succeeds(s, a) && Bounded(s) && WillBeOn(s)
    requires !IsOn(After(s, a).regs.control)
    ensures Pending(After(s, a), 12)
  {
    hide On, Off, IsOn, WithPriority, Configured;
    var p := s.inFlight[a.id];
    WordFacts(p.data);
    if p.pc == 12 {
    } else if p.pc <= 11 {
      PendingMade(s, a, 12);
    } else {
      PendingKept(s, a, 12);
    }
  }

  lemma WillBeActiveKept(s: System, a: Action)
    requires Enabled(s, a) && Bounded(s) && (s.started ==> WillBeActive(s))
    ensures WillBeActive(After(s, a))
  {
    if a.Start? || s.inFlight[a.id].pc <= 12 {
      PendingMade(s, a, 13);
      PendingMade(s, a, 14);
    } else {
      var pc := s.inFlight[a.id].pc;
      if After(s, a).regs.pinHigh { PendingKept(s, a, 13); }
      if pc == 13 {
        PendingMade(s, a, 14);
      } else if !After(s, a).regs.enabled {
        PendingKept(s, a, 14);
      }
    }
  }

  lemma StepPreserves(r: Registers, p: Reset, ok: bool, mask0: word, priority0: nat)
    requires On(r.mask) == On(mask0) && r.priority == priority0 && ResetPreserves(p, mask0, priority0)
    ensures var o := Step(r, p, ok);
            On(o.regs.mask) == On(mask0) && o.regs.priority == priority0 && ResetPreserves(o.reset, mask0, priority0)
  {
    hide On, Off, WithPriority, Configured;
    WordFacts(p.data);
  }

  lemma PreservesKept(s: System, a: Action, mask0: word, priority0: nat)
    requires Enabled(s, a) && Bounded(s) && Preserves(s, mask0, priority0)
    ensures Preserves(After(s, a), mask0, priority0)
  {
    hide On, Step;
    if a.Run? {
      StepPreserves(s.regs, s.inFlight[a.id], a.ok, mask0, priority0);
    }
  }

  lemma StepKnows(r: Registers, p: Reset, ok: bool, mask0: word, control0: word, priority0: nat)
    requires Known(r.control, control0, priority0) && ResetKnows(p, control0, priority0)
    requires ResetPreserves(p, mask0, priority0)
    ensures var o := Step(r, p, ok);
            Known(o.regs.control, control0, priority0) && ResetKnows(o.reset, control0, priority0)
  {
    hide On, Off, WithPriority, Configured;
    WordFacts(p.data);
    PriorityFacts(p.data, p.priority);
  }

  lemma ControlKnownKept(s: System, a: Action, mask0: word, control0: word, priority0: nat)
    requires Enabled(s, a) && Bounded(s) && Preserves(s, mask0, priority0) && ControlKnown(s, control0, priority0)
    ensures ControlKnown(After(s, a), control0, priority0)
  {
    hide On, Step, Known;
    if a.Run? {
      StepKnows(s.regs, s.inFlight[a.id], a.ok, mask0, control0, priority0);
    }
  }

  // ----- runs

  function Idle(r: Registers): System { System(r, map[], false) }

  ghost predicate IsRun(r: Registers, actions: seq<Action>) {
    actions == [] ||
    (IsRun(r, actions[..|actions| - 1]) && Enabled(Exec(r, actions[..|actions| - 1]), actions[|actions| - 1]))
  }

  /** The state after a run; an action that is not enabled leaves it alone. */
  function Exec(r: Registers, actions: seq<Action>): System {
    if actions == [] then Idle(r)
    else
      var s, a := Exec(r, actions[..|actions| - 1]), actions[|actions| - 1];
      if Enabled(s, a) then After(s, a) else s
  }

  ghost predicate AllSucceed(r: Registers, actions: seq<Action>)
    requires IsRun(r, actions)
  {
    actions == [] ||
    (AllSucceed(r, actions[..|actions| - 1]) && Succeeds(Exec(r, actions[..|actions| - 1]), actions[|actions| - 1]))
  }

  lemma {:induction false} RunsAreSafe(r: Registers, actions: seq<Action>)
    requires IsRun(r, actions)
    ensures var s := Exec(r, actions);
            && Bounded(s) && (s.started ==> WillBeActive(s))
            && Preserves(s, r.mask, r.priority) && ControlKnown(s, r.control, r.priority)
            && (actions != [] ==> s.started)
  {
    if actions != [] {
      var s, a := Exec(r, actions[..|actions| - 1]), actions[|actions| - 1];
      RunsAreSafe(r, actions[..|actions| - 1]);
      BoundedKept(s, a);
      WillBeActiveKept(s, a);
      PreservesKept(s, a, r.mask, r.priority);
      ControlKnownKept(s, a, r.mask, r.control, r.priority);
    }
  }

  lemma {:induction false} RunsSwitchOn(r: Registers, actions: seq<Action>)
    requires IsRun(r, actions) && AllSucceed(r, actions)
    ensures Exec(r, actions).started ==> WillBeOn(Exec(r, actions))
  {
    if actions != [] {
      RunsAreSafe(r, actions[..|actions| - 1]);
      RunsSwitchOn(r, actions[..|actions| - 1]);
      WillBeOnKept(Exec(r, actions[..|actions| - 1]), actions[|actions| - 1]);
    }
  }

  /** Overlapping resets, whatever their transfers do: once none is in flight the pin is low
      and the state says enabled, and neither the other interrupt bits nor the stored priority
      have changed. */
  lemma QuietAfterResets(r: Registers, actions: seq<Action>)
    requires IsRun(r, actions) && actions != [] && Exec(r, actions).inFlight == map[]
    ensures var t := Exec(r, actions).regs;
            !t.pinHigh && t.enabled && t.priority == r.priority && On(t.mask) == On(r.mask)
  {
    RunsAreSafe(r, actions);
  }

  /** If moreover the transfers that switch the link on succeed, both enable bits are set, and
      the control word is the configured one or the initial one with the enable bit added. */
  lemma EnabledAfterResets(r: Registers, actions: seq<Action>)
    requires IsRun(r, actions) && AllSucceed(r, actions) && actions != [] && Exec(r, actions).inFlight == map[]
    ensures var t := Exec(r, actions).regs;
            && t.mask == On(r.mask) && IsOn(t.control)
            && (t.control == Configured(r.priority) || t.control == On(r.control))
  {
    hide On, Off, IsOn, WithPriority, Configured;
    RunsAreSafe(r, actions);
    RunsSwitchOn(r, actions);
    WordFacts(Exec(r, actions).regs.mask);
    WordFacts(Exec(r, actions).regs.control);
  }

  // ----- one reset on its own

  /** A reset that runs without interference; `oks[k]` is the result of the transfer of step `k`. */
  function Alone(r: Registers, p: Reset, oks: seq<bool>): Registers
    requires |oks| == LAST
    decreases LAST - p.pc
  {
    if p.pc >= LAST then r else var o := Step(r, p, oks[p.pc]); Alone(o.regs, o.reset, oks)
  }

  function MaskAfter(mask: word, oks: seq<bool>): word
    requires |oks| == LAST
  {
    var cleared := if oks[1] && oks[2] then Off(mask) else mask;
    if oks[7] && oks[8] then On(cleared) else cleared
  }

  function ControlAfter(control: word, priority: nat, oks: seq<bool>): word
    requires |oks| == LAST
  {
    var cleared := if oks[3] && oks[4] then Off(control) else control;
    var given := if oks[9] && oks[10] then WithPriority(cleared, priority) else cleared;
    if oks[11] && oks[12] then On(given) else given
  }

  lemma AloneDisables(r: Registers, oks: seq<bool>)
    requires |oks| == LAST
    ensures exists data ::
              Alone(r, Begin(), oks) ==
              Alone(r.(pinHigh := true, enabled := false,
                       mask := if oks[1] && oks[2] then Off(r.mask) else r.mask,
                       control := if oks[3] && oks[4] then Off(r.control) else r.control),
                    Reset(6, data, 0), oks)
  {
    hide On, Off, WithPriority;
    var r1 := r.(pinHigh := true);
    var r2 := r1.(mask := if oks[1] && oks[2] then Off(r.mask) else r.mask);
    var r3 := r2.(control := if oks[3] && oks[4] then Off(r.control) else r.control);
    var d1: word := if oks[1] then r.mask else 0;
    var d2: word := if oks[3] then r.control else d1;
    assert Alone(r, Begin(), oks) == Alone(r1, Reset(1, 0, 0), oks);
    assert Alone(r1, Reset(1, 0, 0), oks) == Alone(r2, Reset(3, d1, 0), oks);
    assert Alone(r2, Reset(3, d1, 0), oks) == Alone(r3, Reset(5, d2, 0), oks);
    assert Alone(r3, Reset(5, d2, 0), oks) == Alone(r3.(enabled := false), Reset(6, d2, 0), oks);
  }

  lemma AloneEnables(r: Registers, data: word, oks: seq<bool>)
    requires |oks| == LAST
    ensures Alone(r, Reset(6, data, 0), oks) ==
              var given := if oks[9] && oks[10] then WithPriority(r.control, r.priority) else r.control;
              r.(pinHigh := false, enabled := true,
                 mask := if oks[7] && oks[8] then On(r.mask) else r.mask,
                 control := if oks[11] && oks[12] then On(given) else given)
  {
    hide On, Off, WithPriority;
    var prio := r.priority;
    var r1 := r.(mask := if oks[7] && oks[8] then On(r.mask) else r.mask);
    var d1 := if oks[7] then r.mask else data;
    assert Alone(r, Reset(6, data, 0), oks) == Alone(r, Reset(7, data, prio), oks);
    assert Alone(r, Reset(7, data, prio), oks) == Alone(r1, Reset(9, d1, prio), oks);
    AloneSetsControl(r1, d1, prio, oks);
  }

  lemma AloneSetsControl(r: Registers, data: word, prio: nat, oks: seq<bool>)
    requires |oks| == LAST && r.priority == prio
    ensures Alone(r, Reset(9, data, prio), oks) ==
              var given := if oks[9] && oks[10] then WithPriority(r.control, prio) else r.control;
              r.(pinHigh := false, enabled := true, control := if oks[11] && oks[12] then On(given) else given)
  {
    hide On, Off, WithPriority;
    var r2 := r.(control := if oks[9] && oks[10] then WithPriority(r.control, prio) else r.control);
    var r3 := r2.(control := if oks[11] && oks[12] then On(r2.control) else r2.control);
    var d2 := if oks[9] then r.control else data;
    var d3 := if oks[11] then r2.control else d2;
    assert Alone(r, Reset(9, data, prio), oks) == Alone(r2, Reset(11, d2, prio), oks);
    assert Alone(r2, Reset(11, d2, prio), oks) == Alone(r3, Reset(13, d3, prio), oks);
    AloneFinishes(r3, d3, prio, oks);
  }

  lemma AloneFinishes(r: Registers, data: word, prio: nat, oks: seq<bool>)
    requires |oks| == LAST && r.priority == prio
    ensures Alone(r, Reset(13, data, prio), oks) == r.(pinHigh := false, enabled := true)
  {
    var r4 := r.(pinHigh := false);
    var r5 := r4.(enabled := true);
    assert Alone(r, Reset(13, data, prio), oks) == Alone(r4, Reset(14, data, prio), oks);
    assert Alone(r4, Reset(14, data, prio), oks) == Alone(r5, Reset(15, data, prio), oks);
    assert Alone(r5, Reset(15, data, prio), oks) == r5;
  }

  /** What one reset does to every register, for every pattern of transfer failures. */
  lemma AloneIs(r: Registers, oks: seq<bool>)
    requires |oks| == LAST
    ensures Alone(r, Begin(), oks)
         == Registers(ControlAfter(r.control, r.priority, oks), MaskAfter(r.mask, oks), false, true, r.priority)
  {
    hide On, Off, WithPriority;
    AloneDisables(r, oks);
    var r1 := r.(pinHigh := true, enabled := false,
                 mask := if oks[1] && oks[2] then Off(r.mask) else r.mask,
                 control := if oks[3] && oks[4] then Off(r.control) else r.control);
    var data :| Alone(r, Begin(), oks) == Alone(r1, Reset(6, data, 0), oks);
    AloneEnables(r1, data, oks);
  }

  /** The state always claims the link is enabled.  The enable bit and the interrupt bit are
      really set exactly when they were switched on successfully, or were on before and the
      attempt to clear them failed. */
  lemma EnabledAloneIff(r: Registers, oks: seq<bool>)
    requires |oks| == LAST
    ensures var t := Alone(r, Begin(), oks);
            && (IsOn(t.mask) <==> (oks[7] && oks[8]) || (IsOn(r.mask) && !(oks[1] && oks[2])))
            && (IsOn(t.control) <==> (oks[11] && oks[12]) || (IsOn(r.control) && !(oks[3] && oks[4])))
  {
    hide On, Off, WithPriority, IsOn;
    AloneIs(r, oks);
    FirstBits(r.mask, r.priority);
    FirstBits(Off(r.mask), r.priority);
    FirstBits(r.control, r.priority);
    FirstBits(Off(r.control), r.priority);
    FirstBits(WithPriority(r.control, r.priority), r.priority);
    FirstBits(WithPriority(Off(r.control), r.priority), r.priority);
  }

  lemma FirstBits(w: word, priority: nat)
    ensures IsOn(On(w)) && !IsOn(Off(w)) && (IsOn(WithPriority(w, priority)) <==> IsOn(w))
  {
    hide Or, And;
    OnIs(w);
    OffIs(w);
    IsOnIs(w);
    IsOnIs(On(w));
    IsOnIs(Off(w));
    WithPriorityIs(w, priority);
    IsOnIs(WithPriority(w, priority));
  }

  /** Resets that do not overlap leave the control register exactly as configured, whatever
      it held before. */
  lemma AloneConfigures(r: Registers, oks: seq<bool>)
    requires |oks| == LAST && oks[9] && oks[10] && oks[11] && oks[12]
    ensures Alone(r, Begin(), oks).control == Configured(r.priority)
  {
    hide On, Off, WithPriority, Configured;
    AloneIs(r, oks);
    PriorityFacts(r.control, r.priority);
    PriorityFacts(Off(r.control), r.priority);
  }

  /** A reset without interference up to step `limit`. */
  function AloneUntil(r: Registers, p: Reset, oks: seq<bool>, limit: nat): Outcome
    requires |oks| == LAST && limit <= LAST
    decreases LAST - p.pc
  {
    if p.pc >= limit then Outcome(r, p) else var o := Step(r, p, oks[p.pc]); AloneUntil(o.regs, o.reset, oks, limit)
  }

  /** The registers after each number of steps of a reset on its own. */
  function Trace(r: Registers, oks: seq<bool>, n: nat): Registers
    requires |oks| == LAST
  {
    var mask2: nat := if oks[1] && oks[2] then 2 * (r.mask / 2) else r.mask;
    var control4: nat := if oks[3] && oks[4] then 2 * (r.control / 2) else r.control;
    var mask8: nat := if oks[7] && oks[8] then 2 * (mask2 / 2) + 1 else mask2;
    var control10: nat := if oks[9] && oks[10] then 16 * (r.priority % 8) + control4 % 2 else control4;
    var control12: nat := if oks[11] && oks[12] then 2 * (control10 / 2) + 1 else control10;
    Registers(
      if n <= 4 then r.control else if n <= 10 then control4 else if n <= 12 then control10 else control12,
      if n <= 2 then r.mask else if n <= 8 then mask2 else mask8,
      if n == 0 then r.pinHigh else n <= 13,
      if n <= 5 then r.enabled else 14 < n,
      r.priority)
  }

  /** The pin is raised first and lowered after all transfers; the state says disabled when the
      disabling transfers are through, and enabled again at the end. */
  lemma ResetTrace(r: Registers, oks: seq<bool>, n: nat)
    requires |oks| == LAST && n <= LAST
    ensures AloneUntil(r, Begin(), oks, n).regs == Trace(r, oks, n)
  {
    hide On, Off, WithPriority;
    if n >= 1 {
      var r1 := r.(pinHigh := true);
      assert AloneUntil(r, Begin(), oks, n) == AloneUntil(r1, Reset(1, 0, 0), oks, n);
      TraceTransfer(r1, Reset(1, 0, 0), oks, n);
      if n >= 3 { TraceFromThree(r, oks, n); }
    }
  }

  /** One transfer pair of a reset on its own: what it leaves, and where it goes on. */
  lemma TraceTransfer(r: Registers, p: Reset, oks: seq<bool>, n: nat)
    requires |oks| == LAST && n <= LAST && (p.pc == 1 || p.pc == 3 || p.pc == 7 || p.pc == 9 || p.pc == 11)
    ensures n <= p.pc + 1 ==> AloneUntil(r, p, oks, n).regs == r
    ensures n >= p.pc + 2 ==> AloneUntil(r, p, oks, n) == AloneUntil(AfterTransfer(r, p, oks), Skip(r, p, oks), oks, n)
  {
    hide On, Off, WithPriority;
    MeansOf(if p.pc == 1 || p.pc == 7 then r.mask else r.control, p.priority);
    var o := Step(r, p, oks[p.pc]);
    assert AloneUntil(r, p, oks, n) == if p.pc >= n then Outcome(r, p) else AloneUntil(o.regs, o.reset, oks, n);
    if oks[p.pc] && p.pc + 1 < n {
      var o2 := Step(o.regs, o.reset, oks[p.pc + 1]);
      assert AloneUntil(o.regs, o.reset, oks, n) == AloneUntil(o2.regs, o2.reset, oks, n);
    }
  }

  function AfterTransfer(r: Registers, p: Reset, oks: seq<bool>): Registers
    requires |oks| == LAST && p.pc < LAST - 1
  {
    if !(oks[p.pc] && oks[p.pc + 1]) then r
    else if p.pc == 1 then r.(mask := Off(r.mask))
    else if p.pc == 3 then r.(control := Off(r.control))
    else if p.pc == 7 then r.(mask := On(r.mask))
    else if p.pc == 9 then r.(control := WithPriority(r.control, p.priority))
    else r.(control := On(r.control))
  }

  function Skip(r: Registers, p: Reset, oks: seq<bool>): Reset
    requires |oks| == LAST && p.pc < LAST
  {
    Reset(p.pc + 2, if !oks[p.pc] then p.data else if p.pc == 1 || p.pc == 7 then r.mask else r.control, p.priority)
  }

  lemma MeansOf(w: word, priority: nat)
    ensures Off(w) == 2 * (w / 2) && On(w) == 2 * (w / 2) + 1 && WithPriority(w, priority) == 16 * (priority % 8) + w % 2
  {
    OffMeans(w);
    OnMeans(w);
    WithPriorityMeans(w, priority);
  }

  lemma TraceFromThree(r: Registers, oks: seq<bool>, n: nat)
    requires |oks| == LAST && 3 <= n <= LAST
    ensures AloneUntil(r, Begin(), oks, n).regs == Trace(r, oks, n)
  {
    hide On, Off, WithPriority;
    var r1 := r.(pinHigh := true);
    var p1 := Reset(1, 0, 0);
    assert AloneUntil(r, Begin(), oks, n) == AloneUntil(r1, p1, oks, n);
    TraceTransfer(r1, p1, oks, n);
    MeansOf(r.mask, 0);
    MeansOf(r.control, 0);
    var r3, p3 := AfterTransfer(r1, p1, oks), Skip(r1, p1, oks);
    TraceTransfer(r3, p3, oks, n);
    if n >= 5 {
      var r5, p5 := AfterTransfer(r3, p3, oks), Skip(r3, p3, oks);
      if n >= 6 {
        var r6 := r5.(enabled := false);
        assert AloneUntil(r5, p5, oks, n) == AloneUntil(r6, p5.(pc := 6), oks, n);
        TraceFromSix(r, r6, p5.data, oks, n);
      }
    }
  }

  lemma TraceFromSix(r: Registers, r6: Registers, data: word, oks: seq<bool>, n: nat)
    requires |oks| == LAST && 6 <= n <= LAST && r6 == Trace(r, oks, 6)
    ensures AloneUntil(r6, Reset(6, data, 0), oks, n).regs == Trace(r, oks, n)
  {
    hide On, Off, WithPriority;
    if n >= 7 {
      var p7 := Reset(7, data, r.priority);
      assert AloneUntil(r6, Reset(6, data, 0), oks, n) == AloneUntil(r6, p7, oks, n);
      TraceTransfer(r6, p7, oks, n);
      MeansOf(r6.mask, 0);
      if n >= 9 {
        var r9, p9 := AfterTransfer(r6, p7, oks), Skip(r6, p7, oks);
        TraceFromNine(r, r9, p9.data, oks, n);
      }
    }
  }

  lemma TraceFromNine(r: Registers, r9: Registers, data: word, oks: seq<bool>, n: nat)
    requires |oks| == LAST && 9 <= n <= LAST && r9 == Trace(r, oks, 9)
    ensures AloneUntil(r9, Reset(9, data, r.priority), oks, n).regs == Trace(r, oks, n)
  {
    hide On, Off, WithPriority;
    var p9 := Reset(9, data, r.priority);
    TraceTransfer(r9, p9, oks, n);
    MeansOf(r9.control, r.priority);
    if n >= 11 {
      var r11, p11 := AfterTransfer(r9, p9, oks), Skip(r9, p9, oks);
      TraceTransfer(r11, p11, oks, n);
      MeansOf(r11.control, r.priority);
      if n >= 13 {
        var r13, p13 := AfterTransfer(r11, p11, oks), Skip(r11, p11, oks);
        TraceFromThirteen(r, r13, p13.data, oks, n);
      }
    }
  }

  lemma TraceFromThirteen(r: Registers, r13: Registers, data: word, oks: seq<bool>, n: nat)
    requires |oks| == LAST && 13 <= n <= LAST && r13 == Trace(r, oks, 13)
    ensures AloneUntil(r13, Reset(13, data, r.priority), oks, n).regs == Trace(r, oks, n)
  {
    hide On, Off, WithPriority;
    var p := Reset(13, data, r.priority);
    if n >= 14 {
      var r14 := r13.(pinHigh := false);
      assert AloneUntil(r13, p, oks, n) == AloneUntil(r14, p.(pc := 14), oks, n);
      if n >= 15 {
        var r15 := r14.(enabled := true);
        assert AloneUntil(r14, p.(pc := 14), oks, n) == AloneUntil(r15, p.(pc := 15), oks, n);
        if n == LAST { assert AloneUntil(r15, p.(pc := 15), oks, n) == AloneUntil(r15, p.(pc := LAST), oks, n); }
      }
    }
  }

  lemma OffMeans(w: word)
    ensures Off(w) == 2 * (w / 2)
  {
    OffIs(w);
  }

  lemma OnMeans(w: word)
    ensures On(w) == 2 * (w / 2) + 1
  {
    OnIs(w);
  }

  lemma WithPriorityMeans(w: word, priority: nat)
    ensures WithPriority(w, priority) == 16 * (priority % 8) + w % 2
  {
    WithPriorityIs(w, priority);
  }

  lemma {:induction false} AloneGoesOn(r: Registers, p: Reset, oks: seq<bool>, limit: nat)
    requires |oks| == LAST && limit <= LAST
    ensures var o := AloneUntil(r, p, oks, limit); Alone(r, p, oks) == Alone(o.regs, o.reset, oks)
    decreases LAST - p.pc
  {
    hide Step;
    if p.pc < limit {
      StepAdvances(r, p, oks[p.pc]);
      var o := Step(r, p, oks[p.pc]);
      AloneGoesOn(o.regs, o.reset, oks, limit);
    }
  }

  lemma StepAdvances(r: Registers, p: Reset, ok: bool)
    requires p.pc < LAST
    ensures p.pc < Step(r, p, ok).reset.pc <= LAST
  {}

  // ----- what each transfer of a run does

  /** No action from `i` up to `j` is of this reset. */
  ghost predicate Rests(actions: seq<Action>, id: nat, i: nat, j: nat)
    requires j <= |actions|
  {
    forall k | i <= k < j :: actions[k].id != id
  }

  lemma {:induction false} RunPrefix(r: Registers, actions: seq<Action>, k: nat)
    requires IsRun(r, actions) && k <= |actions|
    ensures IsRun(r, actions[..k])
  {
    if k < |actions| {
      RunPrefix(r, actions[..|actions| - 1], k);
      assert actions[..|actions| - 1][..k] == actions[..k];
    } else {
      assert actions[..k] == actions;
    }
  }

  lemma StepAt(r: Registers, actions: seq<Action>, k: nat)
    requires IsRun(r, actions) && k < |actions|
    ensures Enabled(Exec(r, actions[..k]), actions[k])
    ensures Exec(r, actions[..k + 1]) == After(Exec(r, actions[..k]), actions[k])
    ensures Bounded(Exec(r, actions[..k])) && Preserves(Exec(r, actions[..k]), r.mask, r.priority)
  {
    hide After, Enabled, Bounded, Preserves;
    RunPrefix(r, actions, k);
    RunPrefix(r, actions, k + 1);
    assert actions[..k + 1][..k] == actions[..k];
    RunsAreSafe(r, actions[..k]);
  }

  /** A reset that takes no step stays where it is. */
  lemma {:induction false} ResetWaits(r: Registers, actions: seq<Action>, id: nat, i: nat, j: nat)
    requires IsRun(r, actions) && i <= j <= |actions| && Rests(actions, id, i, j)
    requires id in Exec(r, actions[..i]).inFlight
    ensures id in Exec(r, actions[..j]).inFlight
    ensures Exec(r, actions[..j]).inFlight[id] == Exec(r, actions[..i]).inFlight[id]
    decreases j
  {
    hide Exec, IsRun, Step;
    if i < j {
      ResetWaits(r, actions, id, i, j - 1);
      StepAt(r, actions, j - 1);
    }
  }

  /** However resets overlap: a transfer that writes puts into the register what its reset has
      made of the word that the register held when that reset last read it, and changes nothing
      else.  Off clears bit 0, on sets it, and the priority keeps it and replaces the rest. */
  lemma WritesWhatItRead(r: Registers, actions: seq<Action>, id: nat, i: nat, j: nat)
    requires IsRun(r, actions) && i < j < |actions| && Rests(actions, id, i + 1, j)
    requires actions[i] == Run(id, true) && actions[j] == Run(id, true)
    ensures id in Exec(r, actions[..i]).inFlight
    ensures var s, before, after := Exec(r, actions[..i]), Exec(r, actions[..j]).regs, Exec(r, actions[..j + 1]).regs;
            var pc, mask, control := s.inFlight[id].pc, s.regs.mask, s.regs.control;
            && (pc == 1 ==> after == before.(mask := 2 * (mask / 2)))
            && (pc == 3 ==> after == before.(control := 2 * (control / 2)))
            && (pc == 7 ==> after == before.(mask := 2 * (mask / 2) + 1))
            && (pc == 9 ==> after == before.(control := 16 * (r.priority % 8) + control % 2))
            && (pc == 11 ==> after == before.(control := 2 * (control / 2) + 1))
  {
    hide Exec, IsRun, Bounded, Preserves, On, Off, WithPriority;
    StepAt(r, actions, i);
    StepAt(r, actions, j);
    var s, t := Exec(r, actions[..i]), Exec(r, actions[..j]);
    var p := s.inFlight[id];
    if p.pc == 1 || p.pc == 3 || p.pc == 7 || p.pc == 9 || p.pc == 11 {
      ResetWaits(r, actions, id, i + 1, j);
      if p.pc == 9 { PriorityIsKept(s, id, r.mask, r.priority); }
      var word := if p.pc == 1 || p.pc == 7 then s.regs.mask else s.regs.control;
      assert t.inFlight[id] == p.(pc := p.pc + 1, data := word);
      OffMeans(word);
      OnMeans(word);
      WithPriorityMeans(word, p.priority);
    }
  }

  lemma PriorityIsKept(s: System, id: nat, mask0: word, priority0: nat)
    requires Preserves(s, mask0, priority0) && id in s.inFlight && 7 <= s.inFlight[id].pc
    ensures s.inFlight[id].priority == priority0
  {
    assert ResetPreserves(s.inFlight[id], mask0, priority0);
  }

  /** A transfer that fails changes no register; after a failed read the reset leaves out the
      write that goes with it. */
  lemma FailureLeavesOut(r: Registers, actions: seq<Action>, id: nat, i: nat)
    requires IsRun(r, actions) && i < |actions| && actions[i] == Run(id, false)
    ensures id in Exec(r, actions[..i]).inFlight
    ensures var s, t := Exec(r, actions[..i]), Exec(r, actions[..i + 1]);
            var pc := s.inFlight[id].pc;
            && (pc in {1, 3, 7, 9, 11} ==> t.regs == s.regs && id in t.inFlight && t.inFlight[id].pc == pc + 2)
            && (pc in {2, 4, 8, 10, 12} ==> t.regs == s.regs && id in t.inFlight && t.inFlight[id].pc == pc + 1)
  {
    hide Exec, IsRun, Preserves, On, Off, WithPriority;
    StepAt(r, actions, i);
  }

  // ----- resets that do not overlap

  /** Every reset starts when the one before it is over. */
  ghost predicate Apart(r: Registers, actions: seq<Action>) {
    actions == [] ||
    (Apart(r, actions[..|actions| - 1])
     && (actions[|actions| - 1].Start? ==> Exec(r, actions[..|actions| - 1]).inFlight == map[]))
  }

  /** The transfers that write priority and enable bit succeed. */
  predicate Configures(s: System, a: Action)
    requires Enabled(s, a)
  {
    a.Run? && !a.ok ==> !(9 <= s.inFlight[a.id].pc <= 12)
  }

  ghost predicate AllConfigure(r: Registers, actions: seq<Action>)
    requires IsRun(r, actions)
  {
    actions == [] ||
    (AllConfigure(r, actions[..|actions| - 1]) && Configures(Exec(r, actions[..|actions| - 1]), actions[|actions| - 1]))
  }

  /** How far a reset has got with the control register. */
  predicate Progress(control: word, p: Reset, priority0: nat) {
    && (7 <= p.pc ==> p.priority == priority0)
    && (p.pc == 11 ==> On(control) == Configured(priority0))
    && (p.pc == 12 ==> On(p.data) == Configured(priority0))
    && (13 <= p.pc ==> control == Configured(priority0))
  }

  ghost predicate OneAtATime(s: System, priority0: nat) {
    && (forall i, j | i in s.inFlight && j in s.inFlight :: i == j)
    && (forall i | i in s.inFlight :: Progress(s.regs.control, s.inFlight[i], priority0))
    && (s.started && s.inFlight == map[] ==> s.regs.control == Configured(priority0))
  }

  lemma StepProgresses(r: Registers, p: Reset, ok: bool, priority0: nat)
    requires r.priority == priority0 && p.pc < LAST && Progress(r.control, p, priority0)
    requires !ok ==> !(9 <= p.pc <= 12)
    ensures var o := Step(r, p, ok); Progress(o.regs.control, o.reset, priority0)
    ensures var o := Step(r, p, ok); LAST <= o.reset.pc ==> o.regs.control == Configured(priority0)
  {
    hide On, Off, WithPriority, Configured;
    WordFacts(p.data);
    PriorityFacts(p.data, p.priority);
  }

  lemma OneAtATimeKept(s: System, a: Action, priority0: nat)
    requires Enabled(s, a) && Configures(s, a) && Bounded(s) && OneAtATime(s, priority0) && s.regs.priority == priority0
    requires a.Start? ==> s.inFlight == map[]
    requires a.Run? ==> s.started
    ensures OneAtATime(After(s, a), priority0)
  {
    hide Step, Progress, Configured;
    match a
    case Start(id) => BeginProgresses(s.regs.control, priority0);
    case Run(id, ok) => StepAlonesProgress(s, id, ok, priority0);
  }

  lemma BeginProgresses(control: word, priority0: nat)
    ensures Progress(control, Begin(), priority0)
  {}

  lemma StepAlonesProgress(s: System, id: nat, ok: bool, priority0: nat)
    requires id in s.inFlight && Bounded(s) && OneAtATime(s, priority0) && s.regs.priority == priority0
    requires Configures(s, Run(id, ok))
    ensures OneAtATime(After(s, Run(id, ok)), priority0)
  {
    hide Step, Progress, Configured;
    StepProgresses(s.regs, s.inFlight[id], ok, priority0);
    var t := After(s, Run(id, ok));
    assert forall i | i in t.inFlight :: i == id;
  }

  lemma {:induction false} RunsOneAtATime(r: Registers, actions: seq<Action>)
    requires IsRun(r, actions) && Apart(r, actions) && AllConfigure(r, actions)
    ensures OneAtATime(Exec(r, actions), r.priority)
  {
    hide Progress, Configured, After, Enabled, Configures;
    if actions != [] {
      var before := actions[..|actions| - 1];
      RunsOneAtATime(r, before);
      RunsAreSafe(r, before);
      var s, a := Exec(r, before), actions[|actions| - 1];
      StartedWhenRunning(s, a);
      OneAtATimeKept(s, a, r.priority);
    }
  }

  lemma StartedWhenRunning(s: System, a: Action)
    requires Bounded(s) && Enabled(s, a)
    ensures a.Run? ==> s.started
  {}

  /** Any number of resets that do not overlap, from whatever control word: if the transfers
      that write it succeed, it ends as exactly the configured one. */
  lemma ApartEndsConfigured(r: Registers, actions: seq<Action>)
    requires IsRun(r, actions) && Apart(r, actions) && AllConfigure(r, actions)
    requires actions != [] && Exec(r, actions).inFlight == map[]
    ensures Exec(r, actions).regs.control == Configured(r.priority)
  {
    hide Configured;
    RunsOneAtATime(r, actions);
    RunsAreSafe(r, actions);
  }

  // ----- overlapping resets can lose the configuration

  /** `n` undisturbed, successful steps of one reset. */
  function Solo(r: Registers, p: Reset, n: nat): Outcome {
    if n == 0 then Outcome(r, p) else var o := Solo(r, p, n - 1); Step(o.regs, o.reset, true)
  }

  function Turns(id: nat, n: nat): seq<Action> {
    if n == 0 then [] else Turns(id, n - 1) + [Run(id, true)]
  }

  lemma {:induction false} SoloAdvances(r: Registers, p: Reset, n: nat)
    requires p.pc + n <= LAST
    ensures Solo(r, p, n).reset.pc == p.pc + n
  {
    if n > 0 { SoloAdvances(r, p, n - 1); }
  }

  /** One more action at the end of a run. */
  lemma Extend(r: Registers, actions: seq<Action>, a: Action)
    requires IsRun(r, actions) && AllSucceed(r, actions)
    requires Enabled(Exec(r, actions), a) && Succeeds(Exec(r, actions), a)
    ensures IsRun(r, actions + [a]) && AllSucceed(r, actions + [a])
    ensures Exec(r, actions + [a]) == After(Exec(r, actions), a)
  {
    hide After, Succeeds, Enabled;
    var all := actions + [a];
    assert all[..|all| - 1] == actions && all[|all| - 1] == a;
  }

  /** The system after `n` turns of one reset. */
  ghost predicate TurnsTaken(s: System, t: System, id: nat, n: nat)
    requires id in s.inFlight
  {
    var o := Solo(s.regs, s.inFlight[id], n);
    && t.regs == o.regs && t.started == s.started
    && t.inFlight == if o.reset.pc < LAST then s.inFlight[id := o.reset] else s.inFlight - {id}
  }

  lemma OneMoreTurn(s: System, t: System, id: nat, n: nat)
    requires id in s.inFlight && TurnsTaken(s, t, id, n) && Solo(s.regs, s.inFlight[id], n).reset.pc < LAST
    ensures id in t.inFlight && TurnsTaken(s, After(t, Run(id, true)), id, n + 1)
  {
    hide Step;
  }

  /** Letting one reset take `n` turns at the end of a run. */
  lemma {:induction false} TakeTurns(r: Registers, actions: seq<Action>, id: nat, n: nat)
    requires IsRun(r, actions) && AllSucceed(r, actions) && id in Exec(r, actions).inFlight
    requires Exec(r, actions).inFlight[id].pc < LAST && Exec(r, actions).inFlight[id].pc + n <= LAST
    ensures IsRun(r, actions + Turns(id, n)) && AllSucceed(r, actions + Turns(id, n))
    ensures TurnsTaken(Exec(r, actions), Exec(r, actions + Turns(id, n)), id, n)
  {
    hide After, Step, TurnsTaken;
    var s := Exec(r, actions);
    if n == 0 {
      assert actions + Turns(id, 0) == actions;
      NoTurns(s, id);
    } else {
      TakeTurns(r, actions, id, n - 1);
      SoloAdvances(s.regs, s.inFlight[id], n - 1);
      var before := actions + Turns(id, n - 1);
      assert actions + Turns(id, n) == before + [Run(id, true)];
      OneMoreTurn(s, Exec(r, before), id, n - 1);
      Extend(r, before, Run(id, true));
    }
  }

  lemma NoTurns(s: System, id: nat)
    requires id in s.inFlight && s.inFlight[id].pc < LAST
    ensures TurnsTaken(s, s, id, 0)
  {
    assert s.inFlight[id := s.inFlight[id]] == s.inFlight;
  }

  lemma StartOne(r: Registers, actions: seq<Action>, id: nat)
    requires IsRun(r, actions) && AllSucceed(r, actions) && id !in Exec(r, actions).inFlight
    ensures var s := Exec(r, actions);
            && IsRun(r, actions + [Start(id)]) && AllSucceed(r, actions + [Start(id)])
            && Exec(r, actions + [Start(id)]) == System(s.regs, s.inFlight[id := Begin()], true)
  {
    Extend(r, actions, Start(id));
  }

  lemma SoloDisable(r: Registers)
    ensures Solo(r, Begin(), 4) == Outcome(r.(pinHigh := true, mask := Off(r.mask)), Reset(4, r.control, 0))
  {
    hide On, Off, WithPriority;
    var r1 := r.(pinHigh := true);
    assert Solo(r, Begin(), 1) == Outcome(r1, Reset(1, 0, 0)) by { assert Solo(r, Begin(), 0) == Outcome(r, Begin()); }
    assert Solo(r, Begin(), 2) == Outcome(r1, Reset(2, r.mask, 0));
    assert Solo(r, Begin(), 3) == Outcome(r1.(mask := Off(r.mask)), Reset(3, r.mask, 0));
  }

  /** From the middle of the disabling half to just before the last enable. */
  lemma SoloToLastEnable(r: Registers, control: word)
    ensures Solo(r, Reset(4, control, 0), 7) ==
              Outcome(r.(control := WithPriority(Off(control), r.priority), enabled := false, mask := On(r.mask)),
                      Reset(11, Off(control), r.priority))
  {
    hide On, Off, WithPriority;
    var p := Reset(4, control, 0);
    var r1 := r.(control := Off(control));
    var r2 := r1.(enabled := false);
    var r3 := r2.(mask := On(r.mask));
    assert Solo(r, p, 1) == Outcome(r1, p.(pc := 5)) by { assert Solo(r, p, 0) == Outcome(r, p); }
    assert Solo(r, p, 2) == Outcome(r2, p.(pc := 6));
    assert Solo(r, p, 3) == Outcome(r2, Reset(7, control, r.priority));
    assert Solo(r, p, 4) == Outcome(r2, Reset(8, r.mask, r.priority));
    assert Solo(r, p, 5) == Outcome(r3, Reset(9, r.mask, r.priority));
    assert Solo(r, p, 6) == Outcome(r3, Reset(10, Off(control), r.priority));
  }

  lemma SoloFinish(r: Registers, p: Reset)
    requires p.pc == 12
    ensures Solo(r, p, 4).regs.control == On(p.data) && Solo(r, p, 4).reset.pc == LAST
  {
    hide On, Off, WithPriority;
    var r1 := r.(control := On(p.data));
    assert Solo(r, p, 1) == Outcome(r1, p.(pc := 13)) by { assert Solo(r, p, 0) == Outcome(r, p); }
    assert Solo(r, p, 2) == Outcome(r1.(pinHigh := false), p.(pc := 14));
    assert Solo(r, p, 3) == Outcome(r1.(pinHigh := false, enabled := true), p.(pc := 15));
  }

  lemma SoloOne(r: Registers, p: Reset)
    ensures p.pc == 4 ==> Solo(r, p, 1) == Outcome(r.(control := Off(p.data)), p.(pc := 5))
    ensures p.pc == 11 ==> Solo(r, p, 1) == Outcome(r, p.(pc := 12, data := r.control))
  {
    hide On, Off, WithPriority;
    assert Solo(r, p, 0) == Outcome(r, p);
  }

  ghost predicate Reaches(r: Registers, actions: seq<Action>, regs: Registers, inFlight: map<nat, Reset>) {
    IsRun(r, actions) && AllSucceed(r, actions) && Exec(r, actions) == System(regs, inFlight, true)
  }

  lemma FirstStart(r: Registers, id: nat)
    ensures Reaches(r, [Start(id)], r, map[id := Begin()])
  {
    StartOne(r, [], id);
    assert [] + [Start(id)] == [Start(id)];
  }

  lemma NextStart(r: Registers, actions: seq<Action>, regs: Registers, m: map<nat, Reset>, id: nat)
    requires Reaches(r, actions, regs, m) && id !in m
    ensures Reaches(r, actions + [Start(id)], regs, m[id := Begin()])
  {
    StartOne(r, actions, id);
  }

  lemma NextTurns(r: Registers, actions: seq<Action>, regs: Registers, m: map<nat, Reset>, id: nat, n: nat)
    requires Reaches(r, actions, regs, m) && id in m && m[id].pc < LAST && m[id].pc + n <= LAST
    ensures var o := Solo(regs, m[id], n);
            Reaches(r, actions + Turns(id, n), o.regs, if m[id].pc + n < LAST then m[id := o.reset] else m - {id})
  {
    hide Solo;
    TakeTurns(r, actions, id, n);
    SoloAdvances(regs, m[id], n);
  }

  /** Every transfer succeeds. */
  ghost predicate NoFailure(actions: seq<Action>) {
    forall k | 0 <= k < |actions| && actions[k].Run? :: actions[k].ok
  }

  lemma {:induction false} NoFailureSucceeds(r: Registers, actions: seq<Action>)
    requires IsRun(r, actions) && NoFailure(actions)
    ensures AllSucceed(r, actions)
  {
    if actions != [] {
      var before := actions[..|actions| - 1];
      assert forall k | 0 <= k < |before| :: before[k] == actions[k];
      NoFailureSucceeds(r, before);
    }
  }

  lemma {:induction false} TurnsAt(id: nat, n: nat)
    ensures |Turns(id, n)| == n && forall k | 0 <= k < n :: Turns(id, n)[k] == Run(id, true)
  {
    if n > 0 { TurnsAt(id, n - 1); }
  }

  /** Two resets and no failure: reset 0 starts first, reset 1 five actions later. */
  ghost predicate TwoResets(actions: seq<Action>) {
    && NoFailure(actions) && 5 < |actions|
    && actions[0] == Start(0) && actions[5] == Start(1)
    && forall k | 0 <= k < |actions| && k != 0 && k != 5 :: actions[k].Run?
  }

  lemma StillTwoResets(actions: seq<Action>, id: nat, n: nat)
    requires TwoResets(actions)
    ensures TwoResets(actions + Turns(id, n)) && (actions + Turns(id, n))[..5] == actions[..5]
  {
    TurnsAt(id, n);
  }

  lemma SecondStarts()
    ensures TwoResets([Start(0)] + Turns(0, 4) + [Start(1)])
    ensures ([Start(0)] + Turns(0, 4) + [Start(1)])[..5] == [Start(0)] + Turns(0, 4)
  {
    TurnsAt(0, 4);
  }

  /** Two resets without a single failure, the second started while the first is in flight,
      after which the control register holds its initial word again: the second reset's
      configuration is overwritten by a word the first one read before it. */
  lemma StaleWordWins(r: Registers) returns (actions: seq<Action>)
    ensures IsRun(r, actions) && TwoResets(actions) && 0 in Exec(r, actions[..5]).inFlight
    ensures Exec(r, actions).inFlight == map[] && Exec(r, actions).regs.control == On(r.control)
  {
    hide On, Off, WithPriority, Step, Solo, Turns, Reaches, TwoResets;
    // The first reset disables the link up to its write of the control register.
    FirstStart(r, 0);
    var a1 := [Start(0)];
    NextTurns(r, a1, r, map[0 := Begin()], 0, 4);
    SoloDisable(r);
    var r1, first := r.(pinHigh := true, mask := Off(r.mask)), Reset(4, r.control, 0);
    var a2 := a1 + Turns(0, 4);
    assert map[0 := Begin()][0 := first] == map[0 := first];
    // The second runs up to its last enable.
    NextStart(r, a2, r1, map[0 := first], 1);
    var a3 := a2 + [Start(1)];
    SecondStarts();
    ReachesMeans(r, a2, r1, map[0 := first]);
    var m3 := map[0 := first][1 := Begin()];
    NextTurns(r, a3, r1, m3, 1, 4);
    SoloDisable(r1);
    var r2 := r1.(mask := Off(r1.mask));
    var a4, m4 := a3 + Turns(1, 4), m3[1 := first];
    NextTurns(r, a4, r2, m4, 1, 7);
    SoloToLastEnable(r2, r.control);
    var second := Reset(11, Off(r.control), r.priority);
    var r3 := r2.(control := WithPriority(Off(r.control), r.priority), enabled := false, mask := On(r2.mask));
    var a5, m5 := a4 + Turns(1, 7), m4[1 := second];
    // The first writes its stale word, and the second reads it back for its last enable.
    NextTurns(r, a5, r3, m5, 0, 1);
    SoloOne(r3, first);
    var r4, later := r3.(control := Off(r.control)), first.(pc := 5);
    var a6, m6 := a5 + Turns(0, 1), m5[0 := later];
    NextTurns(r, a6, r4, m6, 1, 1);
    SoloOne(r4, second);
    var last := second.(pc := 12, data := Off(r.control));
    var a7, m7 := a6 + Turns(1, 1), m6[1 := last];
    // The first finishes, then the second.
    NextTurns(r, a7, r4, m7, 0, 11);
    var r5 := Solo(r4, later, 11).regs;
    var a8, m8 := a7 + Turns(0, 11), m7 - {0};
    NextTurns(r, a8, r5, m8, 1, 4);
    SoloFinish(r5, last);
    WordFacts(r.control);
    actions := a8 + Turns(1, 4);
    assert m8 - {1} == map[];
    StillTwoResets(a3, 1, 4);
    StillTwoResets(a4, 1, 7);
    StillTwoResets(a5, 0, 1);
    StillTwoResets(a6, 1, 1);
    StillTwoResets(a7, 0, 11);
    StillTwoResets(a8, 1, 4);
    ReachesMeans(r, actions, Solo(r5, last, 4).regs, map[]);
  }

  /** From the middle of the disabling half to just before the priority is written. */
  lemma SoloToPriority(r: Registers, control: word)
    ensures Solo(r, Reset(4, control, 0), 5) ==
              Outcome(r.(control := Off(control), enabled := false, mask := On(r.mask)), Reset(9, r.mask, r.priority))
  {
    hide On, Off, WithPriority;
    var p := Reset(4, control, 0);
    var r1 := r.(control := Off(control));
    var r2 := r1.(enabled := false);
    assert Solo(r, p, 1) == Outcome(r1, p.(pc := 5)) by { assert Solo(r, p, 0) == Outcome(r, p); }
    assert Solo(r, p, 2) == Outcome(r2, p.(pc := 6));
    assert Solo(r, p, 3) == Outcome(r2, Reset(7, control, r.priority));
    assert Solo(r, p, 4) == Outcome(r2, Reset(8, r.mask, r.priority));
  }

  lemma SoloReadsControl(r: Registers, p: Reset)
    requires p.pc == 9
    ensures Solo(r, p, 1) == Outcome(r, p.(pc := 10, data := r.control))
  {
    assert Solo(r, p, 0) == Outcome(r, p);
  }

  lemma SoloEnables(r: Registers, p: Reset)
    requires p.pc == 11
    ensures Solo(r, p, 2) == Outcome(r.(control := On(r.control)), p.(pc := 13, data := r.control))
  {
    hide On, Off, WithPriority;
    assert Solo(r, p, 1) == Outcome(r, p.(pc := 12, data := r.control)) by { assert Solo(r, p, 0) == Outcome(r, p); }
  }

  /** Two resets without a failure in which one, about to write the priority, turns off the link
      that the other has just enabled. */
  lemma PriorityWriteTurnsOff(r: Registers) returns (actions: seq<Action>)
    ensures IsRun(r, actions + [Run(0, true)]) && NoFailure(actions + [Run(0, true)])
    ensures var s := Exec(r, actions);
            && s.inFlight.Keys == {0, 1} && s.inFlight[0].pc == 10 && s.inFlight[1].pc == 13
            && s.regs.control % 2 == 1 && Exec(r, actions + [Run(0, true)]).regs.control % 2 == 0
  {
    hide On, Off, WithPriority, Step, Solo, Turns, Reaches, NoFailure;
    // The first reset runs up to its read of the control register.
    FirstStart(r, 0);
    var a1 := [Start(0)];
    NextTurns(r, a1, r, map[0 := Begin()], 0, 4);
    SoloDisable(r);
    var r1, half := r.(pinHigh := true, mask := Off(r.mask)), Reset(4, r.control, 0);
    var a2 := a1 + Turns(0, 4);
    assert map[0 := Begin()][0 := half] == map[0 := half];
    NextTurns(r, a2, r1, map[0 := half], 0, 5);
    SoloToPriority(r1, r.control);
    var r2, first := r1.(control := Off(r.control), enabled := false, mask := On(r1.mask)), Reset(9, r1.mask, r.priority);
    var a3, m3 := a2 + Turns(0, 5), map[0 := half][0 := first];
    // The second runs up to its last enable; the first reads the control register, which is off.
    NextStart(r, a3, r2, m3, 1);
    var a4, m4 := a3 + [Start(1)], m3[1 := Begin()];
    NextTurns(r, a4, r2, m4, 1, 4);
    SoloDisable(r2);
    var r3, half1 := r2.(pinHigh := true, mask := Off(r2.mask)), Reset(4, r2.control, 0);
    var a5, m5 := a4 + Turns(1, 4), m4[1 := half1];
    NextTurns(r, a5, r3, m5, 1, 7);
    SoloToLastEnable(r3, r2.control);
    var off := Off(r2.control);
    var r4 := r3.(control := WithPriority(off, r.priority), enabled := false, mask := On(r3.mask));
    var second := Reset(11, off, r.priority);
    var a6, m6 := a5 + Turns(1, 7), m5[1 := second];
    NextTurns(r, a6, r4, m6, 0, 1);
    SoloReadsControl(r4, first);
    var late := first.(pc := 10, data := r4.control);
    var a7, m7 := a6 + Turns(0, 1), m6[0 := late];
    // The second enables the link.
    NextTurns(r, a7, r4, m7, 1, 2);
    SoloEnables(r4, second);
    var r5, m8 := r4.(control := On(r4.control)), m7[1 := second.(pc := 13, data := r4.control)];
    actions := a7 + Turns(1, 2);
    ReachesMeans(r, actions, r5, m8);
    LastTurn(r, actions, r5, m8);
    WithPriorityMeans(off, r.priority);
    OffMeans(r2.control);
    OnMeans(r4.control);
    WithPriorityMeans(r4.control, r.priority);
    AllTurnsSucceed(a1, a3, a5, a6, a7, actions);
  }

  /** The first reset's write of the priority, at the end of a run. */
  lemma LastTurn(r: Registers, actions: seq<Action>, regs: Registers, m: map<nat, Reset>)
    requires Reaches(r, actions, regs, m) && 0 in m && m[0].pc == 10
    ensures IsRun(r, actions + [Run(0, true)])
    ensures Exec(r, actions + [Run(0, true)]).regs == regs.(control := WithPriority(m[0].data, m[0].priority))
  {
    hide On, Off, WithPriority;
    Extend(r, actions, Run(0, true));
  }

  lemma AllTurnsSucceed(a1: seq<Action>, a3: seq<Action>, a5: seq<Action>, a6: seq<Action>, a7: seq<Action>, last: seq<Action>)
    requires a1 == [Start(0)] && a3 == a1 + Turns(0, 4) + Turns(0, 5)
    requires a5 == a3 + [Start(1)] + Turns(1, 4) && a6 == a5 + Turns(1, 7)
    requires a7 == a6 + Turns(0, 1) && last == a7 + Turns(1, 2)
    ensures NoFailure(last + [Run(0, true)])
  {
    hide Turns;
    forall id: nat, n: nat ensures NoFailure(Turns(id, n)) { TurnsAt(id, n); }
  }

  lemma ReachesMeans(r: Registers, actions: seq<Action>, regs: Registers, m: map<nat, Reset>)
    requires Reaches(r, actions, regs, m)
    ensures IsRun(r, actions) && Exec(r, actions).inFlight == m && Exec(r, actions).regs == regs
  {}

  /** Resets of which no transfer fails, overlapping in any way, always end in the configured
      control word if and only if the register already held it, up to the enable bit, before
      the first of them. */
  lemma AlwaysConfiguredIff(r: Registers)
    ensures (forall actions | IsRun(r, actions) && NoFailure(actions) && actions != [] && Exec(r, actions).inFlight == map[]
               :: Exec(r, actions).regs.control == Configured(r.priority))
       <==> On(r.control) == Configured(r.priority)
  {
    hide On, Configured, IsRun, AllSucceed, Exec, NoFailure;
    if On(r.control) == Configured(r.priority) {
      forall actions | IsRun(r, actions) && NoFailure(actions) && actions != [] && Exec(r, actions).inFlight == map[]
        ensures Exec(r, actions).regs.control == Configured(r.priority)
      {
        NoFailureSucceeds(r, actions);
        EnabledAfterResets(r, actions);
      }
    } else {
      var actions := StaleWordWins(r);
      assert NoFailure(actions) && actions != [];
    }
  }
}
