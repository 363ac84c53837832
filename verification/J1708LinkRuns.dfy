/** What whole runs of the J1708 link come to: the byte stream from the UART to the queue, and the
    registers that both tasks reset. */
module J1708LinkRuns {
  import opened UartRing
  import opened FpgaLog
  import opened J1708Link
  import Resets = J1708Reset

  /** The reset a task is in. */
  function TxReset(t: Tx): Option<Resets.Reset> {
    match t
    case TxFullReset(_, p) => Some(p)
    case TxBrokenReset(p) => Some(p)
    case TxLengthReset(p) => Some(p)
    case _ => None
  }

  function RxReset(r: Rx): Option<Resets.Reset> {
    match r
    case RxLengthReset(p) => Some(p)
    case RxFailed(_, _, p) => Some(p)
    case _ => None
  }

  // ----- from the UART to the queue

  /** The step clears the ring's write index. */
  predicate ClearsIndex(s: State, a: Action) {
    || (a.TxResets? && a.ok && TxReset(s.tx).Some? && TxReset(s.tx).value.pc == 3)
    || (a.RxResets? && a.ok && RxReset(s.rx).Some? && RxReset(s.rx).value.pc == 3)
  }

  /** Arrivals find room, a read is requested only when something is there to read, and no
      reset gets as far as clearing the write index. */
  predicate Gentle(s: State, a: Action) {
    && (a.Arrives? ==> |s.received| - |s.delivered| < SIZE)
    && (a.RxReads? && s.rx.RxRead? ==> s.rx.length == 0 || |s.delivered| < |s.received|)
    && !ClearsIndex(s, a)
  }

  ghost predicate Undisturbed(c: Config, actions: seq<Action>) {
    actions == [] ||
    (Undisturbed(c, actions[..|actions| - 1]) && Gentle(Exec(c, actions[..|actions| - 1]), actions[|actions| - 1]))
  }

  /** The packet read but not yet sent on. */
  function InHand(r: Rx): seq<byte> { if r.RxSend? && r.packet.Some? then r.packet.value else [] }

  ghost predicate StreamInv(s: State) {
    && |s.delivered| <= |s.received| && s.delivered == s.received[..|s.delivered|]
    && Holds(s.ring, s.received[|s.delivered|..])
    && s.delivered == s.forwarded + InHand(s.rx)
  }

  lemma ArrivalKeepsStream(s: State, data: byte)
    requires StreamInv(s) && Gentle(s, Arrives(data))
    ensures StreamInv(StepRx(s, Arrives(data)))
  {
    hide Holds, Receive;
    var unread := s.received[|s.delivered|..];
    ReceiveAppends(s.ring, unread, data);
    assert (s.received + [data])[|s.delivered|..] == unread + [data];
  }

  lemma TimeoutKeepsStream(s: State)
    requires StreamInv(s)
    ensures StreamInv(StepRx(s, NothingArrives))
  {}

  lemma ReadKeepsStream(s: State, d: Damage)
    requires StreamInv(s) && s.rx.RxRead? && Gentle(s, RxReads(d))
    ensures StreamInv(ReadPacket(s, d))
  {
    hide Holds, AfterRead, Packet, Overflows, Written, Copied, Fits, Contents;
    var n, unread := s.rx.length, s.received[|s.delivered|..];
    HoldsBounds(s.ring, unread);
    if !Overflows(s.ring.rd, s.ring.wr, n) {
      CheckIsExact(s.ring, unread, n);
      ReadTakesFront(s.ring, unread, n);
      NextChunk(s.received, |s.delivered|, n);
    }
  }

  lemma HoldsBounds(r: Ring, unread: seq<byte>)
    requires Holds(r, unread)
    ensures |unread| <= SIZE
  {}

  lemma NextChunk(stream: seq<byte>, d: nat, n: nat)
    requires d + n <= |stream|
    ensures stream[..d] + stream[d..][..n] == stream[..d + n] && stream[d..][n..] == stream[d + n..]
  {}

  lemma SendKeepsStream(s: State, ok: bool)
    requires StreamInv(s) && RxInv(s) && s.rx.RxSend?
    ensures StreamInv(SendMessage(s, ok))
  {
    hide Holds;
  }

  /** The other steps do not touch ring or streams. */
  predicate StreamsStay(s: State, t: State) {
    && t.ring == s.ring && t.received == s.received && t.delivered == s.delivered && t.forwarded == s.forwarded
    && InHand(t.rx) == InHand(s.rx)
  }

  lemma TurnKeepsStreams(s: State, p: Resets.Reset, ok: bool)
    ensures !(ok && p.pc == 3) ==> Turn(s, p, ok).ring == s.ring
    ensures StreamsStay(s, Turn(s, p, ok).(ring := s.ring)) && Turn(s, p, ok).rx == s.rx
  {
    hide Resets.Step;
  }

  lemma TxKeepsStreams(s: State, a: Action)
    requires Enabled(s, a) && IsTx(a) && Gentle(s, a)
    ensures StreamsStay(s, StepTx(s, a))
  {
    hide Turn, Next, Contents, TxBytesOf, TxByteOf, TxLengthOf;
    if a.TxResets? {
      TurnKeepsStreams(s, s.tx.reset, a.ok);
      TurnTouches(s, s.tx.reset, a.ok);
    }
  }

  lemma RxKeepsStreams(s: State, a: Action)
    requires Enabled(s, a) && !IsUser(a) && !IsTx(a) && Gentle(s, a)
    requires !a.Arrives? && !a.NothingArrives? && !a.RxReads? && !a.RxSends?
    ensures StreamsStay(s, StepRx(s, a))
  {
    hide Turn, Next, Contents, ReadPacket, SendMessage;
    if a.RxResets? {
      TurnKeepsStreams(s, s.rx.reset, a.ok);
      TurnTouches(s, s.rx.reset, a.ok);
    }
  }

  lemma StepKeepsStream(s: State, a: Action)
    requires StreamInv(s) && RxInv(s) && Enabled(s, a) && Gentle(s, a)
    ensures StreamInv(Step(s, a))
  {
    hide StepTx, StepRx, StreamInv, RxInv, ReadPacket, SendMessage, Gentle, StreamsStay;
    if IsTx(a) {
      TxKeepsStreams(s, a);
      StayIsEnough(s, StepTx(s, a));
    } else if IsUser(a) {
      UserKeepsStreams(s, a);
      StayIsEnough(s, StepUser(s, a));
    } else {
      RxKeepsStream(s, a);
    }
  }

  lemma UserKeepsStreams(s: State, a: Action)
    requires IsUser(a)
    ensures StreamsStay(s, StepUser(s, a))
  {}

  lemma RxKeepsStream(s: State, a: Action)
    requires StreamInv(s) && RxInv(s) && Enabled(s, a) && Gentle(s, a) && !IsUser(a) && !IsTx(a)
    ensures StreamInv(StepRx(s, a))
  {
    hide StreamInv, RxInv, ReadPacket, SendMessage, Gentle, StreamsStay, RxResetStep;
    match a
    case Arrives(data) => ArrivalKeepsStream(s, data);
    case NothingArrives => TimeoutKeepsStream(s);
    case RxReads(d) => ReadKeepsStream(s, d);
    case RxSends(ok) => SendKeepsStream(s, ok);
    case _ =>
      RxKeepsStreams(s, a);
      StayIsEnough(s, StepRx(s, a));
  }

  lemma StayIsEnough(s: State, t: State)
    requires StreamInv(s) && StreamsStay(s, t)
    ensures StreamInv(t)
  {
    hide Holds;
  }

  lemma {:induction false} RunsKeepStream(c: Config, actions: seq<Action>)
    requires IsRun(c, actions) && StaysInside(c, actions) && Undisturbed(c, actions)
    ensures StreamInv(Exec(c, actions))
  {
    hide Step, Enabled, Gentle, RxInv, Inside;
    if actions != [] {
      var before := actions[..|actions| - 1];
      RunsKeepStream(c, before);
      RunsKeepInv(c, before);
      StepKeepsStream(Exec(c, before), actions[|actions| - 1]);
    } else {
      assert Exec(c, []) == Start(c);
    }
  }

  /** Until the first reset clears the write index, the payloads that the Rx task sends on after
      successful reads, one after the other, are a prefix of what came over the UART. */
  lemma ForwardedIsPrefix(c: Config, actions: seq<Action>)
    requires IsRun(c, actions) && StaysInside(c, actions) && Undisturbed(c, actions)
    ensures var s := Exec(c, actions);
            s.forwarded <= s.delivered <= s.received && s.delivered == s.forwarded + InHand(s.rx)
  {
    RunsKeepStream(c, actions);
  }

  /** What the Rx task sends after a successful read has the packet as its payload; it is a
      valid message if the packet is not longer than the data. */
  lemma RxForwardsPacket(c: Config, actions: seq<Action>, ok: bool)
    requires IsRun(c, actions) && StaysInside(c, actions)
    requires var r := Exec(c, actions).rx; r.RxSend? && r.packet.Some?
    ensures var s := Exec(c, actions);
            var t, packet := Step(s, RxSends(ok)), s.rx.packet.value;
            && s.rx.msg in t.contents && Payload(t.contents[s.rx.msg]) == packet
            && (ValidMessage(t.contents[s.rx.msg]) <==> |packet| <= MAX_DATA)
            && t.forwarded == s.forwarded + packet
            && t.pool.outQueue == if ok then s.pool.outQueue + [s.rx.msg] else s.pool.outQueue
  {
    hide IsRun, StaysInside, Exec, TxInv;
    RunsKeepInv(c, actions);
    RxSendIs(Exec(c, actions), ok);
  }

  lemma RxSendIs(s: State, ok: bool)
    requires RxInv(s) && s.rx.RxSend? && s.rx.packet.Some?
    ensures var t, packet := SendMessage(s, ok), s.rx.packet.value;
            && s.rx.msg in t.contents && Payload(t.contents[s.rx.msg]) == packet
            && (ValidMessage(t.contents[s.rx.msg]) <==> |packet| <= MAX_DATA)
            && t.forwarded == s.forwarded + packet
            && t.pool.outQueue == if ok then s.pool.outQueue + [s.rx.msg] else s.pool.outQueue
  {}

  // ----- lengths for which no read runs past its message

  predicate IsShort(r: Rx) { (r.RxAllocate? || r.RxRead?) ==> 2 * r.length - 1 <= ROOM }

  lemma StepKeepsShort(s: State, a: Action)
    requires IsShort(s.rx) && Enabled(s, a) && (a.RxLength? ==> 2 * a.length - 1 <= ROOM)
    ensures IsShort(Step(s, a).rx) && Inside(s, a)
  {
    hide Turn, Next, Contents, Packet, Written, Copied, Receive;
    if IsTx(a) {
      TxTouches(s, a);
    } else if a.RxReads? && !Overflows(s.ring.rd, s.ring.wr, s.rx.length) {
      AcceptedLength(s.ring, s.rx.length);
      AlwaysFitsIff(s.rx.length, ROOM);
    }
  }

  /** If the FPGA reports no packet of more than 36 bytes (a J1708 message has at most 21), no
      read of any run leaves its message. */
  lemma {:induction false} ShortPacketsStayInside(c: Config, actions: seq<Action>)
    requires IsRun(c, actions)
    requires forall k | 0 <= k < |actions| && actions[k].RxLength? :: actions[k].length <= 36
    ensures StaysInside(c, actions) && IsShort(Exec(c, actions).rx)
  {
    hide Step, Enabled, Inside, IsShort;
    if actions != [] {
      var before := actions[..|actions| - 1];
      assert forall k | 0 <= k < |before| :: before[k] == actions[k];
      ShortPacketsStayInside(c, before);
      StepKeepsShort(Exec(c, before), actions[|actions| - 1]);
    } else {
      assert IsShort(Start(c).rx) by { StartIsShort(c); }
    }
  }

  lemma StartIsShort(c: Config)
    ensures IsShort(Start(c).rx)
  {}

  // ----- the registers

  /** The resets under way: number 0 is the Tx task's, number 1 the Rx task's. */
  function InFlight(s: State): map<nat, Resets.Reset> {
    (if TxReset(s.tx).Some? then map[0 := TxReset(s.tx).value] else map[])
    + (if RxReset(s.rx).Some? then map[1 := RxReset(s.rx).value] else map[])
  }

  /** The transfers by which a reset switches interrupt and link back on succeed. */
  predicate SwitchesOnWell(s: State, a: Action) {
    && (a.TxResets? && !a.ok && TxReset(s.tx).Some? ==> !Resets.SwitchesOn(TxReset(s.tx).value.pc))
    && (a.RxResets? && !a.ok && RxReset(s.rx).Some? ==> !Resets.SwitchesOn(RxReset(s.rx).value.pc))
  }

  ghost predicate SwitchOnsSucceed(c: Config, actions: seq<Action>) {
    actions == [] ||
    (SwitchOnsSucceed(c, actions[..|actions| - 1]) && SwitchesOnWell(Exec(c, actions[..|actions| - 1]), actions[|actions| - 1]))
  }

  /** What a step of the link is to the registers: a turn of a reset, the start of one, or
      nothing. */
  datatype Effect = Nothing | Does(action: Resets.Action)

  function EffectOf(s: State, a: Action): Effect {
    if a.TxResets? && TxReset(s.tx).Some? then Does(Resets.Run(0, a.ok))
    else if a.RxResets? && RxReset(s.rx).Some? then Does(Resets.Run(1, a.ok))
    else if TxReset(s.tx).None? && TxReset(Step(s, a).tx).Some? then Does(Resets.Start(0))
    else if RxReset(s.rx).None? && RxReset(Step(s, a).rx).Some? then Does(Resets.Start(1))
    else Nothing
  }

  /** The registers and resets of the link, as a system of resets. */
  ghost predicate Shows(s: State, t: Resets.System) { t.regs == s.regs && t.inFlight == InFlight(s) }

  lemma TurnRegs(s: State, p: Resets.Reset, ok: bool)
    ensures var t := Turn(s, p, ok); t.regs == Resets.Step(s.regs, p, ok).regs && t.tx == s.tx && t.rx == s.rx
  {
    hide Resets.Step;
  }

  lemma TxResetGoesOn(s: State, ok: bool)
    requires TxReset(s.tx).Some?
    ensures var t, q := TxResetStep(s, ok), Next(s, TxReset(s.tx).value, ok);
            && t == Turn(s, TxReset(s.tx).value, ok).(tx := t.tx)
            && TxReset(t.tx) == if q.pc < Resets.LAST then Some(q) else None
  {
    hide Turn, Next;
  }

  lemma RxResetGoesOn(s: State, ok: bool)
    requires RxReset(s.rx).Some?
    ensures var t, q := RxResetStep(s, ok), Next(s, RxReset(s.rx).value, ok);
            && t == Turn(s, RxReset(s.rx).value, ok).(rx := t.rx)
            && RxReset(t.rx) == if q.pc < Resets.LAST then Some(q) else None
  {
    hide Turn, Next;
  }

  lemma TxTurnShows(s: State, t: Resets.System, ok: bool)
    requires Shows(s, t) && TxReset(s.tx).Some?
    ensures var a := Resets.Run(0, ok);
            && Resets.Enabled(t, a) && Shows(TxResetStep(s, ok), Resets.After(t, a))
            && (ok || !Resets.SwitchesOn(TxReset(s.tx).value.pc) ==> Resets.Succeeds(t, a))
  {
    hide Turn, Resets.Step, TxResetStep;
    TurnRegs(s, TxReset(s.tx).value, ok);
    TxResetGoesOn(s, ok);
  }

  lemma RxTurnShows(s: State, t: Resets.System, ok: bool)
    requires Shows(s, t) && RxReset(s.rx).Some?
    ensures var a := Resets.Run(1, ok);
            && Resets.Enabled(t, a) && Shows(RxResetStep(s, ok), Resets.After(t, a))
            && (ok || !Resets.SwitchesOn(RxReset(s.rx).value.pc) ==> Resets.Succeeds(t, a))
  {
    hide Turn, Resets.Step, RxResetStep;
    TurnRegs(s, RxReset(s.rx).value, ok);
    RxResetGoesOn(s, ok);
  }

  /** All other steps leave the registers alone, and start a reset or none. */
  predicate RegsStay(s: State, u: State) {
    && u.regs == s.regs
    && (TxReset(u.tx) == TxReset(s.tx) || (TxReset(s.tx) == None && TxReset(u.tx) == Some(Resets.Begin()) && RxReset(u.rx) == RxReset(s.rx)))
    && (RxReset(u.rx) == RxReset(s.rx) || (RxReset(s.rx) == None && RxReset(u.rx) == Some(Resets.Begin()) && TxReset(u.tx) == TxReset(s.tx)))
  }

  lemma TxRegsStay(s: State, a: Action)
    requires Enabled(s, a) && IsTx(a) && !a.TxResets?
    ensures RegsStay(s, StepTx(s, a))
  {
    hide Contents, TxBytesOf, TxByteOf, TxLengthOf, TxResetStep;
  }

  lemma RxRegsStay(s: State, a: Action)
    requires Enabled(s, a) && !IsUser(a) && !IsTx(a) && !a.RxResets?
    ensures RegsStay(s, StepRx(s, a))
  {
    hide Contents, Packet, Copied, Written, Payload, Receive, RxResetStep;
  }

  lemma StayShows(s: State, u: State, t: Resets.System)
    requires Shows(s, t) && RegsStay(s, u)
    ensures if TxReset(s.tx) == None && TxReset(u.tx).Some? then
              Resets.Enabled(t, Resets.Start(0)) && Shows(u, Resets.After(t, Resets.Start(0)))
            else if RxReset(s.rx) == None && RxReset(u.rx).Some? then
              Resets.Enabled(t, Resets.Start(1)) && Shows(u, Resets.After(t, Resets.Start(1)))
            else Shows(u, t)
  {}

  lemma OtherRegsStay(s: State, a: Action)
    requires Enabled(s, a) && !a.TxResets? && !a.RxResets?
    ensures RegsStay(s, Step(s, a))
  {
    hide StepTx, StepRx, Enabled;
    if IsTx(a) {
      TxRegsStay(s, a);
    } else if !IsUser(a) {
      RxRegsStay(s, a);
    }
  }

  lemma StepShows(s: State, a: Action, t: Resets.System)
    requires Enabled(s, a) && Shows(s, t)
    ensures match EffectOf(s, a)
            case Nothing => Shows(Step(s, a), t)
            case Does(e) => Resets.Enabled(t, e) && Shows(Step(s, a), Resets.After(t, e))
                            && (SwitchesOnWell(s, a) ==> Resets.Succeeds(t, e))
  {
    hide Shows, Resets.After, TxResetStep, RxResetStep, StepUser, Resets.Enabled;
    if a.TxResets? {
      TxTurnShows(s, t, a.ok);
    } else if a.RxResets? {
      RxTurnShows(s, t, a.ok);
    } else {
      OtherRegsStay(s, a);
      hide Step;
      StayShows(s, Step(s, a), t);
    }
  }

  lemma ExtendResets(r: Resets.Registers, acts: seq<Resets.Action>, a: Resets.Action)
    requires Resets.IsRun(r, acts) && Resets.Enabled(Resets.Exec(r, acts), a)
    ensures Resets.IsRun(r, acts + [a]) && Resets.Exec(r, acts + [a]) == Resets.After(Resets.Exec(r, acts), a)
    ensures Resets.AllSucceed(r, acts) && Resets.Succeeds(Resets.Exec(r, acts), a) ==> Resets.AllSucceed(r, acts + [a])
  {
    hide Resets.After, Resets.Succeeds, Resets.Enabled;
    var all := acts + [a];
    assert all[..|all| - 1] == acts && all[|all| - 1] == a;
  }

  /** Every run of the link is, on the registers, a run of overlapping resets. */
  lemma {:induction false} RunsAreResets(c: Config, actions: seq<Action>) returns (acts: seq<Resets.Action>)
    requires IsRun(c, actions)
    ensures Resets.IsRun(c.regs, acts) && Shows(Exec(c, actions), Resets.Exec(c.regs, acts))
    ensures SwitchOnsSucceed(c, actions) ==> Resets.AllSucceed(c.regs, acts)
  {
    hide Step, Enabled, EffectOf, SwitchesOnWell, Resets.After, Resets.Enabled, Resets.Succeeds;
    if actions == [] {
      acts := [];
    } else {
      var s, a := Exec(c, actions[..|actions| - 1]), actions[|actions| - 1];
      acts := RunsAreResets(c, actions[..|actions| - 1]);
      StepShows(s, a, Resets.Exec(c.regs, acts));
      match EffectOf(s, a)
      case Nothing =>
      case Does(e) =>
        ExtendResets(c.regs, acts, e);
        acts := acts + [e];
    }
  }

  /** Whatever the two tasks do, once neither is in a reset the registers are as at the start,
      or the enable pin is low, the state is enabled, and priority and the other interrupt bits
      are as at the start; and if the transfers that switch interrupt and link on have
      succeeded, both bits are set. */
  lemma LinkComesBack(c: Config, actions: seq<Action>)
    requires IsRun(c, actions)
    ensures var s := Exec(c, actions);
            var r := s.regs;
            TxReset(s.tx) == None && RxReset(s.rx) == None ==>
              || r == c.regs
              || (&& !r.pinHigh && r.enabled && r.priority == c.regs.priority && Resets.On(r.mask) == Resets.On(c.regs.mask)
                  && (SwitchOnsSucceed(c, actions) ==> r.mask == Resets.On(c.regs.mask) && Resets.IsOn(r.control)))
  {
    hide IsRun, Exec, SwitchOnsSucceed, Resets.On, Resets.IsOn, Resets.IsRun, Resets.AllSucceed;
    var acts := RunsAreResets(c, actions);
    if acts != [] && Resets.Exec(c.regs, acts).inFlight == map[] {
      Resets.QuietAfterResets(c.regs, acts);
      if SwitchOnsSucceed(c, actions) { Resets.EnabledAfterResets(c.regs, acts); }
    }
  }

  /** The log knows whether the link is enabled. */
  lemma {:induction false} LogTracksControl(c: Config, actions: seq<Action>)
    requires IsRun(c, actions)
    ensures var s := Exec(c, actions); Heard(s.log).on == Resets.IsOn(s.regs.control)
  {
    hide Step, Enabled, Resets.IsOn;
    if actions == [] {
      HeardNext([], Control(Resets.IsOn(c.regs.control)));
      assert [] + [Control(Resets.IsOn(c.regs.control))] == [Control(Resets.IsOn(c.regs.control))];
    } else {
      LogTracksControl(c, actions[..|actions| - 1]);
      StepTracksControl(Exec(c, actions[..|actions| - 1]), actions[|actions| - 1]);
    }
  }

  ghost predicate Tracks(s: State) { Heard(s.log).on == Resets.IsOn(s.regs.control) }

  lemma TurnTracksControl(s: State, p: Resets.Reset, ok: bool)
    requires Tracks(s)
    ensures Tracks(Turn(s, p, ok))
  {
    hide Resets.IsOn, Resets.On, Resets.Off, Resets.WithPriority;
    HeardNext(s.log, Control(Resets.IsOn(Turn(s, p, ok).regs.control)));
  }

  lemma StepTracksControl(s: State, a: Action)
    requires Enabled(s, a) && Tracks(s)
    ensures Tracks(Step(s, a))
  {
    hide Turn, Resets.IsOn, Contents, TxBytesOf, TxByteOf, TxLengthOf, StepUser, StepRx, Heard;
    if a.TxResets? {
      TurnTracksControl(s, s.tx.reset, a.ok);
    } else if a.RxResets? {
      RxTracksControl(s, a);
    } else if IsTx(a) {
      var e := StepTx(s, a).log;
      if e != s.log { HeardNext(s.log, e[|s.log|]); }
    } else {
      OthersTrackControl(s, a);
    }
  }

  lemma RxTracksControl(s: State, a: Action)
    requires Enabled(s, a) && a.RxResets? && Tracks(s)
    ensures Tracks(StepRx(s, a))
  {
    hide Turn, Heard, Resets.IsOn;
    TurnTracksControl(s, s.rx.reset, a.ok);
  }

  lemma OthersTrackControl(s: State, a: Action)
    requires Enabled(s, a) && !IsTx(a) && !a.RxResets? && Tracks(s)
    ensures Tracks(Step(s, a))
  {
    hide Heard, Resets.IsOn, Contents, Packet, Copied, Written, Payload, Receive, Turn;
  }
}
