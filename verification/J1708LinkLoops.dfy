/** The two task loops of the J1708 link as the sequence of what they do: how many polls a message
    gets, which action follows which, that every reset is a whole one, and in which order blocks
    go through the queues.  Most of this holds of every run, overruns included. */
module J1708LinkLoops {
  import opened UartRing
  import opened FpgaLog
  import opened J1708Link
  import opened J1708LinkRuns
  import Resets = J1708Reset

  lemma {:induction false} RunPrefix(c: Config, actions: seq<Action>, k: nat)
    requires IsRun(c, actions) && k <= |actions|
    ensures IsRun(c, actions[..k])
  {
    if k < |actions| {
      RunPrefix(c, actions[..|actions| - 1], k);
      assert actions[..|actions| - 1][..k] == actions[..k];
    } else {
      assert actions[..k] == actions;
    }
  }

  lemma StepAt(c: Config, actions: seq<Action>, k: nat)
    requires IsRun(c, actions) && k < |actions|
    ensures Enabled(Exec(c, actions[..k]), actions[k])
    ensures Exec(c, actions[..k + 1]) == Step(Exec(c, actions[..k]), actions[k])
  {
    hide Step, Enabled;
    RunPrefix(c, actions, k + 1);
    assert actions[..k + 1][..k] == actions[..k];
  }

  // ----- polls

  /** The polls since a message was last taken. */
  function PollsSince(log: Log): seq<Event> {
    if log == [] then []
    else
      var e, before := log[|log| - 1], PollsSince(log[..|log| - 1]);
      if e.Taken? then [] else if e.Polled? then before + [e] else before
  }

  predicate ReportsRoom(e: Event) { e.Polled? && e.ok && !e.full }

  ghost predicate AllRefused(polls: seq<Event>) { forall e | e in polls :: !ReportsRoom(e) }

  lemma PollsNext(log: Log, e: Event)
    ensures PollsSince(log + [e])
         == if e.Taken? then [] else if e.Polled? then PollsSince(log) + [e] else PollsSince(log)
  {
    assert (log + [e])[..|log|] == log;
  }

  /** How the polls of a message decide: fewer than ten without room and it is polled again, ten
      without room and it is dropped, one with room, at most the tenth, and it is sent. */
  ghost predicate Decided(tx: Tx, polls: seq<Event>) {
    match tx
    case TxPoll(_, count) => |polls| == count < 10 && AllRefused(polls)
    case TxFullReset(_, _) => |polls| == 10 && AllRefused(polls)
    case TxFullFree(_) => |polls| == 10 && AllRefused(polls)
    case TxSend(_, _) => 1 <= |polls| <= 10 && ReportsRoom(polls[|polls| - 1]) && AllRefused(polls[..|polls| - 1])
    case _ => true
  }

  lemma PollDecides(s: State, ok: bool, full: bool)
    requires s.tx.TxPoll? && Decided(s.tx, PollsSince(s.log))
    ensures Decided(Poll(s, ok, full).tx, PollsSince(Poll(s, ok, full).log))
  {
    hide PollsSince;
    PollsNext(s.log, Polled(ok, full));
  }

  /** No step but a poll or the taking of a message changes the polls counted so far. */
  lemma OthersKeepPolls(s: State, a: Action)
    requires Enabled(s, a) && !a.TxPolls? && !a.TxTakes?
    ensures PollsSince(Step(s, a).log) == PollsSince(s.log)
  {
    hide Turn, Contents, TxBytesOf, TxByteOf, TxLengthOf, PollsSince, ReadPacket, SendMessage, Receive, StepUser;
    if a.TxResets? {
      TurnKeepsPolls(s, s.tx.reset, a.ok);
    } else if a.RxResets? {
      TurnKeepsPolls(s, s.rx.reset, a.ok);
    } else if IsTx(a) {
      TxKeepsPolls(s, a);
    } else {
      OthersKeepLog(s, a);
    }
  }

  lemma TurnKeepsPolls(s: State, p: Resets.Reset, ok: bool)
    ensures PollsSince(Turn(s, p, ok).log) == PollsSince(s.log)
  {
    hide PollsSince, Resets.Step, Resets.IsOn;
    PollsNext(s.log, Control(Resets.IsOn(Turn(s, p, ok).regs.control)));
  }

  lemma TxKeepsPolls(s: State, a: Action)
    requires Enabled(s, a) && IsTx(a) && !a.TxPolls? && !a.TxTakes? && !a.TxResets?
    ensures PollsSince(StepTx(s, a).log) == PollsSince(s.log)
  {
    hide PollsSince, Contents, TxByteOf, TxLengthOf;
    var log := StepTx(s, a).log;
    if log != s.log { PollsNext(s.log, log[|s.log|]); }
  }

  lemma OthersKeepLog(s: State, a: Action)
    requires !IsTx(a) && !a.RxResets?
    ensures Step(s, a).log == s.log
  {
    hide Contents, Packet, Copied, Written, Payload, Receive;
  }

  lemma StepDecides(s: State, a: Action)
    requires Enabled(s, a) && Decided(s.tx, PollsSince(s.log))
    ensures Decided(Step(s, a).tx, PollsSince(Step(s, a).log))
  {
    hide PollsSince, Decided, Step, Enabled;
    match a
    case TxPolls(ok, full) =>
      PollIsStep(s, ok, full);
      PollDecides(s, ok, full);
    case TxTakes => TakeDecides(s);
    case _ =>
      OthersKeepPolls(s, a);
      OthersStayDecided(s, a);
  }

  lemma PollIsStep(s: State, ok: bool, full: bool)
    requires Enabled(s, TxPolls(ok, full))
    ensures s.tx.TxPoll? && Step(s, TxPolls(ok, full)) == Poll(s, ok, full)
  {}

  lemma TakeDecides(s: State)
    requires Enabled(s, TxTakes)
    ensures Decided(Step(s, TxTakes).tx, PollsSince(Step(s, TxTakes).log))
  {
    hide PollsSince, TxBytesOf;
    PollsNext(s.log, Taken(TxBytesOf(Contents(s, s.pool.txQueue[0]))));
  }

  lemma OthersStayDecided(s: State, a: Action)
    requires Enabled(s, a) && !a.TxPolls? && !a.TxTakes? && Decided(s.tx, PollsSince(s.log))
    ensures Decided(Step(s, a).tx, PollsSince(s.log))
  {
    hide PollsSince, Turn, Next, Contents, TxByteOf, TxLengthOf;
    if !IsTx(a) { OthersKeepTxPoint(s, a); }
  }

  /** Only its own steps move the Tx task. */
  lemma OthersKeepTxPoint(s: State, a: Action)
    requires !IsTx(a)
    ensures Step(s, a).tx == s.tx
  {
    hide Contents, Packet, Copied, Written, Payload, Receive, Resets.Step, Resets.IsOn;
  }

  /** Over every run: a message is dropped, with a reset, after exactly ten polls none of which
      reported room, and sent after at most ten of which only the last did. */
  lemma {:induction false} PollsDecide(c: Config, actions: seq<Action>)
    requires IsRun(c, actions)
    ensures Decided(Exec(c, actions).tx, PollsSince(Exec(c, actions).log))
  {
    hide Step, Enabled;
    if actions != [] {
      PollsDecide(c, actions[..|actions| - 1]);
      StepDecides(Exec(c, actions[..|actions| - 1]), actions[|actions| - 1]);
    }
  }

  // ----- the Tx loop, action by action

  /** The last action of the Tx task that decides how it goes on. */
  function TxChoice(actions: seq<Action>): Option<Action> {
    if actions == [] then None
    else
      var a := actions[|actions| - 1];
      if a.TxTakes? || a.TxPolls? || a.TxEnds? || a.TxCommits? then Some(a) else TxChoice(actions[..|actions| - 1])
  }

  /** Where the Tx task stands, by its last choice. */
  ghost predicate TxStands(tx: Tx, choice: Option<Action>) {
    match tx
    case TxTop => true
    case TxPoll(_, _) => choice.Some? && (choice.value.TxTakes? || choice.value.TxPolls?)
    case TxFullReset(_, _) => choice.Some? && choice.value.TxPolls?
    case TxFullFree(_) => choice.Some? && choice.value.TxPolls?
    case TxSend(_, _) => choice.Some? && choice.value.TxPolls?
    case TxBrokenFree(_) => choice == Some(TxEnds(false))
    case TxBrokenReset(_) => choice == Some(TxEnds(false))
    case TxSentFree(_, _) => choice == Some(TxEnds(true))
    case TxLength(_) => choice == Some(TxEnds(true))
    case TxLengthReset(_) => choice == Some(TxCommits(false))
  }

  lemma StepKeepsTxStand(s: State, a: Action, choice: Option<Action>)
    requires Enabled(s, a) && TxStands(s.tx, choice)
    ensures TxStands(Step(s, a).tx, if a.TxTakes? || a.TxPolls? || a.TxEnds? || a.TxCommits? then Some(a) else choice)
  {
    hide Turn, Next, Contents, TxBytesOf, TxByteOf, TxLengthOf, StepUser, StepRx;
    if !IsTx(a) { OthersKeepTxPoint(s, a); }
  }

  lemma {:induction false} TxStandsByChoice(c: Config, actions: seq<Action>)
    requires IsRun(c, actions)
    ensures TxStands(Exec(c, actions).tx, TxChoice(actions))
  {
    hide Step, Enabled;
    if actions != [] {
      TxStandsByChoice(c, actions[..|actions| - 1]);
      StepKeepsTxStand(Exec(c, actions[..|actions| - 1]), actions[|actions| - 1], TxChoice(actions[..|actions| - 1]));
    }
  }

  lemma {:induction false} TxWaits(c: Config, actions: seq<Action>, i: nat, j: nat)
    requires IsRun(c, actions) && i <= j <= |actions| && forall k | i <= k < j :: !IsTx(actions[k])
    ensures Exec(c, actions[..j]).tx == Exec(c, actions[..i]).tx
    decreases j
  {
    hide Step, Enabled, Exec, IsRun;
    if i < j {
      TxWaits(c, actions, i, j - 1);
      StepAt(c, actions, j - 1);
      OthersKeepTxPoint(Exec(c, actions[..j - 1]), actions[j - 1]);
    }
  }

  /** The reset a task is in when it acts is the first step of one. */
  predicate Starts(p: Option<Resets.Reset>) { p == Some(Resets.Reset(0, 0, 0)) }

  /** The reset goes on where it was left. */
  predicate GoesOn(s: State, before: Option<Resets.Reset>, ok: bool, after: Option<Resets.Reset>) {
    before.Some? && after == Some(Resets.Step(s.regs, before.value, ok).reset)
  }

  /** The step was the last of the reset. */
  predicate IsOver(s: State, before: Option<Resets.Reset>, ok: bool) {
    before.Some? && Resets.Step(s.regs, before.value, ok).reset.pc >= 16
  }

  /** What the Tx task does after `a`, taken in state `s`: `b`, from the point `t`. */
  ghost predicate TxFollows(s: State, choice: Option<Action>, a: Action, t: Tx, b: Action) {
    match a
    case TxTakes => b.TxPolls?
    case TxPolls(ok, full) =>
      if ok && !full then b.TxSends? || b.TxEnds?
      else if |PollsSince(s.log)| < 9 then b.TxPolls?
      else b.TxResets? && Starts(TxReset(t))
    case TxSends => b.TxSends? || b.TxEnds?
    case TxEnds(_) => b.TxFrees?
    case TxFrees =>
      if choice == Some(TxEnds(true)) then b.TxCommits?
      else if choice == Some(TxEnds(false)) then b.TxResets? && Starts(TxReset(t))
      else b.TxTakes?
    case TxCommits(ok) => if ok then b.TxTakes? else b.TxResets? && Starts(TxReset(t))
    case TxResets(ok) =>
      if !IsOver(s, TxReset(s.tx), ok) then b.TxResets? && GoesOn(s, TxReset(s.tx), ok, TxReset(t))
      else if choice.Some? && choice.value.TxPolls? then b.TxFrees?
      else b.TxTakes?
    case _ => false
  }

  /** Over every run, of two actions of the Tx task with none of its own between them the second
      is the one that its loop does next; in particular a full FPGA, a broken transmission and a
      failed length are each followed by a whole reset. */
  lemma TxLoop(c: Config, actions: seq<Action>, i: nat, j: nat)
    requires IsRun(c, actions) && i < j < |actions| && IsTx(actions[i]) && IsTx(actions[j])
    requires forall k | i < k < j :: !IsTx(actions[k])
    ensures TxFollows(Exec(c, actions[..i]), TxChoice(actions[..i]), actions[i], Exec(c, actions[..j]).tx, actions[j])
  {
    hide Exec, IsRun, Step, Enabled, TxFollows, PollsSince, Decided, TxStands;
    StepAt(c, actions, i);
    StepAt(c, actions, j);
    TxWaits(c, actions, i + 1, j);
    RunPrefix(c, actions, i);
    PollsDecide(c, actions[..i]);
    TxStandsByChoice(c, actions[..i]);
    TxGoesOn(Exec(c, actions[..i]), TxChoice(actions[..i]), actions[i], Exec(c, actions[..j]), actions[j]);
  }

  lemma TxGoesOn(s: State, choice: Option<Action>, a: Action, t: State, b: Action)
    requires Enabled(s, a) && IsTx(a) && Enabled(t, b) && IsTx(b) && t.tx == Step(s, a).tx
    requires Decided(s.tx, PollsSince(s.log)) && TxStands(s.tx, choice)
    ensures TxFollows(s, choice, a, t.tx, b)
  {
    hide PollsSince, AllRefused, Step, Enabled, TxFollows, Decided, TxStands;
    if a.TxResets? {
      TxResetGoesOn(s, choice, a.ok, t, b);
    } else if a.TxFrees? {
      TxFreeGoesOn(s, choice, t, b);
    } else {
      TxChoiceGoesOn(s, choice, a, t, b);
    }
  }

  lemma TxChoiceGoesOn(s: State, choice: Option<Action>, a: Action, t: State, b: Action)
    requires Enabled(s, a) && IsTx(a) && !a.TxResets? && !a.TxFrees? && Enabled(t, b) && IsTx(b) && t.tx == Step(s, a).tx
    requires Decided(s.tx, PollsSince(s.log))
    ensures TxFollows(s, choice, a, t.tx, b)
  {
    hide Contents, TxBytesOf, TxByteOf, TxLengthOf, PollsSince, AllRefused;
  }

  lemma TxFreeGoesOn(s: State, choice: Option<Action>, t: State, b: Action)
    requires Enabled(s, TxFrees) && Enabled(t, b) && IsTx(b) && t.tx == Step(s, TxFrees).tx && TxStands(s.tx, choice)
    ensures TxFollows(s, choice, TxFrees, t.tx, b)
  {
    hide Contents, TxLengthOf, PollsSince;
  }

  lemma TxResetGoesOn(s: State, choice: Option<Action>, ok: bool, t: State, b: Action)
    requires Enabled(s, TxResets(ok)) && Enabled(t, b) && IsTx(b) && t.tx == Step(s, TxResets(ok)).tx && TxStands(s.tx, choice)
    ensures TxFollows(s, choice, TxResets(ok), t.tx, b)
  {
    hide Resets.Step, Contents, TxLengthOf, PollsSince, Turn;
    TxResetPoint(s, ok);
  }

  lemma TxResetPoint(s: State, ok: bool)
    requires TxReset(s.tx).Some?
    ensures var p, q := TxReset(s.tx).value, Resets.Step(s.regs, TxReset(s.tx).value, ok).reset;
            TxReset(TxResetStep(s, ok).tx) == if q.pc < 16 then Some(q) else None
  {
    hide Resets.Step, Turn;
  }

  /** What the Tx task takes is the payload of the message queued first: its size, less the eight
      bytes of the header, from the front of its data. */
  lemma TakesPayload(c: Config, actions: seq<Action>)
    requires IsRun(c, actions) && StaysInside(c, actions)
    ensures var s := Exec(c, actions);
            Enabled(s, TxTakes) ==>
              && s.pool.txQueue[0] in s.contents
              && var m := s.contents[s.pool.txQueue[0]];
              && 8 <= m.size <= 72
              && Step(s, TxTakes).log == s.log + [Taken(m.body[..m.size - 8])]
  {
    hide IsRun, StaysInside, Exec, TxInv;
    RunsKeepInv(c, actions);
    var s := Exec(c, actions);
    if Enabled(s, TxTakes) {
      LengthFits(s.contents[s.pool.txQueue[0]]);
    }
  }

  // ----- the Rx loop, action by action

  predicate IsRx(a: Action) {
    a.RxLength? || a.RxAllocates? || a.RxAllocationFails? || a.RxReads? || a.RxResets? || a.RxSends?
  }

  /** The last action of the Rx task other than a step of a reset, the length it was last told
      and the block it last got. */
  datatype RxPast = RxPast(choice: Option<Action>, length: nat, block: Block)

  function RxNext(p: RxPast, a: Action): RxPast {
    match a
    case RxLength(_, _, length) => RxPast(Some(a), length, p.block)
    case RxAllocates(b) => RxPast(Some(a), p.length, b)
    case RxAllocationFails => p.(choice := Some(a))
    case RxReads(_) => p.(choice := Some(a))
    case RxSends(_) => p.(choice := Some(a))
    case _ => p
  }

  function RxHistory(actions: seq<Action>): RxPast {
    if actions == [] then RxPast(None, 0, 0) else RxNext(RxHistory(actions[..|actions| - 1]), actions[|actions| - 1])
  }

  /** Where the Rx task stands, by its past. */
  ghost predicate RxStands(rx: Rx, p: RxPast) {
    match rx
    case RxTop => true
    case RxLengthReset(_) => p.choice.Some? && p.choice.value.RxLength?
    case RxAllocate(length) => p.choice.Some? && p.choice.value.RxLength? && length == p.length
    case RxRead(b, length) => p.choice == Some(RxAllocates(b)) && b == p.block && length == p.length
    case RxFailed(b, length, _) => p.choice.Some? && p.choice.value.RxReads? && b == p.block && length == p.length
    case RxSend(b, length, _) => p.choice.Some? && p.choice.value.RxReads? && b == p.block && length == p.length
  }

  lemma OthersKeepRxPoint(s: State, a: Action)
    requires !IsRx(a)
    ensures Step(s, a).rx == s.rx
  {
    hide Contents, TxBytesOf, TxByteOf, TxLengthOf, Receive, Resets.Step, Resets.IsOn;
  }

  lemma StepKeepsRxStand(s: State, a: Action, p: RxPast)
    requires Enabled(s, a) && RxStands(s.rx, p)
    ensures RxStands(Step(s, a).rx, RxNext(p, a))
  {
    hide Turn, Next, Contents, Packet, Copied, Written, Payload, Receive, StepUser, StepTx, Overflows, Fits;
    if !IsRx(a) {
      OthersKeepRxPoint(s, a);
    }
  }

  lemma {:induction false} RxStandsByHistory(c: Config, actions: seq<Action>)
    requires IsRun(c, actions)
    ensures RxStands(Exec(c, actions).rx, RxHistory(actions))
  {
    hide Step, Enabled, RxNext, RxStands;
    if actions == [] {
      assert RxStands(RxTop, RxHistory([])) by { TopStands(RxHistory([])); }
    } else {
      RxStandsByHistory(c, actions[..|actions| - 1]);
      StepKeepsRxStand(Exec(c, actions[..|actions| - 1]), actions[|actions| - 1], RxHistory(actions[..|actions| - 1]));
    }
  }

  lemma TopStands(p: RxPast)
    ensures RxStands(RxTop, p)
  {}

  lemma {:induction false} RxWaits(c: Config, actions: seq<Action>, i: nat, j: nat)
    requires IsRun(c, actions) && i <= j <= |actions| && forall k | i <= k < j :: !IsRx(actions[k])
    ensures Exec(c, actions[..j]).rx == Exec(c, actions[..i]).rx
    decreases j
  {
    hide Step, Enabled, Exec, IsRun;
    if i < j {
      RxWaits(c, actions, i, j - 1);
      StepAt(c, actions, j - 1);
      OthersKeepRxPoint(Exec(c, actions[..j - 1]), actions[j - 1]);
    }
  }

  /** What the Rx task does after `a`, taken in state `s`: `b`, from the point `t`. */
  ghost predicate RxFollows(s: State, p: RxPast, a: Action, t: Rx, b: Action) {
    match a
    case RxLength(ok, status, _) =>
      if !ok then b.RxResets? && Starts(RxReset(t))
      else if status then b.RxAllocates? || b.RxAllocationFails?
      else b.RxLength?
    case RxAllocates(_) => b.RxReads?
    case RxAllocationFails => b.RxLength?
    case RxReads(_) =>
      if Overflows(s.ring.rd, s.ring.wr, p.length) then b.RxResets? && Starts(RxReset(t)) else b.RxSends?
    case RxResets(ok) =>
      if !IsOver(s, RxReset(s.rx), ok) then b.RxResets? && GoesOn(s, RxReset(s.rx), ok, RxReset(t))
      else if p.choice.Some? && p.choice.value.RxReads? then b.RxSends?
      else b.RxLength?
    case RxSends(_) => b.RxLength?
    case _ => false
  }

  /** Over every run, of two actions of the Rx task with none of its own between them the second
      is the one that its loop does next; in particular a failed length and a refused read are
      each followed by a whole reset, and nothing is allocated without the status bit. */
  lemma RxLoop(c: Config, actions: seq<Action>, i: nat, j: nat)
    requires IsRun(c, actions) && i < j < |actions| && IsRx(actions[i]) && IsRx(actions[j])
    requires forall k | i < k < j :: !IsRx(actions[k])
    ensures RxFollows(Exec(c, actions[..i]), RxHistory(actions[..i]), actions[i], Exec(c, actions[..j]).rx, actions[j])
  {
    hide Exec, IsRun, Step, Enabled, RxFollows, RxStands;
    StepAt(c, actions, i);
    StepAt(c, actions, j);
    RxWaits(c, actions, i + 1, j);
    RunPrefix(c, actions, i);
    RxStandsByHistory(c, actions[..i]);
    RxGoesOn(Exec(c, actions[..i]), RxHistory(actions[..i]), actions[i], Exec(c, actions[..j]), actions[j]);
  }

  lemma RxGoesOn(s: State, p: RxPast, a: Action, t: State, b: Action)
    requires Enabled(s, a) && IsRx(a) && Enabled(t, b) && IsRx(b) && t.rx == Step(s, a).rx && RxStands(s.rx, p)
    ensures RxFollows(s, p, a, t.rx, b)
  {
    hide Step, Enabled, RxFollows, RxStands;
    if a.RxResets? {
      RxResetGoesOnAs(s, p, a.ok, t, b);
    } else {
      RxChoiceGoesOn(s, p, a, t, b);
    }
  }

  lemma RxChoiceGoesOn(s: State, p: RxPast, a: Action, t: State, b: Action)
    requires Enabled(s, a) && IsRx(a) && !a.RxResets? && Enabled(t, b) && IsRx(b) && t.rx == Step(s, a).rx && RxStands(s.rx, p)
    ensures RxFollows(s, p, a, t.rx, b)
  {
    hide Contents, Packet, Copied, Written, Payload, Receive, RxResetStep, Overflows, Fits;
  }

  lemma RxResetGoesOnAs(s: State, p: RxPast, ok: bool, t: State, b: Action)
    requires Enabled(s, RxResets(ok)) && Enabled(t, b) && IsRx(b) && t.rx == Step(s, RxResets(ok)).rx && RxStands(s.rx, p)
    ensures RxFollows(s, p, RxResets(ok), t.rx, b)
  {
    hide Turn, Resets.Step, Overflows;
  }

  /** What the Rx task sends is the block it got last, with the length it was told last and the
      eight bytes of the header as its size; after a refused read with the data it held. */
  lemma RxSendsWhatItGot(c: Config, actions: seq<Action>, ok: bool)
    requires IsRun(c, actions)
    ensures var s, p := Exec(c, actions), RxHistory(actions);
            Enabled(s, RxSends(ok)) ==>
              var t := Step(s, RxSends(ok));
              && p.block in t.contents && t.contents[p.block] == Message(p.length + 8, Contents(s, p.block).body)
              && t.contents == s.contents[p.block := t.contents[p.block]]
              && t.pool == (if ok then s.pool.(outQueue := s.pool.outQueue + [p.block])
                            else s.pool.(free := s.pool.free + multiset{p.block}))
  {
    hide IsRun, Exec;
    RxStandsByHistory(c, actions);
  }

  /** A refused read changes neither the ring nor the data of its message, nor any other. */
  lemma RefusedReadKeeps(s: State, d: Damage)
    requires s.rx.RxRead? && Overflows(s.ring.rd, s.ring.wr, s.rx.length)
    ensures var t := Step(s, RxReads(d));
            && t.ring == s.ring && t.pool == s.pool && t.delivered == s.delivered
            && t.contents.Keys == s.contents.Keys + {s.rx.msg}
            && t.contents[s.rx.msg].body == Contents(s, s.rx.msg).body
            && forall b | b in s.contents && b != s.rx.msg :: t.contents[b] == s.contents[b]
  {}

  /** An accepted read that stays inside its message writes the packet to its front, behind that
      bytes from further along the ring if the packet wraps, and nothing else. */
  lemma AcceptedReadWrites(s: State, d: Damage, i: nat)
    requires s.rx.RxRead? && !Overflows(s.ring.rd, s.ring.wr, s.rx.length) && Fits(s.ring.rd, s.rx.length) && i < 72
    ensures var t, n, need := Step(s, RxReads(d)), s.rx.length, DestinationNeed(s.ring.rd, s.rx.length);
            && s.rx.msg in t.contents && t.pool == s.pool
            && t.ring == s.ring.(rd := (s.ring.rd + n) % 100)
            && t.contents == s.contents[s.rx.msg := t.contents[s.rx.msg]]
            && t.contents[s.rx.msg].body[i]
               == if i < n then s.ring.buf[(s.ring.rd + i) % 100]
                  else if i < need then s.ring.buf[s.ring.rd + i - 100]
                  else Contents(s, s.rx.msg).body[i]
  {
    hide Contents, Overflows;
    AcceptedLength(s.ring, s.rx.length);
    assert !Overflows(s.ring.rd, s.ring.wr, s.rx.length);
    hide Packet;
    if s.rx.length <= i {
      MemoryAfterRead(s.ring, s.rx.length, Contents(s, s.rx.msg).body, 0, i);
    } else {
      PacketByte(s.ring, s.rx.length, i);
    }
    assert AfterRead(s.ring, s.rx.length) == s.ring.(rd := (s.ring.rd + s.rx.length) % 100);
  }

  lemma PacketByte(r: Ring, length: nat, i: nat)
    requires ValidRing(r) && i < length <= SIZE
    ensures Written(r, length)[i] == r.buf[(r.rd + i) % SIZE]
  {}

  /** The body of a message is 64 bytes of data and 8 of timestamp: a packet that is not longer
      stays inside it if and only if it does not wrap in the ring, or starts late enough. */
  lemma FitsMeans(rd: int, length: nat)
    requires 0 <= rd < 100 && length <= 72
    ensures Fits(rd, length) <==> rd + length <= 100 || length + 28 <= rd
  {}

  // ----- queues

  /** The blocks that other tasks have sent to the Tx task, in order. */
  function SentToTx(actions: seq<Action>): seq<Block> {
    if actions == [] then []
    else
      var a, before := actions[|actions| - 1], SentToTx(actions[..|actions| - 1]);
      if a.UserSends? then before + [a.b] else before
  }

  /** The blocks that the Tx task has taken, in order. */
  function TakenByTx(c: Config, actions: seq<Action>): seq<Block> {
    if actions == [] then []
    else
      var a, t, before := actions[|actions| - 1], Exec(c, actions).tx, TakenByTx(c, actions[..|actions| - 1]);
      if a.TxTakes? && t.TxPoll? then before + [t.msg] else before
  }

  /** Messages reach the Tx task in the order in which they were sent to it. */
  lemma {:induction false} TxQueueIsFifo(c: Config, actions: seq<Action>)
    requires IsRun(c, actions) && StaysInside(c, actions)
    ensures TakenByTx(c, actions) + Exec(c, actions).pool.txQueue == SentToTx(actions)
  {
    hide Step, Enabled, Inside;
    if actions != [] {
      var before, a := actions[..|actions| - 1], actions[|actions| - 1];
      var s := Exec(c, before);
      TxQueueIsFifo(c, before);
      QueueMoves(s, a);
      if a.TxTakes? {
        assert s.pool.txQueue == [s.pool.txQueue[0]] + s.pool.txQueue[1..];
      }
    }
  }

  lemma QueueMoves(s: State, a: Action)
    requires Enabled(s, a) && Inside(s, a)
    ensures var t := Step(s, a);
            && (a.TxTakes? ==> s.pool.txQueue != [] && t.tx == TxPoll(s.pool.txQueue[0], 0) && t.pool.txQueue == s.pool.txQueue[1..])
            && (a.UserSends? ==> t.pool.txQueue == s.pool.txQueue + [a.b])
            && (!a.TxTakes? && !a.UserSends? ==> t.pool.txQueue == s.pool.txQueue)
  {
    hide StepTx, StepRx;
    if IsTx(a) {
      TxTouches(s, a);
      if a.TxTakes? { TakeStarts(s); }
    } else if !IsUser(a) {
      RxKeepsTxQueue(s, a);
    }
  }

  lemma TakeStarts(s: State)
    requires s.tx.TxTop? && s.pool.txQueue != []
    ensures StepTx(s, TxTakes).tx == TxPoll(s.pool.txQueue[0], 0)
  {
    hide TxBytesOf, Contents;
  }

  lemma RxKeepsTxQueue(s: State, a: Action)
    requires Inside(s, a) && !IsUser(a) && !IsTx(a)
    ensures StepRx(s, a).pool.txQueue == s.pool.txQueue
  {
    hide Contents, Packet, Copied, Written, Payload, Receive, Resets.Step, Resets.IsOn;
  }

  // ----- the ring after a reset

  /** A step of a reset clears the ring's write index, and nothing else of the ring, exactly when
      it has just read the control register for disabling. */
  lemma ResetsTouchRing(s: State, a: Action)
    requires Enabled(s, a) && (a.TxResets? || a.RxResets?)
    ensures Step(s, a).ring == if ClearsIndex(s, a) then s.ring.(wr := 0) else s.ring
  {
    hide Resets.Step, Resets.IsOn;
  }

  /** The step leaves the ring alone but for an arriving byte. */
  predicate OnlyArrivals(s: State, a: Action) { !a.NothingArrives? && !a.RxReads? && !ClearsIndex(s, a) }

  ghost predicate OnlyArrivalsIn(c: Config, actions: seq<Action>, from: nat) {
    from <= |actions| && forall k | from <= k < |actions| :: OnlyArrivals(Exec(c, actions[..k]), actions[k])
  }

  /** The bytes that arrive from action `from` on. */
  function ArrivedFrom(actions: seq<Action>, from: nat): seq<byte> {
    if |actions| <= from then []
    else
      var a, before := actions[|actions| - 1], ArrivedFrom(actions[..|actions| - 1], from);
      if a.Arrives? then before + [a.data] else before
  }

  lemma OthersKeepRing(s: State, a: Action)
    requires Enabled(s, a) && OnlyArrivals(s, a)
    ensures Step(s, a).ring == if a.Arrives? then Receive(s.ring, a.data) else s.ring
  {
    hide Contents, TxBytesOf, TxByteOf, TxLengthOf, Payload, Resets.Step, Resets.IsOn, StepUser, Receive;
    if IsUser(a) { UserKeepsStreams(s, a); }
  }

  lemma {:induction false} RingAfterArrivals(c: Config, actions: seq<Action>, from: nat)
    requires IsRun(c, actions) && OnlyArrivalsIn(c, actions, from)
    ensures Exec(c, actions).ring == ReceiveAll(Exec(c, actions[..from]).ring, ArrivedFrom(actions, from))
    decreases |actions|
  {
    hide Step, Enabled, Receive, OnlyArrivals;
    if |actions| == from {
      assert actions[..from] == actions;
    } else {
      var before, a := actions[..|actions| - 1], actions[|actions| - 1];
      forall k | from <= k < |before| ensures OnlyArrivals(Exec(c, before[..k]), before[k]) {
        assert before[..k] == actions[..k] && before[k] == actions[k];
      }
      RingAfterArrivals(c, before, from);
      assert before[..from] == actions[..from];
      assert OnlyArrivals(Exec(c, actions[..|before|]), actions[|before|]);
      OthersKeepRing(Exec(c, before), a);
      var bytes := ArrivedFrom(before, from);
      assert a.Arrives? ==> (bytes + [a.data])[..|bytes|] == bytes;
    }
  }

  /** What a run of the link reads after a reset.  Action `k` clears the write index; after that
      only bytes arrive, whatever else the tasks do, and then as many are read as arrived.  The
      read delivers them if and only if the ring of the moment before delivers them after a
      disable; it is sure to if read index and pending receive stood right. */
  lemma ReadAfterReset(c: Config, actions: seq<Action>, k: nat, d: Damage)
    requires IsRun(c, actions) && k < |actions| && OnlyArrivalsIn(c, actions, k + 1)
    ensures var before, s, bytes := Exec(c, actions[..k]), Exec(c, actions), ArrivedFrom(actions, k + 1);
            ClearsIndex(before, actions[k]) ==>
              && s.ring == ReceiveAll(before.ring.(wr := 0), bytes)
              && (s.rx.RxRead? && s.rx.length == |bytes| && 1 <= |bytes| <= SIZE ==>
                    && (Delivers(before.ring.(wr := 0), bytes) <==>
                          Step(s, RxReads(d)).rx.RxSend? && Step(s, RxReads(d)).delivered == s.delivered + bytes)
                    && (before.ring.rd == before.ring.slot && (|bytes| == 1 || before.ring.rd == 0) ==>
                          Step(s, RxReads(d)).delivered == s.delivered + bytes))
  {
    hide Step, Enabled, Exec, IsRun, OnlyArrivalsIn, ReceiveAll, Delivers, AlwaysDelivers;
    var before, s, bytes := Exec(c, actions[..k]), Exec(c, actions), ArrivedFrom(actions, k + 1);
    StepAt(c, actions, k);
    RingAfterArrivals(c, actions, k + 1);
    if ClearsIndex(before, actions[k]) {
      ResetsTouchRing(before, actions[k]);
      if s.rx.RxRead? && s.rx.length == |bytes| && 1 <= |bytes| <= SIZE {
        ReadDelivers(s, d, before.ring.(wr := 0), bytes);
        DisableIsSafeIff(before.ring, |bytes|);
        AlwaysIsNow(before.ring.(wr := 0), bytes);
      }
    }
  }

  /** A receive that times out starts again where the write index is.  If that has been cleared
      by then, what arrives next is read back whenever the read index is at zero. */
  lemma ReadAfterTimeout(c: Config, actions: seq<Action>, k: nat, d: Damage)
    requires IsRun(c, actions) && k < |actions| && OnlyArrivalsIn(c, actions, k + 1)
    ensures var before, s, bytes := Exec(c, actions[..k]), Exec(c, actions), ArrivedFrom(actions, k + 1);
            actions[k].NothingArrives? ==>
              && s.ring == ReceiveAll(before.ring.(slot := before.ring.wr), bytes)
              && (before.ring.wr == 0 && before.ring.rd == 0
                  && s.rx.RxRead? && s.rx.length == |bytes| && 1 <= |bytes| <= SIZE ==>
                    Step(s, RxReads(d)).delivered == s.delivered + bytes)
  {
    hide Step, Enabled, Exec, IsRun, OnlyArrivalsIn, ReceiveAll, Delivers, AlwaysDelivers;
    var before, s, bytes := Exec(c, actions[..k]), Exec(c, actions), ArrivedFrom(actions, k + 1);
    StepAt(c, actions, k);
    RingAfterArrivals(c, actions, k + 1);
    if actions[k].NothingArrives? {
      TimeoutRestarts(before);
      var r := before.ring.(slot := before.ring.wr);
      if r.wr == 0 && r.rd == 0 && s.rx.RxRead? && s.rx.length == |bytes| && 1 <= |bytes| <= SIZE {
        ReadDelivers(s, d, r, bytes);
        DeliversIff(r, |bytes|);
        AlwaysIsNow(r, bytes);
      }
    }
  }

  lemma TimeoutRestarts(s: State)
    ensures Step(s, NothingArrives).ring == s.ring.(slot := s.ring.wr)
  {}

  lemma AlwaysIsNow(r: Ring, bytes: seq<byte>)
    requires ValidRing(r)
    ensures AlwaysDelivers(r, |bytes|) ==> Delivers(r, bytes)
  {
    hide Delivers;
  }

  lemma ReadDelivers(s: State, d: Damage, r: Ring, bytes: seq<byte>)
    requires ValidRing(r) && s.ring == ReceiveAll(r, bytes) && s.rx.RxRead? && s.rx.length == |bytes| <= SIZE
    ensures Step(s, RxReads(d)).rx.RxSend? && Step(s, RxReads(d)).delivered == s.delivered + bytes <==> Delivers(r, bytes)
  {
    hide ReceiveAll, Packet, Copied, Written, Contents, Overflows, Fits;
    var packet := Packet(s.ring, |bytes|);
    assert (s.delivered + packet)[|s.delivered|..] == packet && (s.delivered + bytes)[|s.delivered|..] == bytes;
  }
}
