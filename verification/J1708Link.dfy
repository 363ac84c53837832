/** The J1708 Tx and Rx tasks with all they share: the message pool and its queues, the receive
    ring, the registers that both of them reset, and the log of what the FPGA sees.

    A step is one call into the RTOS, one transfer to the FPGA, one byte on the UART in either
    direction, or one of the sixteen steps of a reset; the results the tasks cannot control are
    part of the action.  A byte's way into the ring and the read of a packet from it are one step
    each here; `UartRingSteps` takes them apart.  Both tasks wait while the link is disabled:
    that only removes runs, so it is not modelled. */
module J1708Link {
  import opened UartRing
  import opened FpgaLog
  import Resets = J1708Reset

  type Block = nat

  /** sizeof (MESSAGE_HEADER_STRUCT), the data bytes of an APPLICATION_MESSAGE_T, and the
      timestamp that follows them. */
  const HEADER: nat := 8
  const MAX_DATA: nat := 64
  const TIMESTAMP: nat := 8
  const ROOM: nat := MAX_DATA + TIMESTAMP

  /** What lies behind the header: the data and the timestamp. */
  type Body = d: seq<byte> | |d| == ROOM witness seq(ROOM, _ => 0)

  datatype Message = Message(size: nat, body: Body)

  /** What a sender owes its receivers: a size that covers the header and fits the data. */
  predicate ValidMessage(m: Message) { HEADER <= m.size <= HEADER + MAX_DATA }

  /** The bytes a message's size says it has. */
  function Payload(m: Message): seq<byte> {
    if HEADER <= m.size <= HEADER + ROOM then m.body[..m.size - HEADER] else []
  }

  // ----- the tasks

  datatype Tx =
    | TxTop
    | TxPoll(msg: Block, count: nat)
    | TxFullReset(msg: Block, reset: Resets.Reset) | TxFullFree(msg: Block)
    | TxSend(msg: Block, sent: nat)
    | TxBrokenFree(msg: Block) | TxBrokenReset(reset: Resets.Reset)
    | TxSentFree(msg: Block, length: nat)
    | TxLength(length: nat)
    | TxLengthReset(reset: Resets.Reset)

  datatype Rx =
    | RxTop
    | RxLengthReset(reset: Resets.Reset)
    | RxAllocate(length: nat)
    | RxRead(msg: Block, length: nat)
    | RxFailed(msg: Block, length: nat, reset: Resets.Reset)
    | RxSend(msg: Block, length: nat, packet: Option<seq<byte>>)

  datatype Option<T> = None | Some(value: T)

  datatype Pool = Pool(free: multiset<Block>, txQueue: seq<Block>, outQueue: seq<Block>, users: multiset<Block>)

  type SoundRing = r: Ring | ValidRing(r) witness Ring(seq(SIZE, _ => 0), 0, 0, 0)

  /** `log`, the three streams and the three counters are history; no step depends on them. */
  datatype State = State(
    pool: Pool, contents: map<Block, Message>, ring: SoundRing, regs: Resets.Registers, tx: Tx, rx: Rx,
    log: Log, received: seq<byte>, delivered: seq<byte>, forwarded: seq<byte>,
    txFreed: nat, rxGranted: nat, rxForwarded: nat)

  /** What a read that runs past its message may turn the pool and the other messages into. */
  datatype Damage = Damage(pool: Pool, contents: map<Block, Message>)

  datatype Action =
    | UserAllocates(b: Block) | UserWrites(b: Block, m: Message) | UserSends(b: Block) | UserReceives | UserFrees(b: Block)
    | TxTakes | TxPolls(ok: bool, full: bool) | TxResets(ok: bool) | TxFrees | TxSends | TxEnds(ok: bool) | TxCommits(ok: bool)
    | Arrives(data: byte) | NothingArrives
    | RxLength(ok: bool, status: bool, length: nat) | RxAllocates(b: Block) | RxAllocationFails
    | RxReads(damage: Damage) | RxResets(ok: bool) | RxSends(ok: bool)

  ghost predicate Enabled(s: State, a: Action) {
    match a
    case UserAllocates(b) => b in s.pool.free
    case UserWrites(b, _) => b in s.pool.users
    case UserSends(b) => b in s.pool.users && b in s.contents && ValidMessage(s.contents[b])
    case UserReceives => s.pool.outQueue != []
    case UserFrees(b) => b in s.pool.users
    case TxTakes => s.tx.TxTop? && s.pool.txQueue != []
    case TxPolls(_, _) => s.tx.TxPoll?
    case TxResets(_) => s.tx.TxFullReset? || s.tx.TxBrokenReset? || s.tx.TxLengthReset?
    case TxFrees => s.tx.TxFullFree? || s.tx.TxBrokenFree? || s.tx.TxSentFree?
    case TxSends => s.tx.TxSend? && s.tx.sent < TxLengthOf(Contents(s, s.tx.msg))
    case TxEnds(ok) => s.tx.TxSend? && (ok ==> s.tx.sent == TxLengthOf(Contents(s, s.tx.msg)))
    case TxCommits(_) => s.tx.TxLength?
    case Arrives(_) => true
    case NothingArrives => true
    case RxLength(_, _, length) => s.rx.RxTop? && length < 256
    case RxAllocates(b) => s.rx.RxAllocate? && b in s.pool.free
    case RxAllocationFails => s.rx.RxAllocate?
    case RxReads(_) => s.rx.RxRead?
    case RxResets(_) => s.rx.RxLengthReset? || s.rx.RxFailed?
    case RxSends(_) => s.rx.RxSend?
  }

  function Contents(s: State, b: Block): Message {
    if b in s.contents then s.contents[b] else Message(0, seq(ROOM, _ => 0))
  }

  /** The Tx task's 8-bit length, and the bytes it hands to the UART. */
  function TxLengthOf(m: Message): nat { (m.size - HEADER) % 256 }
  function TxByteOf(m: Message, i: nat): byte { if i < ROOM then m.body[i] else 0 }
  function TxBytesOf(m: Message): seq<byte> { seq(TxLengthOf(m), i requires 0 <= i => TxByteOf(m, i)) }

  function Frees(p: Pool, b: Block): Pool { p.(free := p.free + multiset{b}) }

  function StepUser(s: State, a: Action): State {
    var p := s.pool;
    match a
    case UserAllocates(b) => s.(pool := p.(free := p.free - multiset{b}, users := p.users + multiset{b}))
    case UserWrites(b, m) => s.(contents := s.contents[b := m])
    case UserSends(b) => s.(pool := p.(users := p.users - multiset{b}, txQueue := p.txQueue + [b]))
    case UserReceives =>
      if p.outQueue == [] then s
      else s.(pool := p.(outQueue := p.outQueue[1..], users := p.users + multiset{p.outQueue[0]}))
    case UserFrees(b) => s.(pool := Frees(p.(users := p.users - multiset{b}), b))
    case _ => s
  }

  // ----- a reset, one step at a time

  predicate WritesControl(pc: nat) { pc == 4 || pc == 10 || pc == 12 }

  /** The step of the registers.  Reading the control register for disabling is followed by
      clearing the ring's write index; a write of the control register reaches the FPGA. */
  function Turn(s: State, p: Resets.Reset, ok: bool): State {
    var regs := Resets.Step(s.regs, p, ok).regs;
    s.(regs := regs,
       ring := if p.pc == 3 && ok then AfterDisable(s.ring) else s.ring,
       log := if WritesControl(p.pc) && ok then s.log + [Control(Resets.IsOn(regs.control))] else s.log)
  }

  function Next(s: State, p: Resets.Reset, ok: bool): Resets.Reset { Resets.Step(s.regs, p, ok).reset }

  // ----- the Tx task

  function Take(s: State): State {
    if s.tx.TxTop? && s.pool.txQueue != [] then
      var b := s.pool.txQueue[0];
      s.(pool := s.pool.(txQueue := s.pool.txQueue[1..]), tx := TxPoll(b, 0),
         log := s.log + [Taken(TxBytesOf(Contents(s, b)))])
    else s
  }

  /** A poll succeeds if the register could be read and its flag says not full. */
  function Poll(s: State, ok: bool, full: bool): State {
    if s.tx.TxPoll? then
      var b, next := s.tx.msg, s.tx.count + 1;
      s.(tx := if ok && !full then TxSend(b, 0)
               else if next >= MAX_POLLS then TxFullReset(b, Resets.Begin()) else TxPoll(b, next),
         log := s.log + [Polled(ok, full)])
    else s
  }

  function TxResetStep(s: State, ok: bool): State {
    match s.tx
    case TxFullReset(b, p) =>
      var q := Next(s, p, ok);
      Turn(s, p, ok).(tx := if q.pc < Resets.LAST then TxFullReset(b, q) else TxFullFree(b))
    case TxBrokenReset(p) =>
      var q := Next(s, p, ok);
      Turn(s, p, ok).(tx := if q.pc < Resets.LAST then TxBrokenReset(q) else TxTop)
    case TxLengthReset(p) =>
      var q := Next(s, p, ok);
      Turn(s, p, ok).(tx := if q.pc < Resets.LAST then TxLengthReset(q) else TxTop)
    case _ => s
  }

  function FreeMessage(s: State): State {
    match s.tx
    case TxFullFree(b) => s.(tx := TxTop, pool := Frees(s.pool, b), txFreed := s.txFreed + 1)
    case TxBrokenFree(b) => s.(tx := TxBrokenReset(Resets.Begin()), pool := Frees(s.pool, b), txFreed := s.txFreed + 1)
    case TxSentFree(b, length) => s.(tx := TxLength(length), pool := Frees(s.pool, b), txFreed := s.txFreed + 1)
    case _ => s
  }

  function SendByte(s: State): State {
    if s.tx.TxSend? then
      s.(tx := s.tx.(sent := s.tx.sent + 1), log := s.log + [Sent(TxByteOf(Contents(s, s.tx.msg), s.tx.sent))])
    else s
  }

  /** The UART call ends when all bytes are out, or before that with an error. */
  function EndSending(s: State, ok: bool): State {
    if s.tx.TxSend? then
      var b := s.tx.msg;
      s.(tx := if ok then TxSentFree(b, TxLengthOf(Contents(s, b))) else TxBrokenFree(b), log := s.log + [Ended(ok)])
    else s
  }

  function WriteLength(s: State, ok: bool): State {
    if s.tx.TxLength? then
      if ok then s.(tx := TxTop, log := s.log + [Length(s.tx.length)])
      else s.(tx := TxLengthReset(Resets.Begin()), log := s.log + [LengthFailed])
    else s
  }

  function StepTx(s: State, a: Action): State {
    match a
    case TxTakes => Take(s)
    case TxPolls(ok, full) => Poll(s, ok, full)
    case TxResets(ok) => TxResetStep(s, ok)
    case TxFrees => FreeMessage(s)
    case TxSends => SendByte(s)
    case TxEnds(ok) => EndSending(s, ok)
    case TxCommits(ok) => WriteLength(s, ok)
    case _ => s
  }

  // ----- the Rx task and the ring

  /** The read stays inside the message it was given. */
  predicate Fits(rd: int, length: int) { DestinationNeed(rd, length) <= ROOM }

  /** A read that does not fit changes whatever lies behind the message. */
  function ReadPacket(s: State, d: Damage): State {
    if s.rx.RxRead? then
      var b, length := s.rx.msg, s.rx.length;
      var body := Contents(s, b).body;
      if Overflows(s.ring.rd, s.ring.wr, length) then
        s.(rx := RxFailed(b, length, Resets.Begin()), contents := s.contents[b := Message(length, body)])
      else
        AcceptedLength(s.ring, length);
        var packet := Packet(s.ring, length);
        var t := s.(rx := RxSend(b, length, Some(packet)), ring := AfterRead(s.ring, length), delivered := s.delivered + packet);
        if Fits(s.ring.rd, length)
        then t.(contents := s.contents[b := Message(length, Copied(body, 0, Written(s.ring, length)))])
        else t.(pool := d.pool, contents := d.contents)
    else s
  }

  function RxResetStep(s: State, ok: bool): State {
    match s.rx
    case RxLengthReset(p) =>
      var q := Next(s, p, ok);
      Turn(s, p, ok).(rx := if q.pc < Resets.LAST then RxLengthReset(q) else RxTop)
    case RxFailed(b, length, p) =>
      var q := Next(s, p, ok);
      Turn(s, p, ok).(rx := if q.pc < Resets.LAST then RxFailed(b, length, q) else RxSend(b, length, None))
    case _ => s
  }

  /** After a failed read the link is reset and the message is sent all the same.  A send that
      fails has freed the message. */
  function SendMessage(s: State, ok: bool): State {
    if s.rx.RxSend? then
      var b := s.rx.msg;
      var m := Message(s.rx.length + HEADER, Contents(s, b).body);
      var t := s.(rx := RxTop, contents := s.contents[b := m], rxForwarded := s.rxForwarded + 1,
                  forwarded := if s.rx.packet.Some? then s.forwarded + Payload(m) else s.forwarded);
      if ok then t.(pool := s.pool.(outQueue := s.pool.outQueue + [b])) else t.(pool := Frees(s.pool, b))
    else s
  }

  function StepRx(s: State, a: Action): State {
    match a
    case Arrives(data) => s.(ring := Receive(s.ring, data), received := s.received + [data])
    case NothingArrives => s.(ring := AfterTimeout(s.ring))
    case RxLength(ok, status, length) =>
      if !s.rx.RxTop? then s
      else if !ok then s.(rx := RxLengthReset(Resets.Begin()))
      else if status then s.(rx := RxAllocate(length))
      else s
    case RxAllocates(b) =>
      if s.rx.RxAllocate? then
        s.(rx := RxRead(b, s.rx.length), pool := s.pool.(free := s.pool.free - multiset{b}), rxGranted := s.rxGranted + 1)
      else s
    case RxAllocationFails => if s.rx.RxAllocate? then s.(rx := RxTop) else s
    case RxReads(damage) => ReadPacket(s, damage)
    case RxResets(ok) => RxResetStep(s, ok)
    case RxSends(ok) => SendMessage(s, ok)
    case _ => s
  }

  predicate IsUser(a: Action) {
    a.UserAllocates? || a.UserWrites? || a.UserSends? || a.UserReceives? || a.UserFrees?
  }

  predicate IsTx(a: Action) {
    a.TxTakes? || a.TxPolls? || a.TxResets? || a.TxFrees? || a.TxSends? || a.TxEnds? || a.TxCommits?
  }

  function Step(s: State, a: Action): State {
    if IsUser(a) then StepUser(s, a) else if IsTx(a) then StepTx(s, a) else StepRx(s, a)
  }

  // ----- runs

  /** The blocks of the pool, and the registers at the start. */
  datatype Config = Config(blocks: set<Block>, regs: Resets.Registers)

  function Start(c: Config): State {
    State(Pool(multiset(c.blocks), [], [], multiset{}), map[], Ring(seq(SIZE, _ => 0), 0, 0, 0), c.regs, TxTop, RxTop,
          [Control(Resets.IsOn(c.regs.control))], [], [], [], 0, 0, 0)
  }

  function Exec(c: Config, actions: seq<Action>): State {
    if actions == [] then Start(c) else Step(Exec(c, actions[..|actions| - 1]), actions[|actions| - 1])
  }

  ghost predicate IsRun(c: Config, actions: seq<Action>) {
    actions == [] ||
    (IsRun(c, actions[..|actions| - 1]) && Enabled(Exec(c, actions[..|actions| - 1]), actions[|actions| - 1]))
  }

  /** A read that is accepted stays inside its message. */
  predicate Inside(s: State, a: Action) {
    a.RxReads? && s.rx.RxRead? && !Overflows(s.ring.rd, s.ring.wr, s.rx.length) ==> Fits(s.ring.rd, s.rx.length)
  }

  ghost predicate StaysInside(c: Config, actions: seq<Action>) {
    actions == [] ||
    (StaysInside(c, actions[..|actions| - 1]) && Inside(Exec(c, actions[..|actions| - 1]), actions[|actions| - 1]))
  }

  // ----- every block is in one place

  function TxHolds(t: Tx): multiset<Block> {
    match t
    case TxPoll(b, _) => multiset{b}
    case TxFullReset(b, _) => multiset{b}
    case TxFullFree(b) => multiset{b}
    case TxSend(b, _) => multiset{b}
    case TxBrokenFree(b) => multiset{b}
    case TxSentFree(b, _) => multiset{b}
    case _ => multiset{}
  }

  function RxHolds(r: Rx): multiset<Block> {
    match r
    case RxRead(b, _) => multiset{b}
    case RxFailed(b, _, _) => multiset{b}
    case RxSend(b, _, _) => multiset{b}
    case _ => multiset{}
  }

  /** The blocks outside the two tasks. */
  function Outside(p: Pool): multiset<Block> {
    p.free + multiset(p.txQueue) + (multiset(p.outQueue) + p.users)
  }

  function Places(s: State): multiset<Block> {
    Outside(s.pool) + TxHolds(s.tx) + RxHolds(s.rx)
  }

  lemma QueueHead(q: seq<Block>)
    requires q != []
    ensures multiset(q) == multiset(q[1..]) + multiset{q[0]}
  {
    assert q == [q[0]] + q[1..];
  }

  lemma UserConserves(s: State, a: Action)
    requires Enabled(s, a) && IsUser(a)
    ensures Places(StepUser(s, a)) == Places(s)
  {
    hide StepUser, TxHolds, RxHolds, ValidMessage;
    UserMoves(s, a);
    forall b: Block ensures Places(StepUser(s, a))[b] == Places(s)[b] {}
  }

  lemma UserMoves(s: State, a: Action)
    requires Enabled(s, a) && IsUser(a)
    ensures var t := StepUser(s, a); t.tx == s.tx && t.rx == s.rx && Outside(t.pool) == Outside(s.pool)
  {
    hide ValidMessage, Outside, Contents;
    var p, t := s.pool, StepUser(s, a);
    match a
    case UserAllocates(b) => AllocateMoves(p, b);
    case UserWrites(_, _) =>
    case UserSends(b) => PassOnMoves(p, b);
    case UserReceives => ReceiveMoves(p);
    case UserFrees(b) => ReleaseMoves(p, b);
  }

  lemma AllocateMoves(p: Pool, b: Block)
    requires b in p.free
    ensures Outside(p.(free := p.free - multiset{b}, users := p.users + multiset{b})) == Outside(p)
  {}

  lemma PassOnMoves(p: Pool, b: Block)
    requires b in p.users
    ensures Outside(p.(users := p.users - multiset{b}, txQueue := p.txQueue + [b])) == Outside(p)
  {}

  lemma ReceiveMoves(p: Pool)
    requires p.outQueue != []
    ensures Outside(p.(outQueue := p.outQueue[1..], users := p.users + multiset{p.outQueue[0]})) == Outside(p)
  {
    QueueHead(p.outQueue);
  }

  lemma ReleaseMoves(p: Pool, b: Block)
    requires b in p.users
    ensures Outside(Frees(p.(users := p.users - multiset{b}), b)) == Outside(p)
  {}

  lemma TxConserves(s: State, a: Action)
    requires Enabled(s, a) && IsTx(a)
    ensures Places(StepTx(s, a)) == Places(s)
  {
    hide StepTx, TxHolds, RxHolds, Enabled;
    if a.TxTakes? {
      TakeMoves(s);
      QueueHead(s.pool.txQueue);
    } else if a.TxFrees? {
      FreeMoves(s);
    } else {
      OnlyMoves(s, a);
    }
  }

  lemma TakeMoves(s: State)
    requires Enabled(s, TxTakes)
    ensures var t := StepTx(s, TxTakes);
            && s.pool.txQueue != []
            && t.pool == s.pool.(txQueue := s.pool.txQueue[1..]) && t.rx == s.rx
            && TxHolds(s.tx) == multiset{} && TxHolds(t.tx) == multiset{s.pool.txQueue[0]}
  {
    hide Contents, TxBytesOf;
  }

  lemma FreeMoves(s: State)
    requires Enabled(s, TxFrees)
    ensures var t := StepTx(s, TxFrees);
            && t.pool == s.pool.(free := s.pool.free + TxHolds(s.tx)) && t.rx == s.rx
            && TxHolds(t.tx) == multiset{}
  {
    hide FreeMessage;
    FreeIs(s);
  }

  lemma FreeIs(s: State)
    requires s.tx.TxFullFree? || s.tx.TxBrokenFree? || s.tx.TxSentFree?
    ensures var t := FreeMessage(s);
            && t.pool == Frees(s.pool, s.tx.msg) && t.rx == s.rx
            && TxHolds(s.tx) == multiset{s.tx.msg} && TxHolds(t.tx) == multiset{}
  {}

  /** The Tx task moves on with the block it holds, if any. */
  predicate Keeps(s: State, t: State) {
    t.pool == s.pool && TxHolds(t.tx) == TxHolds(s.tx) && t.rx == s.rx
  }

  lemma PollMoves(s: State, ok: bool, full: bool)
    ensures Keeps(s, Poll(s, ok, full))
  {}

  lemma SendMoves(s: State)
    ensures Keeps(s, SendByte(s))
  {
    hide Contents, TxByteOf;
  }

  lemma EndMoves(s: State, ok: bool)
    ensures Keeps(s, EndSending(s, ok))
  {
    hide Contents, TxLengthOf;
  }

  lemma LengthMoves(s: State, ok: bool)
    ensures Keeps(s, WriteLength(s, ok))
  {}

  lemma OnlyMoves(s: State, a: Action)
    requires Enabled(s, a) && IsTx(a) && !a.TxTakes? && !a.TxFrees?
    ensures Keeps(s, StepTx(s, a))
  {
    hide Keeps, TxResetStep, Take, FreeMessage, Poll, SendByte, EndSending, WriteLength, Contents, TxLengthOf;
    match a
    case TxPolls(ok, full) => PollMoves(s, ok, full);
    case TxResets(ok) => TxResetMoves(s, ok);
    case TxSends => SendMoves(s);
    case TxEnds(ok) => EndMoves(s, ok);
    case TxCommits(ok) => LengthMoves(s, ok);
  }

  lemma TxResetMoves(s: State, ok: bool)
    requires Enabled(s, TxResets(ok))
    ensures Keeps(s, TxResetStep(s, ok))
  {
    hide Turn, TxResetStep;
    TxResetIs(s, ok);
    TurnTouches(s, s.tx.reset, ok);
  }

  lemma RxConserves(s: State, a: Action)
    requires Enabled(s, a) && Inside(s, a) && !IsUser(a) && !IsTx(a)
    ensures Places(StepRx(s, a)) == Places(s)
  {
    if a.RxAllocates? {
      RxAllocateMoves(s, a.b);
    } else if a.RxSends? {
      RxSendMoves(s, a.ok);
    } else {
      RxOnlyMoves(s, a);
    }
  }

  lemma RxAllocateMoves(s: State, b: Block)
    requires Enabled(s, RxAllocates(b))
    ensures Places(StepRx(s, RxAllocates(b))) == Places(s)
  {
    hide TxHolds, Outside;
    TakeOut(s.pool, b);
  }

  lemma TakeOut(p: Pool, b: Block)
    requires b in p.free
    ensures Outside(p.(free := p.free - multiset{b})) + multiset{b} == Outside(p)
  {}

  lemma RxSendMoves(s: State, ok: bool)
    requires Enabled(s, RxSends(ok))
    ensures Places(StepRx(s, RxSends(ok))) == Places(s)
  {
    hide TxHolds, Contents, StepRx, Payload, Outside;
    var b, t := s.rx.msg, StepRx(s, RxSends(ok));
    RxSendPool(s, ok);
    PutBack(s.pool, b);
  }

  lemma RxSendPool(s: State, ok: bool)
    requires s.rx.RxSend?
    ensures var t := StepRx(s, RxSends(ok));
            t.tx == s.tx && t.rx == RxTop
            && t.pool == if ok then s.pool.(outQueue := s.pool.outQueue + [s.rx.msg]) else Frees(s.pool, s.rx.msg)
  {}

  lemma PutBack(p: Pool, b: Block)
    ensures Outside(p.(outQueue := p.outQueue + [b])) == Outside(p) + multiset{b}
    ensures Outside(Frees(p, b)) == Outside(p) + multiset{b}
  {}

  lemma RxOnlyMoves(s: State, a: Action)
    requires Enabled(s, a) && Inside(s, a) && !IsUser(a) && !IsTx(a) && !a.RxAllocates? && !a.RxSends?
    ensures Places(StepRx(s, a)) == Places(s)
  {
    hide TxHolds, StepRx, Contents;
    RxStaysPut(s, a);
  }

  /** The remaining steps only move the Rx task along, with the block it holds. */
  lemma RxStaysPut(s: State, a: Action)
    requires Enabled(s, a) && Inside(s, a) && !IsUser(a) && !IsTx(a) && !a.RxAllocates? && !a.RxSends?
    ensures RxKeeps(s, StepRx(s, a))
  {
    hide TxHolds, Contents, SendMessage, RxResetStep, Packet, Written, Copied, Overflows, Fits, Receive;
    match a
    case Arrives(_) =>
    case NothingArrives =>
    case RxLength(_, _, _) =>
    case RxAllocationFails =>
    case RxReads(_) =>
    case RxResets(ok) => RxResetKeeps(s, ok);
  }

  predicate RxKeeps(s: State, t: State) { t.pool == s.pool && t.tx == s.tx && RxHolds(t.rx) == RxHolds(s.rx) }

  lemma RxResetKeeps(s: State, ok: bool)
    ensures RxKeeps(s, RxResetStep(s, ok))
  {
    hide Resets.Step;
  }

  /** No step creates, loses or duplicates a block. */
  lemma StepConserves(s: State, a: Action)
    requires Enabled(s, a) && Inside(s, a)
    ensures Places(Step(s, a)) == Places(s)
  {
    hide StepUser, StepTx, StepRx, Places, Enabled, Inside;
    if IsUser(a) {
      UserConserves(s, a);
    } else if IsTx(a) {
      TxConserves(s, a);
    } else {
      RxConserves(s, a);
    }
  }

  lemma {:induction false} RunsConserve(c: Config, actions: seq<Action>)
    requires IsRun(c, actions) && StaysInside(c, actions)
    ensures Places(Exec(c, actions)) == multiset(c.blocks)
  {
    hide Step, Enabled, Inside;
    if actions != [] {
      RunsConserve(c, actions[..|actions| - 1]);
      StepConserves(Exec(c, actions[..|actions| - 1]), actions[|actions| - 1]);
    }
  }

  /** In every reachable state each block of the pool is in exactly one of: the free list, one
      of the queues, the other tasks, the Tx task, the Rx task. */
  lemma ExactlyOnePlace(c: Config, actions: seq<Action>, b: Block)
    requires IsRun(c, actions) && StaysInside(c, actions)
    ensures var s := Exec(c, actions);
            s.pool.free[b] + multiset(s.pool.txQueue)[b] + multiset(s.pool.outQueue)[b] + s.pool.users[b]
              + TxHolds(s.tx)[b] + RxHolds(s.rx)[b] == if b in c.blocks then 1 else 0
  {
    RunsConserve(c, actions);
    assert multiset(c.blocks)[b] == if b in c.blocks then 1 else 0;
  }

  // ----- what the Tx task sends

  /** Every length written so far was that of a message, whose bytes had all been sent since it
      was taken; messages come in order and none twice. */
  ghost predicate Framed(log: Log) {
    var v := Observe(log);
    && v.disciplined
    && (forall k | 0 <= k < |v.records| :: Complete(v, v.records[k]) && Clean(log, v.records[k].first))
    && (forall j, k | 0 <= j < k < |v.records| :: v.records[j].source < v.records[k].source)
  }

  ghost predicate Complete(v: View, r: Record) {
    0 <= r.source < |v.takes| && r.sent == v.takes[r.source] && r.length == |r.sent|
  }

  /** The message taken last has not been committed yet, and nothing but leftovers came before
      its first byte. */
  ghost predicate UnderWay(log: Log) {
    var v := Observe(log);
    && v.takes != [] && (forall k | 0 <= k < |v.records| :: v.records[k].source < |v.takes| - 1)
    && Clean(log, v.first)
  }

  /** The payload of the message taken last. */
  function LastTaken(v: View): seq<byte> { if v.takes == [] then [] else v.takes[|v.takes| - 1] }

  ghost predicate Loaded(s: State, b: Block) {
    b in s.contents && ValidMessage(s.contents[b]) && Payload(s.contents[b]) == LastTaken(Observe(s.log))
  }

  /** What holds of the log at each point of the Tx loop. */
  ghost predicate TxInv(s: State) {
    var v := Observe(s.log);
    && Framed(s.log)
    && |v.takes| == s.txFreed + |TxHolds(s.tx)|
    && match s.tx
       case TxPoll(b, count) => UnderWay(s.log) && Loaded(s, b) && v.sent == [] && v.polls == count < MAX_POLLS
       case TxSend(b, sent) =>
         UnderWay(s.log) && Loaded(s, b) && v.clear && v.polls <= MAX_POLLS
         && sent <= |LastTaken(v)| && v.sent == LastTaken(v)[..sent]
       case TxSentFree(_, length) => UnderWay(s.log) && v.sent == LastTaken(v) && length == |v.sent|
       case TxLength(length) => UnderWay(s.log) && v.sent == LastTaken(v) && length == |v.sent|
       case _ => Clean(s.log, |s.log|)
  }

  lemma FramedLater(log: Log, e: Event)
    requires Framed(log) && !e.Length? && (e.Sent? ==> Observe(log).clear && Observe(log).polls <= MAX_POLLS)
    ensures Framed(log + [e])
  {
    hide Clean;
    ObserveNext(log, e);
    var v, w := Observe(log), Observe(log + [e]);
    forall k | 0 <= k < |w.records| ensures Complete(w, w.records[k]) && Clean(log + [e], w.records[k].first) {
      assert Complete(v, v.records[k]);
      CleanLater(log, e, v.records[k].first);
    }
  }

  lemma FramedLength(log: Log)
    requires Framed(log) && UnderWay(log) && Observe(log).sent == LastTaken(Observe(log))
    ensures Framed(log + [Length(|Observe(log).sent|)])
  {
    hide Clean;
    var v, e := Observe(log), Length(|Observe(log).sent|);
    CurrentIs(log);
    ObserveNext(log, e);
    var w := Observe(log + [e]);
    forall k | 0 <= k < |w.records| ensures Complete(w, w.records[k]) && Clean(log + [e], w.records[k].first) {
      if k < |v.records| {
        assert Complete(v, v.records[k]);
        CleanLater(log, e, v.records[k].first);
      } else {
        CleanLater(log, e, v.first);
      }
    }
  }

  /** A message stays under way through everything but its end. */
  lemma StaysUnderWay(log: Log, e: Event)
    requires UnderWay(log) && !e.Taken? && !e.Length?
    ensures UnderWay(log + [e])
  {
    hide Clean;
    CurrentIs(log);
    ObserveNext(log, e);
    CleanLater(log, e, Observe(log).first);
    if Observe(log).sent == [] && !e.Sent? {
      CleanNext(log, e);
    }
  }

  lemma StartsUnderWay(log: Log, p: seq<byte>)
    requires Framed(log) && Clean(log, |log|)
    ensures UnderWay(log + [Taken(p)])
  {
    hide Clean;
    ObserveNext(log, Taken(p));
    CleanNext(log, Taken(p));
    var v := Observe(log);
    forall k | 0 <= k < |v.records| ensures v.records[k].source < |v.takes| {
      assert Complete(v, v.records[k]);
    }
  }

  /** A block sits in at most one place, so a task that holds it is alone with it. */
  ghost predicate Exclusive(s: State) { forall b :: Places(s)[b] <= 1 }

  lemma UserIsAlone(s: State, b: Block)
    requires Exclusive(s) && b in s.pool.users
    ensures b !in s.pool.txQueue && b !in TxHolds(s.tx) && b !in RxHolds(s.rx)
  {
    assert Places(s)[b] <= 1;
    assert b in s.pool.txQueue ==> b in multiset(s.pool.txQueue);
  }

  lemma RxIsAlone(s: State, b: Block)
    requires Exclusive(s) && b in RxHolds(s.rx)
    ensures b !in s.pool.txQueue && b !in TxHolds(s.tx)
  {
    assert Places(s)[b] <= 1;
    assert b in s.pool.txQueue ==> b in multiset(s.pool.txQueue);
  }

  ghost predicate QueueInv(s: State) {
    forall b | b in s.pool.txQueue :: b in s.contents && ValidMessage(s.contents[b])
  }

  /** The 8-bit length of a valid message is its payload's length. */
  lemma LengthFits(m: Message)
    requires ValidMessage(m)
    ensures TxLengthOf(m) == |Payload(m)| && TxBytesOf(m) == Payload(m)
    ensures forall i | 0 <= i < |Payload(m)| :: TxByteOf(m, i) == Payload(m)[i]
  {}

  // ----- the Tx loop keeps its invariant

  lemma TakeKeeps(s: State)
    requires TxInv(s) && QueueInv(s) && Enabled(s, TxTakes)
    ensures TxInv(Take(s))
  {
    hide Framed, Clean, TxBytesOf, Payload, ValidMessage, UnderWay;
    var b := s.pool.txQueue[0];
    var e := Taken(TxBytesOf(Contents(s, b)));
    LengthFits(s.contents[b]);
    ObserveNext(s.log, e);
    FramedLater(s.log, e);
    StartsUnderWay(s.log, e.payload);
  }

  lemma PollKeeps(s: State, ok: bool, full: bool)
    requires TxInv(s) && s.tx.TxPoll?
    ensures TxInv(Poll(s, ok, full))
  {
    hide Framed, Clean, Payload, ValidMessage, UnderWay, Observe;
    var e := Polled(ok, full);
    PollObserved(s.log, ok, full);
    FramedLater(s.log, e);
    StaysUnderWay(s.log, e);
    IdleIsClean(s.log + [e]);
  }

  lemma PollObserved(log: Log, ok: bool, full: bool)
    ensures var v, w := Observe(log), Observe(log + [Polled(ok, full)]);
            w == v.(first := w.first, polls := v.polls + 1, clear := ok && !full)
  {
    ObserveNext(log, Polled(ok, full));
  }

  /** While nothing of a message has been sent, its first byte is still to come. */
  lemma IdleIsClean(log: Log)
    requires UnderWay(log) && Observe(log).sent == []
    ensures Clean(log, |log|)
  {
    CurrentIs(log);
  }

  lemma FreeKeeps(s: State)
    requires TxInv(s) && Enabled(s, TxFrees)
    ensures TxInv(FreeMessage(s))
  {
    hide Framed, Clean, UnderWay, Observe;
  }

  lemma SendKeeps(s: State)
    requires TxInv(s) && s.tx.TxSend? && s.tx.sent < TxLengthOf(Contents(s, s.tx.msg))
    ensures TxInv(SendByte(s))
  {
    hide Framed, Clean, Payload, ValidMessage, TxByteOf, TxLengthOf, UnderWay;
    var m := s.contents[s.tx.msg];
    var e := Sent(TxByteOf(m, s.tx.sent));
    LengthFits(m);
    ObserveNext(s.log, e);
    FramedLater(s.log, e);
    StaysUnderWay(s.log, e);
    OneByteMore(LastTaken(Observe(s.log)), s.tx.sent);
    hide Observe, Hear, Heard;
  }

  lemma OneByteMore(message: seq<byte>, i: nat)
    requires i < |message|
    ensures message[..i] + [message[i]] == message[..i + 1]
  {}

  lemma EndKeeps(s: State, ok: bool)
    requires TxInv(s) && s.tx.TxSend? && (ok ==> s.tx.sent == TxLengthOf(Contents(s, s.tx.msg)))
    ensures TxInv(EndSending(s, ok))
  {
    hide Framed, Clean, Payload, ValidMessage, TxLengthOf, UnderWay, Observe;
    var e := Ended(ok);
    LengthFits(s.contents[s.tx.msg]);
    EndObserved(s.log, ok);
    FramedLater(s.log, e);
    if ok {
      StaysUnderWay(s.log, e);
    } else {
      CleanGivenUp(s.log, e);
    }
  }

  lemma EndObserved(log: Log, ok: bool)
    ensures var v, w := Observe(log), Observe(log + [Ended(ok)]); w.takes == v.takes && w.sent == v.sent
  {
    ObserveNext(log, Ended(ok));
  }

  lemma CommitKeeps(s: State, ok: bool)
    requires TxInv(s) && s.tx.TxLength?
    ensures TxInv(WriteLength(s, ok))
  {
    hide Framed, Clean, UnderWay;
    var e := if ok then Length(s.tx.length) else LengthFailed;
    ObserveNext(s.log, e);
    if ok {
      FramedLength(s.log);
      CleanLength(s.log, s.tx.length);
    } else {
      FramedLater(s.log, e);
      CleanGivenUp(s.log, e);
    }
  }

  lemma CleanLength(log: Log, n: nat)
    ensures Clean(log + [Length(n)], |log| + 1)
  {
    HeardNext(log, Length(n));
    assert (log + [Length(n)])[..|log| + 1] == log + [Length(n)];
  }

  /** A write of the control register, by either task, at any moment. */
  lemma ControlKeeps(s: State, on: bool)
    requires TxInv(s)
    ensures TxInv(s.(log := s.log + [Control(on)]))
  {
    hide Framed, Clean, UnderWay, Payload, ValidMessage, Observe;
    var e := Control(on);
    ControlObserved(s.log, on);
    FramedLater(s.log, e);
    if Clean(s.log, |s.log|) { CleanNext(s.log, e); }
    if UnderWay(s.log) { StaysUnderWay(s.log, e); }
  }

  lemma ControlObserved(log: Log, on: bool)
    ensures var v, w := Observe(log), Observe(log + [Control(on)]); w == v.(first := w.first)
  {
    ObserveNext(log, Control(on));
  }

  /** Steps of other tasks do not reach the Tx task's message. */
  lemma OthersKeepTx(s: State, t: State)
    requires TxInv(s) && t.log == s.log && t.tx == s.tx && t.txFreed == s.txFreed
    requires forall b | b in TxHolds(s.tx) && b in s.contents :: b in t.contents && t.contents[b] == s.contents[b]
    ensures TxInv(t)
  {
    hide Observe, Framed, Clean, UnderWay;
  }

  lemma TurnKeeps(s: State, p: Resets.Reset, ok: bool)
    requires TxInv(s)
    ensures TxInv(Turn(s, p, ok))
  {
    hide TxInv, Resets.Step;
    var t := Turn(s, p, ok);
    if t.log == s.log {
      OthersKeepTx(s, t);
    } else {
      var on := Resets.IsOn(t.regs.control);
      ControlKeeps(s, on);
      OthersKeepTx(s.(log := s.log + [Control(on)]), t);
    }
  }

  predicate NoMessageUnderWay(t: Tx) { !t.TxPoll? && !t.TxSend? && !t.TxSentFree? && !t.TxLength? }

  lemma MovesOn(s: State, next: Tx)
    requires TxInv(s) && NoMessageUnderWay(s.tx) && NoMessageUnderWay(next) && TxHolds(next) == TxHolds(s.tx)
    ensures TxInv(s.(tx := next))
  {
    hide Framed, Clean, Observe;
  }

  lemma ResetKeeps(s: State, ok: bool)
    requires TxInv(s) && Enabled(s, TxResets(ok))
    ensures TxInv(TxResetStep(s, ok))
  {
    hide TxInv, Turn, Next, TxResetStep;
    var t := Turn(s, s.tx.reset, ok);
    TurnKeeps(s, s.tx.reset, ok);
    TurnTouches(s, s.tx.reset, ok);
    TxResetIs(s, ok);
    MovesOn(t, TxResetStep(s, ok).tx);
  }

  /** A step of a reset by the Tx task, on the task itself. */
  lemma TxResetIs(s: State, ok: bool)
    requires Enabled(s, TxResets(ok))
    ensures var t := TxResetStep(s, ok);
            && t == Turn(s, s.tx.reset, ok).(tx := t.tx)
            && NoMessageUnderWay(s.tx) && NoMessageUnderWay(t.tx) && TxHolds(t.tx) == TxHolds(s.tx)
  {
    hide Turn, Next;
  }

  lemma TurnTouches(s: State, p: Resets.Reset, ok: bool)
    ensures var t := Turn(s, p, ok);
            t == s.(regs := t.regs, ring := t.ring, log := t.log)
  {
    hide Resets.Step;
  }

  lemma TxStepKeepsTx(s: State, a: Action)
    requires TxInv(s) && QueueInv(s) && Enabled(s, a) && IsTx(a)
    ensures TxInv(StepTx(s, a))
  {
    hide TxInv, QueueInv, Take, Poll, TxResetStep, FreeMessage, SendByte, EndSending, WriteLength;
    match a
    case TxTakes => TakeKeeps(s);
    case TxPolls(ok, full) => PollKeeps(s, ok, full);
    case TxResets(ok) => ResetKeeps(s, ok);
    case TxFrees => FreeKeeps(s);
    case TxSends => SendKeeps(s);
    case TxEnds(ok) => EndKeeps(s, ok);
    case TxCommits(ok) => CommitKeeps(s, ok);
  }

  lemma UserStepKeepsTx(s: State, a: Action)
    requires TxInv(s) && Exclusive(s) && Enabled(s, a) && IsUser(a)
    ensures TxInv(StepUser(s, a))
  {
    hide TxInv, Exclusive;
    if a.UserWrites? {
      UserIsAlone(s, a.b);
    }
    OthersKeepTx(s, StepUser(s, a));
  }

  lemma RxStepKeepsTx(s: State, a: Action)
    requires TxInv(s) && Exclusive(s) && Enabled(s, a) && Inside(s, a) && !IsUser(a) && !IsTx(a)
    ensures TxInv(StepRx(s, a))
  {
    hide TxInv, Exclusive, Contents, Turn, Next, Payload, Packet, Written, Copied, Fits, Overflows, Receive;
    var t := StepRx(s, a);
    if a.RxResets? {
      TurnKeeps(s, s.rx.reset, a.ok);
      OthersKeepTx(Turn(s, s.rx.reset, a.ok), t);
    } else {
      if a.RxReads? || a.RxSends? {
        RxIsAlone(s, s.rx.msg);
      }
      OthersKeepTx(s, t);
    }
  }

  // ----- queues and the Rx loop

  ghost predicate RxInv(s: State) {
    && s.rxGranted == s.rxForwarded + |RxHolds(s.rx)|
    && match s.rx
       case RxSend(b, length, packet) =>
         packet.Some? ==> && b in s.contents && length == |packet.value| <= ROOM
                          && s.contents[b].body[..length] == packet.value
       case _ => true
  }

  lemma UserStepKeepsQueues(s: State, a: Action)
    requires QueueInv(s) && RxInv(s) && Exclusive(s) && Enabled(s, a) && IsUser(a)
    ensures QueueInv(StepUser(s, a)) && RxInv(StepUser(s, a))
  {
    hide Exclusive, ValidMessage;
    if a.UserWrites? {
      UserIsAlone(s, a.b);
    }
  }

  lemma TxStepKeepsQueues(s: State, a: Action)
    requires QueueInv(s) && RxInv(s) && Enabled(s, a) && IsTx(a)
    ensures QueueInv(StepTx(s, a)) && RxInv(StepTx(s, a))
  {
    TxTouches(s, a);
    assert forall b | b in StepTx(s, a).pool.txQueue :: b in s.pool.txQueue;
  }

  /** The Tx task changes no message and nothing of the Rx task. */
  lemma TxTouches(s: State, a: Action)
    requires Enabled(s, a) && IsTx(a)
    ensures var t := StepTx(s, a);
            && t.contents == s.contents && t.rx == s.rx && t.rxGranted == s.rxGranted && t.rxForwarded == s.rxForwarded
            && t.received == s.received && t.delivered == s.delivered && t.forwarded == s.forwarded
            && t.pool.outQueue == s.pool.outQueue
            && t.pool.txQueue == if a.TxTakes? && s.pool.txQueue != [] then s.pool.txQueue[1..] else s.pool.txQueue
  {
    hide Contents, TxBytesOf, TxByteOf, TxLengthOf, Turn, Next;
    match a
    case TxTakes =>
    case TxPolls(_, _) =>
    case TxFrees =>
    case TxSends =>
    case TxEnds(_) =>
    case TxCommits(_) =>
    case TxResets(ok) => TurnTouches(s, s.tx.reset, ok);
  }

  lemma RxReadKeeps(s: State, d: Damage)
    requires QueueInv(s) && RxInv(s) && Exclusive(s) && Enabled(s, RxReads(d)) && Inside(s, RxReads(d))
    ensures QueueInv(ReadPacket(s, d)) && RxInv(ReadPacket(s, d))
  {
    hide ValidMessage, Exclusive, Contents, Packet, Copied, Written, Fits, Overflows;
    RxIsAlone(s, s.rx.msg);
    if !Overflows(s.ring.rd, s.ring.wr, s.rx.length) {
      RxReadStores(s, d);
    }
  }

  /** A read that fits leaves the packet at the front of the message. */
  lemma RxReadStores(s: State, d: Damage)
    requires Enabled(s, RxReads(d)) && Inside(s, RxReads(d)) && !Overflows(s.ring.rd, s.ring.wr, s.rx.length)
    ensures var t, n := ReadPacket(s, d), s.rx.length;
            && n <= ROOM && s.rx.msg in t.contents
            && t.contents == s.contents[s.rx.msg := t.contents[s.rx.msg]]
            && t.contents[s.rx.msg].body[..n] == Packet(s.ring, n)
  {
    AcceptedLength(s.ring, s.rx.length);
  }

  lemma RxSendKeeps(s: State, ok: bool)
    requires QueueInv(s) && RxInv(s) && Exclusive(s) && Enabled(s, RxSends(ok))
    ensures QueueInv(SendMessage(s, ok)) && RxInv(SendMessage(s, ok))
  {
    hide Exclusive, ValidMessage, Contents, Payload;
    RxIsAlone(s, s.rx.msg);
  }

  lemma RxStepKeepsQueues(s: State, a: Action)
    requires QueueInv(s) && RxInv(s) && Exclusive(s) && Enabled(s, a) && Inside(s, a) && !IsUser(a) && !IsTx(a)
    ensures QueueInv(StepRx(s, a)) && RxInv(StepRx(s, a))
  {
    hide QueueInv, RxInv, Exclusive, Inside;
    match a
    case RxReads(d) => RxReadKeeps(s, d);
    case RxSends(ok) => RxSendKeeps(s, ok);
    case _ => RxMoveKeeps(s, a);
  }

  /** The remaining steps leave message contents and the Tx queue alone. */
  lemma RxMoveKeeps(s: State, a: Action)
    requires QueueInv(s) && RxInv(s) && Enabled(s, a) && !IsUser(a) && !IsTx(a) && !a.RxReads? && !a.RxSends?
    ensures QueueInv(StepRx(s, a)) && RxInv(StepRx(s, a))
  {
    hide StepRx;
    RxMoves(s, a);
  }

  /** The Rx task moves on without touching a message or the Tx queue. */
  predicate RxOnly(s: State, t: State) {
    && t.contents == s.contents && t.pool.txQueue == s.pool.txQueue
    && t.rxForwarded == s.rxForwarded && t.rxGranted - s.rxGranted == |RxHolds(t.rx)| - |RxHolds(s.rx)|
    && (t.rx == s.rx || (t.rx.RxSend? ==> t.rx.packet.None?))
    && t.forwarded == s.forwarded && t.delivered == s.delivered
  }

  lemma RxMoves(s: State, a: Action)
    requires !IsUser(a) && !IsTx(a) && !a.RxReads? && !a.RxSends?
    ensures RxOnly(s, StepRx(s, a))
  {
    hide RxOnly, StepRx;
    if a.RxResets? {
      assert StepRx(s, a) == RxResetStep(s, a.ok) by { StepRxResets(s, a.ok); }
      RxResetMoves(s, a.ok);
    } else if a.RxAllocates? {
      RxAllocateGoesOn(s, a.b);
    } else {
      RxWaits(s, a);
    }
  }

  lemma StepRxResets(s: State, ok: bool)
    ensures StepRx(s, RxResets(ok)) == RxResetStep(s, ok)
  {}

  lemma RxAllocateGoesOn(s: State, b: Block)
    ensures RxOnly(s, StepRx(s, RxAllocates(b)))
  {}

  lemma RxWaits(s: State, a: Action)
    requires a.Arrives? || a.NothingArrives? || a.RxLength? || a.RxAllocationFails?
    ensures RxOnly(s, StepRx(s, a))
  {
    hide Receive;
  }

  lemma RxResetMoves(s: State, ok: bool)
    ensures RxOnly(s, RxResetStep(s, ok))
  {
    hide Turn, Next, RxHolds;
    RxResetKeeps(s, ok);
    if s.rx.RxLengthReset? || s.rx.RxFailed? { TurnTouches(s, s.rx.reset, ok); }
  }

  // ----- over every run

  ghost predicate Inv(s: State) { QueueInv(s) && RxInv(s) && TxInv(s) }

  lemma StartIsGood(c: Config)
    ensures Inv(Start(c))
  {
    var e := Control(Resets.IsOn(c.regs.control));
    HeardNext([], e);
    ObserveNext([], e);
    assert [] + [e] == [e] && [e][..1] == [e];
  }

  lemma StepKeeps(s: State, a: Action)
    requires Inv(s) && Exclusive(s) && Enabled(s, a) && Inside(s, a)
    ensures Inv(Step(s, a))
  {
    hide StepUser, StepTx, StepRx, TxInv, RxInv, QueueInv, Exclusive, Enabled, Inside;
    if IsUser(a) {
      UserStepKeepsTx(s, a);
      UserStepKeepsQueues(s, a);
    } else if IsTx(a) {
      TxStepKeepsTx(s, a);
      TxStepKeepsQueues(s, a);
    } else {
      RxStepKeepsTx(s, a);
      RxStepKeepsQueues(s, a);
    }
  }

  lemma RunsAreExclusive(c: Config, actions: seq<Action>)
    requires IsRun(c, actions) && StaysInside(c, actions)
    ensures Exclusive(Exec(c, actions))
  {
    hide Places;
    RunsConserve(c, actions);
    forall b: Block ensures Places(Exec(c, actions))[b] <= 1 {
      assert multiset(c.blocks)[b] <= 1;
    }
  }

  lemma {:induction false} RunsKeepInv(c: Config, actions: seq<Action>)
    requires IsRun(c, actions) && StaysInside(c, actions)
    ensures Inv(Exec(c, actions))
  {
    hide Step, Inv, Enabled, Exclusive, Inside;
    if actions == [] {
      StartIsGood(c);
    } else {
      var before := actions[..|actions| - 1];
      RunsKeepInv(c, before);
      RunsAreExclusive(c, before);
      StepKeeps(Exec(c, before), actions[|actions| - 1]);
    }
  }

  /** Over every run, whatever the FPGA makes of it: each length written is that of a message
      whose bytes, and nothing else, were sent since it was taken; messages come in the order in
      which they were taken and none twice; and no byte is ever sent unless a poll, at most the
      tenth since the message was taken, has just reported room. */
  lemma LengthsAreOfMessages(c: Config, actions: seq<Action>)
    requires IsRun(c, actions) && StaysInside(c, actions)
    ensures var v := Observe(Exec(c, actions).log);
            && v.disciplined
            && (forall k | 0 <= k < |v.records| :: Complete(v, v.records[k]))
            && (forall j, k | 0 <= j < k < |v.records| :: v.records[j].source < v.records[k].source)
  {
    RunsKeepInv(c, actions);
  }

  /** A frame and the message it closes.  It is the whole message if and only if the FPGA held
      nothing before the first byte and no reset had the link off between the first byte and
      the length (or the message is empty).  If the link was off, the frame is the part of the
      message sent since then. */
  ghost predicate FrameOf(log: Log, message: seq<byte>, r: Record, f: Frame) {
    && r.first <= r.at < |log| && log[r.at] == Length(|message|) && f.length == |message|
    && (f.bytes == message <==>
          Heard(log[..r.first]).fifo == [] && (message == [] || Steady(log, r.first, r.at)))
    && (!Steady(log, r.first, r.at) ==>
          exists n | r.first <= n <= r.at ::
            !OnAt(log, n) && Steady(log, n + 1, r.at) && message == SentFrom(log[..n], r.first) + f.bytes)
  }

  /** Over every run, every frame the FPGA closes is one of the messages taken, whole or torn as
      `FrameOf` says. */
  lemma FramesAreMessages(c: Config, actions: seq<Action>)
    requires IsRun(c, actions) && StaysInside(c, actions)
    ensures var log := Exec(c, actions).log;
            var v, frames := Observe(log), Heard(log).frames;
            && |frames| == |v.records|
            && forall k | 0 <= k < |frames| ::
                 0 <= v.records[k].source < |v.takes|
                 && FrameOf(log, v.takes[v.records[k].source], v.records[k], frames[k])
  {
    hide IsRun, StaysInside, Exec, FrameOf, Matches;
    RunsKeepInv(c, actions);
    var log := Exec(c, actions).log;
    RecordsMatch(log);
    var v, frames := Observe(log), Heard(log).frames;
    forall k | 0 <= k < |frames|
      ensures 0 <= v.records[k].source < |v.takes|
              && FrameOf(log, v.takes[v.records[k].source], v.records[k], frames[k])
    {
      assert Complete(v, v.records[k]);
      FrameIs(log, v.records[k], frames[k]);
    }
  }

  lemma FrameIs(log: Log, r: Record, f: Frame)
    requires Matches(log, r, f) && r.length == |r.sent|
    ensures FrameOf(log, r.sent, r, f)
  {
    WholeIff(log, r, f);
    if !Steady(log, r.first, r.at) {
      var n := TornFrame(log, r, f);
    }
  }

  /** What the FPGA held before the first byte of a message belongs to one that was given up,
      and the link has been on ever since. */
  lemma LeftoversWereGivenUp(c: Config, actions: seq<Action>)
    requires IsRun(c, actions) && StaysInside(c, actions)
    ensures var log := Exec(c, actions).log;
            forall r | r in Observe(log).records ::
              r.first <= |log|
              && (Heard(log[..r.first]).fifo != [] ==>
                    exists a | 0 <= a < r.first :: GivesUp(log[a]) && Steady(log, a, r.first))
  {
    hide IsRun, StaysInside, Exec;
    RunsKeepInv(c, actions);
    var log := Exec(c, actions).log;
    assert forall r | r in Observe(log).records :: Clean(log, r.first);
  }

  /** At the top of its loop the Tx task holds nothing and has freed every message it took
      exactly once; the Rx task has passed on every block it was granted exactly once. */
  lemma LoopsEndEmptyHanded(c: Config, actions: seq<Action>)
    requires IsRun(c, actions) && StaysInside(c, actions)
    ensures var s := Exec(c, actions);
            && (s.tx.TxTop? ==> TxHolds(s.tx) == multiset{} && s.txFreed == |Observe(s.log).takes|)
            && (s.rx.RxTop? ==> RxHolds(s.rx) == multiset{} && s.rxForwarded == s.rxGranted)
  {
    hide IsRun, StaysInside, Exec, Framed, Clean, UnderWay, Observe;
    RunsKeepInv(c, actions);
  }
}
