/** Runs that show what really happens on the J1708 link: frames torn at every place, frames
    with leftovers, and a read that runs past its message. */
module J1708LinkExamples {
  import opened UartRing
  import opened FpgaLog
  import opened J1708Link
  import opened J1708LinkRuns
  import Resets = J1708Reset

  ghost predicate Reaches(c: Config, actions: seq<Action>, s: State) {
    IsRun(c, actions) && StaysInside(c, actions) && Exec(c, actions) == s
  }

  /** No reset, room for every byte, and only packets announced that have arrived. */
  predicate Orderly(s: State, a: Action) {
    && Gentle(s, a) && !a.TxResets? && !a.RxResets?
    && (a.RxLength? ==> a.ok && a.length <= |s.received| - |s.delivered|)
  }

  ghost predicate WellBehaved(c: Config, actions: seq<Action>) {
    actions == [] ||
    (WellBehaved(c, actions[..|actions| - 1]) && Orderly(Exec(c, actions[..|actions| - 1]), actions[|actions| - 1]))
  }

  lemma {:induction false} WellBehavedIsUndisturbed(c: Config, actions: seq<Action>)
    requires WellBehaved(c, actions)
    ensures Undisturbed(c, actions)
  {
    hide Exec, Gentle;
    if actions != [] {
      WellBehavedIsUndisturbed(c, actions[..|actions| - 1]);
      OrderlyIsGentle(Exec(c, actions[..|actions| - 1]), actions[|actions| - 1]);
    }
  }

  lemma OrderlyIsGentle(s: State, a: Action)
    requires Orderly(s, a)
    ensures Gentle(s, a)
  {}

  lemma Extend(c: Config, actions: seq<Action>, s: State, a: Action)
    requires Reaches(c, actions, s) && Enabled(s, a) && Inside(s, a)
    ensures Reaches(c, actions + [a], Step(s, a))
    ensures WellBehaved(c, actions) && Orderly(s, a) ==> WellBehaved(c, actions + [a])
  {
    hide Step, Enabled, Inside, Orderly;
    var all := actions + [a];
    assert all[..|all| - 1] == actions && all[|all| - 1] == a;
  }

  lemma Begin(c: Config)
    ensures Reaches(c, [], Start(c)) && WellBehaved(c, [])
    ensures Heard(Start(c).log) == Fpga(Resets.IsOn(c.regs.control), [], [])
  {
    hide Resets.IsOn;
    var e := Control(Resets.IsOn(c.regs.control));
    HeardNext([], e);
    assert [] + [e] == [e];
  }

  // ----- parts of runs

  /** Both tasks are at the top of their loops, the Tx queue is empty, and `b` is free. */
  ghost predicate Ready(s: State, b: Block) {
    s.tx == TxTop && s.rx == RxTop && s.pool.txQueue == [] && b in s.pool.free
  }

  /** A message is being sent, `sent` of its bytes are out, and nothing else goes on. */
  ghost predicate Sending(s: State, b: Block, m: Message, sent: nat) {
    s.tx == TxSend(b, sent) && s.rx == RxTop && s.pool.txQueue == [] && b in s.contents && s.contents[b] == m
  }

  /** Some task fills a message and sends it; the Tx task takes it and finds room. */
  lemma Load(c: Config, actions: seq<Action>, s: State, b: Block, m: Message)
    returns (after: seq<Action>, t: State)
    requires Reaches(c, actions, s) && Ready(s, b) && ValidMessage(m)
    ensures Reaches(c, after, t) && Sending(t, b, m, 0)
    ensures Heard(t.log) == Heard(s.log)
  {
    hide Reaches, Heard, ValidMessage, TxBytesOf;
    Extend(c, actions, s, UserAllocates(b));
    var s1 := Step(s, UserAllocates(b));
    Extend(c, actions + [UserAllocates(b)], s1, UserWrites(b, m));
    var a2, s2 := actions + [UserAllocates(b)] + [UserWrites(b, m)], Step(s1, UserWrites(b, m));
    Extend(c, a2, s2, UserSends(b));
    var a3, s3 := a2 + [UserSends(b)], Step(s2, UserSends(b));
    Extend(c, a3, s3, TxTakes);
    var a4, s4 := a3 + [TxTakes], Step(s3, TxTakes);
    HeardNext(s3.log, Taken(TxBytesOf(Contents(s3, b))));
    Extend(c, a4, s4, TxPolls(true, false));
    after, t := a4 + [TxPolls(true, false)], Step(s4, TxPolls(true, false));
    HeardNext(s4.log, Polled(true, false));
    HeardNothing(Heard(s.log), TxBytesOf(Contents(s3, b)));
  }

  lemma HeardNothing(f: Fpga, p: seq<byte>)
    ensures Hear(f, Taken(p)) == f && Hear(f, Polled(true, false)) == f
  {}

  /** The next `n` bytes go out without a pause. */
  lemma {:induction false} SendSome(c: Config, actions: seq<Action>, s: State, b: Block, m: Message, sent: nat, n: nat)
    returns (after: seq<Action>, t: State)
    requires Reaches(c, actions, s) && Sending(s, b, m, sent) && ValidMessage(m) && sent + n <= |Payload(m)|
    ensures Reaches(c, after, t) && Sending(t, b, m, sent + n)
    ensures var f := Heard(s.log);
            Heard(t.log) == if f.on then f.(fifo := f.fifo + Payload(m)[sent..sent + n]) else f
  {
    hide Reaches, Heard;
    if n == 0 {
      after, t := actions, s;
    } else {
      var a1, s1 := SendSome(c, actions, s, b, m, sent, n - 1);
      LengthFits(m);
      Extend(c, a1, s1, TxSends);
      HeardNext(s1.log, Sent(TxByteOf(m, sent + n - 1)));
      after, t := a1 + [TxSends], Step(s1, TxSends);
      assert Payload(m)[sent..sent + n] == Payload(m)[sent..sent + n - 1] + [Payload(m)[sent + n - 1]];
    }
  }

  /** The message is out: it is freed and its length is written. */
  lemma Commit(c: Config, actions: seq<Action>, s: State, b: Block, m: Message)
    returns (after: seq<Action>, t: State)
    requires Reaches(c, actions, s) && Sending(s, b, m, |Payload(m)|) && ValidMessage(m)
    ensures Reaches(c, after, t)
    ensures Heard(t.log).frames == Heard(s.log).frames + [Frame(Heard(s.log).fifo, |Payload(m)|)]
  {
    hide Reaches, Heard;
    LengthFits(m);
    Extend(c, actions, s, TxEnds(true));
    var a1, s1 := actions + [TxEnds(true)], Step(s, TxEnds(true));
    HeardNext(s.log, Ended(true));
    Extend(c, a1, s1, TxFrees);
    var a2, s2 := a1 + [TxFrees], Step(s1, TxFrees);
    Extend(c, a2, s2, TxCommits(true));
    after, t := a2 + [TxCommits(true)], Step(s2, TxCommits(true));
    HeardNext(s2.log, Length(|Payload(m)|));
  }

  /** The rest of a successful reset by the Rx task. */
  lemma {:induction false} ResetRuns(c: Config, actions: seq<Action>, s: State) returns (after: seq<Action>, t: State)
    requires Reaches(c, actions, s) && s.rx.RxLengthReset? && s.rx.reset.pc < Resets.LAST
    ensures Reaches(c, after, t) && t.rx == RxTop
    ensures t.tx == s.tx && t.pool == s.pool && t.contents == s.contents
    ensures Heard(t.log).frames == Heard(s.log).frames
    ensures s.rx.reset.pc <= 4 || Heard(s.log).fifo == [] ==> Heard(t.log).fifo == []
    ensures s.rx.reset.pc <= 12 || Heard(s.log).on ==> Heard(t.log).on
    ensures t.ring == (if s.rx.reset.pc <= 3 then s.ring.(wr := 0) else s.ring) && t.received == s.received
    decreases Resets.LAST - s.rx.reset.pc
  {
    hide Reaches, Heard, Turn, Next;
    var p, a := s.rx.reset, RxResets(true);
    Extend(c, actions, s, a);
    TurnTouches(s, p, true);
    TurnHeard(s, p);
    after, t := actions + [a], Step(s, a);
    if p.pc + 1 < Resets.LAST {
      after, t := ResetRuns(c, after, t);
    }
  }

  lemma TurnHeard(s: State, p: Resets.Reset)
    requires p.pc < Resets.LAST
    ensures Next(s, p, true).pc == p.pc + 1
    ensures Turn(s, p, true).ring == if p.pc == 3 then s.ring.(wr := 0) else s.ring
    ensures var f, g := Heard(s.log), Heard(Turn(s, p, true).log);
            && g.frames == f.frames
            && (p.pc == 4 || f.fifo == [] ==> g.fifo == [])
            && (p.pc == 12 || (p.pc > 12 && f.on) ==> g.on)
            && (p.pc != 4 && p.pc != 10 && p.pc != 12 ==> g == f)
  {
    hide Heard, Resets.IsOn, Resets.On, Resets.Off, Resets.WithPriority;
    var on := Resets.IsOn(Turn(s, p, true).regs.control);
    HeardNext(s.log, Control(on));
    Resets.FirstBits(p.data, p.priority);
  }

  // ----- frames

  /** Every suffix of every message turns up as a frame under the whole message's length: let
      the Rx task reset the link when the part before it is out. */
  lemma TornAnywhere(c: Config, b: Block, m: Message, k: nat) returns (actions: seq<Action>)
    requires b in c.blocks && ValidMessage(m) && k <= |Payload(m)|
    ensures IsRun(c, actions) && StaysInside(c, actions)
    ensures Heard(Exec(c, actions).log).frames == [Frame(Payload(m)[k..], |Payload(m)|)]
  {
    hide Heard, Step, IsRun, StaysInside, Exec, ValidMessage, Payload;
    Begin(c);
    var a1, s1 := Load(c, [], Start(c), b, m);
    var a2, s2 := SendSome(c, a1, s1, b, m, 0, k);
    var a3, s3 := StartRxReset(c, a2, s2);
    var a4, s4 := ResetRuns(c, a3, s3);
    var a5, s5 := SendSome(c, a4, s4, b, m, k, |Payload(m)| - k);
    var a6, s6 := Commit(c, a5, s5, b, m);
    actions := a6;
    assert [] + Payload(m)[k..|Payload(m)|] == Payload(m)[k..];
  }

  lemma StartRxReset(c: Config, actions: seq<Action>, s: State) returns (after: seq<Action>, t: State)
    requires Reaches(c, actions, s) && s.rx == RxTop
    ensures Reaches(c, after, t) && t == s.(rx := RxLengthReset(Resets.Begin()))
  {
    Extend(c, actions, s, RxLength(false, false, 0));
    after, t := actions + [RxLength(false, false, 0)], Step(s, RxLength(false, false, 0));
  }

  /** The rest of a reset by the Tx task in which every transfer fails. */
  lemma {:induction false} ResetFails(c: Config, actions: seq<Action>, s: State) returns (after: seq<Action>, t: State)
    requires Reaches(c, actions, s) && s.tx.TxBrokenReset? && s.tx.reset.pc < Resets.LAST
    requires !WritesControl(s.tx.reset.pc) && s.tx.reset.pc != 2 && s.tx.reset.pc != 8
    ensures Reaches(c, after, t) && t.tx == TxTop && t.rx == s.rx && t.pool == s.pool && t.log == s.log
    decreases Resets.LAST - s.tx.reset.pc
  {
    hide Reaches, Inside;
    var a := TxResets(false);
    assert Inside(s, a) by { InsideOther(s, a); }
    Extend(c, actions, s, a);
    after, t := actions + [a], Step(s, a);
    if t.tx.TxBrokenReset? {
      after, t := ResetFails(c, after, t);
    }
  }

  lemma InsideOther(s: State, a: Action)
    requires !a.RxReads?
    ensures Inside(s, a)
  {}

  /** A message breaks off after `k` bytes and the reset that follows does not get through:
      the next message's frame starts with those bytes. */
  lemma LeftoversHappen(c: Config, b: Block, m: Message, k: nat, next: Message) returns (actions: seq<Action>)
    requires b in c.blocks && ValidMessage(m) && k <= |Payload(m)| && ValidMessage(next)
    requires Resets.IsOn(c.regs.control)
    ensures IsRun(c, actions) && StaysInside(c, actions)
    ensures Heard(Exec(c, actions).log).frames == [Frame(Payload(m)[..k] + Payload(next), |Payload(next)|)]
  {
    hide Heard, Step, IsRun, StaysInside, Exec, ValidMessage, Payload, Resets.IsOn;
    Begin(c);
    var a1, s1 := Load(c, [], Start(c), b, m);
    var a2, s2 := SendSome(c, a1, s1, b, m, 0, k);
    var a3, s3 := BreakOff(c, a2, s2, b, m, k);
    var a4, s4 := ResetFails(c, a3, s3);
    var a5, s5 := Load(c, a4, s4, b, next);
    var a6, s6 := SendSome(c, a5, s5, b, next, 0, |Payload(next)|);
    var a7, s7 := Commit(c, a6, s6, b, next);
    actions := a7;
    assert [] + Payload(m)[0..k] == Payload(m)[..k];
    assert Payload(next)[0..|Payload(next)|] == Payload(next);
  }

  lemma BreakOff(c: Config, actions: seq<Action>, s: State, b: Block, m: Message, sent: nat)
    returns (after: seq<Action>, t: State)
    requires Reaches(c, actions, s) && Sending(s, b, m, sent)
    ensures Reaches(c, after, t) && t.tx == TxBrokenReset(Resets.Begin()) && t.rx == RxTop
    ensures t.pool.txQueue == [] && b in t.pool.free && Heard(t.log) == Heard(s.log)
  {
    hide Reaches, Heard;
    Extend(c, actions, s, TxEnds(false));
    var a1, s1 := actions + [TxEnds(false)], Step(s, TxEnds(false));
    HeardNext(s.log, Ended(false));
    Extend(c, a1, s1, TxFrees);
    after, t := a1 + [TxFrees], Step(s1, TxFrees);
  }

  // ----- a read past the end of its message

  /** The UART task stores `n` bytes, for which there is room. */
  lemma {:induction false} ArriveMany(c: Config, actions: seq<Action>, s: State, n: nat) returns (after: seq<Action>, t: State)
    requires Reaches(c, actions, s) && WellBehaved(c, actions) && |s.received| - |s.delivered| + n <= SIZE
    ensures Reaches(c, after, t) && WellBehaved(c, after)
    ensures t == s.(ring := t.ring, received := t.received)
    ensures t.ring.rd == s.ring.rd && t.ring.wr == (s.ring.wr + n) % SIZE && |t.received| == |s.received| + n
  {
    hide Reaches, WellBehaved;
    if n == 0 {
      after, t := actions, s;
    } else {
      var a1, s1 := ArriveMany(c, actions, s, n - 1);
      Extend(c, a1, s1, Arrives(0));
      after, t := a1 + [Arrives(0)], Step(s1, Arrives(0));
    }
  }

  /** The Rx task is told of a packet and gets a block for it. */
  lemma Announce(c: Config, actions: seq<Action>, s: State, b: Block, length: nat) returns (after: seq<Action>, t: State)
    requires Reaches(c, actions, s) && Ready(s, b) && length < 256
    ensures Reaches(c, after, t)
    ensures WellBehaved(c, actions) && length <= |s.received| - |s.delivered| ==> WellBehaved(c, after)
    ensures t == s.(pool := s.pool.(free := s.pool.free - multiset{b}), rx := RxRead(b, length), rxGranted := s.rxGranted + 1)
  {
    hide Reaches, WellBehaved;
    var e := RxLength(true, true, length);
    Extend(c, actions, s, e);
    var a1, s1 := actions + [e], Step(s, e);
    Extend(c, a1, s1, RxAllocates(b));
    after, t := a1 + [RxAllocates(b)], Step(s1, RxAllocates(b));
  }

  /** A packet is read into a message, sent on, received by another task and freed. */
  lemma Consume(c: Config, actions: seq<Action>, s: State, b: Block) returns (after: seq<Action>, t: State)
    requires Reaches(c, actions, s) && WellBehaved(c, actions)
    requires s.rx.RxRead? && s.rx.msg == b && s.pool.outQueue == [] && s.tx == TxTop && s.pool.txQueue == []
    requires s.ring.rd < s.ring.wr && 0 < s.rx.length <= s.ring.wr - s.ring.rd && s.rx.length <= ROOM
    requires |s.received| - |s.delivered| == s.ring.wr - s.ring.rd
    ensures Reaches(c, after, t) && WellBehaved(c, after) && Ready(t, b) && t.pool.outQueue == []
    ensures t.ring == s.ring.(rd := s.ring.rd + s.rx.length) && t.received == s.received
    ensures |t.delivered| == |s.delivered| + s.rx.length
  {
    hide Reaches, WellBehaved, Contents, Packet, Copied, Written, Payload;
    var e := RxReads(Damage(s.pool, s.contents));
    Extend(c, actions, s, e);
    var a1, s1 := actions + [e], Step(s, e);
    Extend(c, a1, s1, RxSends(true));
    var a2, s2 := a1 + [RxSends(true)], Step(s1, RxSends(true));
    Extend(c, a2, s2, UserReceives);
    var a3, s3 := a2 + [UserReceives], Step(s2, UserReceives);
    Extend(c, a3, s3, UserFrees(b));
    after, t := a3 + [UserFrees(b)], Step(s3, UserFrees(b));
  }

  /** With no reset, room for every byte and only arrived packets announced, sixty bytes and
      then a full message of 64: its read is accepted and leaves the message.  What it may do
      to the pool need not keep every block in one place. */
  lemma OverrunHappens(c: Config, b: Block) returns (actions: seq<Action>)
    requires b in c.blocks
    ensures IsRun(c, actions) && StaysInside(c, actions) && WellBehaved(c, actions) && Undisturbed(c, actions)
    ensures var s := Exec(c, actions);
            && s.rx == RxRead(b, MAX_DATA) && s.ring.rd == 60 && s.ring.wr == 24
            && |s.received| - |s.delivered| == MAX_DATA
            && forall d ::
                 && Enabled(s, RxReads(d)) && Orderly(s, RxReads(d)) && !Inside(s, RxReads(d))
                 && Step(s, RxReads(d)).pool == d.pool
  {
    hide IsRun, StaysInside, Exec, Undisturbed, WellBehaved, Step;
    Begin(c);
    var a1, s1 := ArriveMany(c, [], Start(c), 60);
    var a2, s2 := Announce(c, a1, s1, b, 60);
    var a3, s3 := Consume(c, a2, s2, b);
    var a4, s4 := ArriveMany(c, a3, s3, 64);
    var a5, s5 := Announce(c, a4, s4, b, 64);
    actions := a5;
    WellBehavedIsUndisturbed(c, actions);
    FullMessageOverruns(s5.ring);
    forall d: Damage
      ensures Enabled(s5, RxReads(d)) && Orderly(s5, RxReads(d)) && !Inside(s5, RxReads(d))
      ensures Step(s5, RxReads(d)).pool == d.pool
    {
      OverrunIs(s5, d);
    }
  }

  lemma OverrunIs(s: State, d: Damage)
    requires s.rx.RxRead? && !Overflows(s.ring.rd, s.ring.wr, s.rx.length) && !Fits(s.ring.rd, s.rx.length)
    ensures Step(s, RxReads(d)).pool == d.pool && Step(s, RxReads(d)).rx.RxSend? && Step(s, RxReads(d)).rx.msg == s.rx.msg
  {}

  // ----- bytes lost after a reset

  /** The UART task stores these bytes. */
  lemma {:induction false} ArriveThese(c: Config, actions: seq<Action>, s: State, bs: seq<byte>)
    returns (after: seq<Action>, t: State)
    requires Reaches(c, actions, s)
    ensures Reaches(c, after, t) && t == s.(ring := t.ring, received := s.received + bs)
    ensures t.ring == ReceiveAll(s.ring, bs)
  {
    hide Reaches, Receive;
    if bs == [] {
      after, t := actions, s;
    } else {
      var last := bs[|bs| - 1];
      var a1, s1 := ArriveThese(c, actions, s, bs[..|bs| - 1]);
      Extend(c, a1, s1, Arrives(last));
      after, t := a1 + [Arrives(last)], Step(s1, Arrives(last));
      assert bs == bs[..|bs| - 1] + [last];
    }
  }

  /** One byte goes through the ring, the link is reset, and two more bytes arrive and are
      announced: the read does not deliver them. */
  lemma ResetLosesBytes(c: Config, b: Block, d: Damage) returns (actions: seq<Action>, bytes: seq<byte>)
    requires b in c.blocks
    ensures IsRun(c, actions) && StaysInside(c, actions) && |bytes| == 2
    ensures var s := Exec(c, actions);
            && s.rx == RxRead(b, 2) && |bytes| <= |s.received| && s.received[|s.received| - 2..] == bytes
            && Enabled(s, RxReads(d)) && Step(s, RxReads(d)).delivered != s.delivered + bytes
  {
    hide IsRun, StaysInside, Exec, WellBehaved, Step, ReceiveAll, Delivers;
    Begin(c);
    var a1, s1 := ArriveMany(c, [], Start(c), 1);
    var a2, s2 := Announce(c, a1, s1, b, 1);
    var a3, s3 := Consume(c, a2, s2, b);
    var a4, s4 := StartRxReset(c, a3, s3);
    var a5, s5 := ResetRuns(c, a4, s4);
    bytes := LostUnaligned(s5.ring, 2);
    var a6, s6 := ArriveThese(c, a5, s5, bytes);
    var a7, s7 := Announce(c, a6, s6, b, 2);
    actions := a7;
    LostBytes(s7, d, s5.ring, bytes);
  }

  lemma LostBytes(s: State, d: Damage, r: Ring, bytes: seq<byte>)
    requires ValidRing(r) && s.ring == ReceiveAll(r, bytes) && !Delivers(r, bytes)
    requires s.rx.RxRead? && s.rx.length == |bytes| && bytes != []
    ensures Step(s, RxReads(d)).delivered != s.delivered + bytes
  {
    hide ReceiveAll, Packet, Copied, Written, Contents, Fits;
    var packet := Packet(s.ring, |bytes|);
    assert (s.delivered + packet)[|s.delivered|..] == packet && (s.delivered + bytes)[|s.delivered|..] == bytes;
    assert |s.delivered + bytes| != |s.delivered|;
  }

  /** Each block of the pool is in exactly one place. */
  ghost predicate OnePlace(c: Config, s: State) {
    forall b: Block :: Places(s)[b] == if b in c.blocks then 1 else 0
  }

  /** In whatever state a run has come to, the next read is sure to keep every block in one place
      if and only if it is refused or stays inside.  The other half rests on what the model
      allows: no layout of the blocks is assumed, so a read that leaves its message may do
      anything to them.  That it does write behind the message is `BehindIsLeftAloneIff`. */
  lemma KeepsPlacesIffInside(c: Config, actions: seq<Action>)
    requires IsRun(c, actions) && StaysInside(c, actions)
    ensures var s := Exec(c, actions);
            s.rx.RxRead? ==>
              ((forall d :: OnePlace(c, Step(s, RxReads(d)))) <==>
                 Overflows(s.ring.rd, s.ring.wr, s.rx.length) || Fits(s.ring.rd, s.rx.length))
  {
    hide IsRun, StaysInside, Exec, Step, Overflows, Fits, Places;
    var s := Exec(c, actions);
    RunsConserve(c, actions);
    if !s.rx.RxRead? {
    } else if Overflows(s.ring.rd, s.ring.wr, s.rx.length) || Fits(s.ring.rd, s.rx.length) {
      forall d: Damage ensures OnePlace(c, Step(s, RxReads(d))) {
        StepConserves(s, RxReads(d));
        InOnePlace(c, Step(s, RxReads(d)));
      }
    } else {
      var d := Damage(Pool(multiset{s.rx.msg}, [], [], multiset{}), map[]);
      OverrunIs(s, d);
      HeldTwice(Step(s, RxReads(d)), s.rx.msg);
      assert !OnePlace(c, Step(s, RxReads(d)));
    }
  }

  lemma InOnePlace(c: Config, s: State)
    requires Places(s) == multiset(c.blocks)
    ensures OnePlace(c, s)
  {}

  lemma HeldTwice(s: State, b: Block)
    requires b in s.pool.free && s.rx.RxSend? && s.rx.msg == b
    ensures Places(s)[b] >= 2
  {
    assert RxHolds(s.rx)[b] == 1 && Outside(s.pool)[b] >= 1;
  }
}
