/** The receive ring under preemption: the UART task and the packet reader take turns at every
    access to the shared indices and at every byte of the buffer; a copy goes upwards byte by
    byte.

    `received` and `delivered` record the byte streams at the two ends.  They are history: no
    step of either task reads them except to append. */
module UartRingSteps {
  import opened UartRing

  /** Where the reader stands inside FPGA_read_J1708_packet. */
  datatype Reader =
    | Idle
    | FirstCompare(length: nat)
    | SecondCompare(length: nat, less: bool)
    | ChooseCopy(length: nat)
    | FirstCopy(length: nat, size: int, out: seq<byte>)
    | ClearIndex(length: nat, out: seq<byte>)
    | SecondCopy(length: nat, first: nat, rest: int, out: seq<byte>)
    | AdvanceIndex(length: nat, first: nat, rest: int, out: seq<byte>)

  /** The UART driver stores a byte in the slot it was given; the task then increments the
      index, and then wraps it around if it has left the buffer and starts the next receive. */
  datatype Filler = Waiting | Landed(b: byte) | Incremented

  /** `arrived` is how much had been received when the current or last call was made, `written`
      what the last accepted call wrote to its destination. */
  datatype State = State(ring: Ring, reader: Reader, filler: Filler,
                         received: seq<byte>, delivered: seq<byte>, arrived: nat, written: seq<byte>)

  datatype Action = Request(length: nat) | ReaderStep | Land(b: byte) | Increment | Wrap

  function Start(): State {
    State(Ring(seq(SIZE, _ => 0), 0, 0, 0), Idle, Waiting, [], [], 0, [])
  }

  function Slice(s: seq<byte>, lo: int, hi: int): seq<byte> {
    if 0 <= lo <= hi <= |s| then s[lo..hi] else []
  }

  // ----- steps

  function Finish(s: State, rd: int, length: nat, out: seq<byte>): State {
    s.(ring := s.ring.(rd := rd), reader := Idle, delivered := s.delivered + Slice(out, 0, length), written := out)
  }

  function ByteAt(buf: seq<byte>, i: int): byte { if 0 <= i < |buf| then buf[i] else 0 }

  /** `out` is what has been written to the destination.  The first copy takes the bytes up to
      the end of the buffer; the second is as long as the whole packet. */
  function StepReader(s: State): State {
    var r := s.ring;
    match s.reader
    case Idle => s
    case FirstCompare(length) => s.(reader := SecondCompare(length, r.rd < r.wr))
    case SecondCompare(length, less) =>
      if (if less then r.rd + length > r.wr else r.rd + length > r.wr + SIZE)
      then s.(reader := Idle)
      else s.(reader := ChooseCopy(length))
    case ChooseCopy(length) =>
      if r.rd + length >= SIZE
      then s.(reader := FirstCopy(length, SIZE - r.rd, []))
      else s.(reader := SecondCopy(length, 0, length, []))
    case FirstCopy(length, size, out) =>
      if |out| < size
      then s.(reader := FirstCopy(length, size, out + [ByteAt(r.buf, r.rd + |out|)]))
      else s.(reader := ClearIndex(length, out))
    case ClearIndex(length, out) =>
      s.(ring := r.(rd := 0), reader := SecondCopy(length, |out|, length - |out|, out))
    case SecondCopy(length, first, rest, out) =>
      if rest == 0 then Finish(s, r.rd, length, out)
      else if |out| < first + (first + rest)
      then s.(reader := SecondCopy(length, first, rest, out + [ByteAt(r.buf, r.rd + |out| - first)]))
      else s.(reader := AdvanceIndex(length, first, rest, out))
    case AdvanceIndex(length, first, rest, out) => Finish(s, r.rd + rest, length, out)
  }

  function Step(s: State, a: Action): State {
    match a
    case Request(length) => s.(reader := FirstCompare(length), arrived := |s.received|)
    case ReaderStep => StepReader(s)
    case Land(b) =>
      if 0 <= s.ring.slot < |s.ring.buf|
      then s.(ring := s.ring.(buf := s.ring.buf[s.ring.slot := b]), filler := Landed(b))
      else s
    case Increment =>
      if s.filler.Landed?
      then s.(ring := s.ring.(wr := s.ring.wr + 1), filler := Incremented, received := s.received + [s.filler.b])
      else s
    case Wrap =>
      var wr := if s.ring.wr >= SIZE then 0 else s.ring.wr;
      s.(ring := s.ring.(wr := wr, slot := wr), filler := Waiting)
  }

  /** The position in the received stream of the byte at the read index. */
  function Position(s: State): nat {
    |s.delivered| + match s.reader case SecondCopy(_, first, _, _) => first case AdvanceIndex(_, first, _, _) => first case _ => 0
  }

  function Unread(s: State): int { |s.received| - Position(s) }

  /** Arrivals find room, and a read is requested only when something is there to read. */
  ghost predicate Enabled(s: State, a: Action) {
    match a
    case Request(length) => s.reader == Idle && length < 256 && (length == 0 || 0 < Unread(s))
    case ReaderStep => s.reader != Idle
    case Land(_) => s.filler == Waiting && Unread(s) < SIZE
    case Increment => s.filler.Landed?
    case Wrap => s.filler == Incremented
  }

  // ----- the invariant

  /** Byte `i` of the received stream still lies in the buffer. */
  ghost predicate InSlot(buf: seq<byte>, received: seq<byte>, i: nat) {
    |buf| == SIZE && i < |received| && buf[i % SIZE] == received[i]
  }

  /** The write index after `n` bytes.  Just after an increment it may stand at 100. */
  function WriteIndex(filler: Filler, n: nat): int {
    if filler == Incremented && n > 0 then (n - 1) % SIZE + 1 else n % SIZE
  }

  ghost predicate RingInv(s: State) {
    && |s.ring.buf| == SIZE
    && 0 <= Unread(s) <= SIZE
    && s.ring.rd == Position(s) % SIZE && s.ring.wr == WriteIndex(s.filler, |s.received|)
    && (if s.filler == Incremented then s.received != [] else s.ring.slot == s.ring.wr)
    && (forall i: nat | Position(s) <= i < |s.received| :: InSlot(s.ring.buf, s.received, i))
    && (s.filler.Landed? ==> Unread(s) < SIZE && s.ring.buf[s.ring.wr] == s.filler.b)
  }

  ghost predicate ReaderInv(s: State)
    requires RingInv(s)
  {
    var d := |s.delivered|;
    match s.reader
    case Idle => true
    case FirstCompare(length) => length == 0 || 0 < Unread(s)
    case SecondCompare(length, less) => length == 0 || (0 < Unread(s) && (!less ==> s.ring.rd + Unread(s) >= SIZE && s.ring.wr != SIZE))
    case ChooseCopy(length) => length <= Unread(s)
    case FirstCopy(length, size, out) =>
      && length <= Unread(s) && s.ring.rd + length >= SIZE && size == SIZE - s.ring.rd
      && |out| <= size && out == s.received[d..d + |out|]
    case ClearIndex(length, out) =>
      length <= Unread(s) && s.ring.rd + length >= SIZE && out == s.received[d..d + (SIZE - s.ring.rd)]
    case SecondCopy(length, first, rest, out) =>
      && first + rest == length && 0 <= rest <= Unread(s)
      && first <= |out| <= first + length && (rest == 0 ==> |out| == first)
      && Agrees(out, s.received, d, Fixed(s, length))
      && s.ring.rd + rest < SIZE && (first > 0 ==> s.ring.rd == 0) && length <= SIZE
    case AdvanceIndex(length, first, rest, out) =>
      && first + rest == length && 0 < rest <= Unread(s)
      && |out| == first + length && Agrees(out, s.received, d, Fixed(s, length))
      && s.ring.rd + rest < SIZE && (first > 0 ==> s.ring.rd == 0) && length <= SIZE
  }

  /** How many of the bytes from the call's position on cannot change under it: those of the
      packet, and those that had arrived when the call was made. */
  function Fixed(s: State, length: nat): int {
    if |s.delivered| + length < s.arrived then s.arrived - |s.delivered| else length
  }

  /** What has been written, up to `length` bytes, is the stream from `d` on. */
  ghost predicate Agrees(out: seq<byte>, stream: seq<byte>, d: nat, length: int) {
    forall k | 0 <= k < |out| && k < length :: d + k < |stream| && out[k] == stream[d + k]
  }

  ghost predicate Inv(s: State) {
    && |s.delivered| <= |s.received| && s.delivered == s.received[..|s.delivered|]
    && s.arrived <= |s.received|
    && RingInv(s) && ReaderInv(s)
  }

  lemma StartIsGood()
    ensures Inv(Start())
  {}

  lemma LandKeeps(s: State, b: byte)
    requires Inv(s) && Enabled(s, Land(b))
    ensures Inv(Step(s, Land(b)))
  {
    var t := Step(s, Land(b));
    forall i: nat | Position(s) <= i < |s.received| ensures InSlot(t.ring.buf, t.received, i) {
      assert InSlot(s.ring.buf, s.received, i);
      NotSameSlot(i, |s.received|);
    }
  }

  lemma NotSameSlot(i: nat, j: nat)
    requires i < j < i + SIZE
    ensures i % SIZE != j % SIZE
  {}

  lemma IncrementKeeps(s: State)
    requires Inv(s) && Enabled(s, Increment)
    ensures Inv(Step(s, Increment))
  {
    var t := Step(s, Increment);
    forall i: nat | Position(s) <= i < |t.received| ensures InSlot(t.ring.buf, t.received, i) {
      assert i < |s.received| ==> InSlot(s.ring.buf, s.received, i);
    }
    IndexFromReadIndex(s);
    StreamGrows(s, t, s.filler.b);
  }

  lemma WrapKeeps(s: State)
    requires Inv(s) && Enabled(s, Wrap)
    ensures Inv(Step(s, Wrap))
  {
    hide InSlot;
    NextSlot(|s.received| - 1);
  }

  /** What the reader has established does not depend on bytes that arrive later. */
  lemma StreamGrows(s: State, t: State, b: byte)
    requires Inv(s) && RingInv(t) && t.received == s.received + [b]
    requires t.delivered == s.delivered && t.reader == s.reader && t.ring.rd == s.ring.rd && t.arrived == s.arrived
    requires s.reader.SecondCompare? && s.reader.length > 0 && !s.reader.less ==> t.ring.wr != SIZE
    ensures Inv(t)
  {
    hide InSlot, WriteIndex;
    assert forall lo, hi | 0 <= lo <= hi <= |s.received| :: t.received[lo..hi] == s.received[lo..hi];
  }

  lemma NextSlot(n: nat)
    ensures (n + 1) % SIZE == if n % SIZE + 1 >= SIZE then 0 else n % SIZE + 1
  {}

  lemma CompareKeeps(s: State)
    requires Inv(s) && (s.reader.FirstCompare? || s.reader.SecondCompare?)
    ensures Inv(StepReader(s))
  {
    hide InSlot, WriteIndex;
    IndexFromReadIndex(s);
  }

  /** The write index as seen from the read index. */
  lemma IndexFromReadIndex(s: State)
    requires RingInv(s)
    ensures var r, n := s.ring, s.ring.rd + Unread(s);
            || r.wr == (if n >= 2 * SIZE then 0 else if n >= SIZE then n - SIZE else n)
            || (r.wr == SIZE && s.filler == Incremented && (n == SIZE || n == 0))
  {
    var p, q := Position(s), |s.received|;
    IndexAfter(p, q);
    if s.filler == Incremented {
      NextSlot(q - 1);
    }
  }

  lemma IndexAfter(p: nat, q: nat)
    requires p <= q <= p + SIZE
    ensures q % SIZE == if p % SIZE + (q - p) >= 2 * SIZE then 0
                        else if p % SIZE + (q - p) >= SIZE then p % SIZE + (q - p) - SIZE
                        else p % SIZE + (q - p)
  {}

  /** The slots from the read index on hold the stream from the reader's position on. */
  lemma SlotHolds(s: State, k: nat)
    requires RingInv(s) && k < Unread(s) && s.ring.rd + k < SIZE
    ensures ByteAt(s.ring.buf, s.ring.rd + k) == s.received[Position(s) + k]
  {
    SlotOf(Position(s), k);
    assert InSlot(s.ring.buf, s.received, Position(s) + k);
  }

  lemma SlotOf(p: nat, k: nat)
    requires p % SIZE + k < SIZE
    ensures (p + k) % SIZE == p % SIZE + k
  {}

  lemma ChooseCopyKeeps(s: State)
    requires Inv(s) && s.reader.ChooseCopy?
    ensures Inv(StepReader(s))
  {
    hide InSlot, WriteIndex;
  }

  lemma FirstCopyKeeps(s: State)
    requires Inv(s) && s.reader.FirstCopy?
    ensures Inv(StepReader(s))
  {
    var FirstCopy(length, size, out) := s.reader;
    if |out| < size {
      SlotHolds(s, |out|);
      hide InSlot, WriteIndex;
      assert StepReader(s).reader.out == s.received[|s.delivered|..|s.delivered| + |out| + 1];
    } else {
      hide InSlot, WriteIndex;
    }
  }

  lemma ClearIndexKeeps(s: State)
    requires Inv(s) && s.reader.ClearIndex?
    ensures Inv(StepReader(s))
  {
    WholeTurn(Position(s));
  }

  lemma WholeTurn(p: nat)
    ensures (p + (SIZE - p % SIZE)) % SIZE == 0
  {}

  lemma SecondCopyKeeps(s: State)
    requires Inv(s) && s.reader.SecondCopy?
    ensures Inv(StepReader(s))
  {
    var SecondCopy(length, first, rest, out) := s.reader;
    if rest == 0 {
      hide InSlot, WriteIndex;
      AgreesWhole(out, s.received, |s.delivered|, length, Fixed(s, length));
      DeliverKeeps(s, StepReader(s), length);
    } else {
      SecondCopyGoesOn(s);
    }
  }

  lemma SecondCopyGoesOn(s: State)
    requires Inv(s) && s.reader.SecondCopy? && s.reader.rest != 0
    ensures Inv(StepReader(s))
  {
    hide InSlot, WriteIndex;
    var SecondCopy(length, first, rest, out) := s.reader;
    if |out| < Fixed(s, length) && |out| < first + length {
      SlotHolds(s, |out| - first);
    }
  }

  lemma AgreesWhole(out: seq<byte>, stream: seq<byte>, d: nat, length: nat, fixed: int)
    requires Agrees(out, stream, d, fixed) && length <= fixed && length <= |out| && d <= |stream|
    ensures d + length <= |stream| && out[..length] == stream[d..d + length]
  {
    if length > 0 {
      assert out[length - 1] == stream[d + (length - 1)];
    }
  }

  lemma AdvanceIndexKeeps(s: State)
    requires Inv(s) && s.reader.AdvanceIndex?
    ensures Inv(StepReader(s))
  {
    SlotOf(Position(s), s.reader.rest);
    AgreesWhole(s.reader.out, s.received, |s.delivered|, s.reader.length, Fixed(s, s.reader.length));
    DeliverKeeps(s, StepReader(s), s.reader.length);
  }

  lemma DeliverKeeps(s: State, t: State, length: nat)
    requires |s.delivered| + length <= |s.received| == |t.received| && t.received == s.received
    requires s.delivered == s.received[..|s.delivered|]
    requires t.delivered == s.delivered + s.received[|s.delivered|..|s.delivered| + length]
    ensures t.delivered == t.received[..|t.delivered|] && |t.delivered| <= |t.received|
  {}

  lemma StepKeeps(s: State, a: Action)
    requires Inv(s) && Enabled(s, a)
    ensures Inv(Step(s, a))
  {
    match a
    case Request(length) =>
    case Land(b) => LandKeeps(s, b);
    case Increment => IncrementKeeps(s);
    case Wrap => WrapKeeps(s);
    case ReaderStep =>
      match s.reader
      case FirstCompare(_) => CompareKeeps(s);
      case SecondCompare(_, _) => CompareKeeps(s);
      case ChooseCopy(_) => ChooseCopyKeeps(s);
      case FirstCopy(_, _, _) => FirstCopyKeeps(s);
      case ClearIndex(_, _) => ClearIndexKeeps(s);
      case SecondCopy(_, _, _, _) => SecondCopyKeeps(s);
      case AdvanceIndex(_, _, _, _) => AdvanceIndexKeeps(s);
  }

  // ----- runs

  function Exec(actions: seq<Action>): State {
    if actions == [] then Start() else Step(Exec(actions[..|actions| - 1]), actions[|actions| - 1])
  }

  /** Every action was enabled when it was taken. */
  ghost predicate IsRun(actions: seq<Action>) {
    actions == [] ||
    (IsRun(actions[..|actions| - 1]) && Enabled(Exec(actions[..|actions| - 1]), actions[|actions| - 1]))
  }

  lemma {:induction false} RunsKeepInv(actions: seq<Action>)
    requires IsRun(actions)
    ensures Inv(Exec(actions))
  {
    if actions == [] {
      StartIsGood();
    } else {
      RunsKeepInv(actions[..|actions| - 1]);
      StepKeeps(Exec(actions[..|actions| - 1]), actions[|actions| - 1]);
    }
  }

  /** Over every interleaving nothing is lost, duplicated or reordered: what the reader was
      given is a prefix of what arrived.  The read index stays inside the buffer, and so does
      the write index but for the moment between its increment and its wrap-around. */
  lemma DeliveredIsPrefix(actions: seq<Action>)
    requires IsRun(actions)
    ensures var s := Exec(actions);
            && s.delivered <= s.received
            && 0 <= s.ring.rd < SIZE && 0 <= s.ring.wr <= SIZE
            && (s.ring.wr == SIZE ==> s.filler == Incremented)
            && |s.received| - |s.delivered| <= 2 * SIZE
  {
    RunsKeepInv(actions);
  }

  /** A step that ends a call either delivers exactly the requested number of bytes or, from
      the second comparison, refuses and leaves the read index alone. */
  lemma CallsDeliverInFull(actions: seq<Action>)
    requires IsRun(actions)
    ensures var s := Exec(actions);
            var t := StepReader(s);
            s.reader != Idle && t.reader == Idle ==>
              if s.reader.SecondCompare? then t.ring == s.ring && t.delivered == s.delivered
              else |s.delivered| + s.reader.length <= |s.received|
                   && t.delivered == s.received[..|s.delivered| + s.reader.length]
  {
    RunsKeepInv(actions);
    var s := Exec(actions);
    if s.reader.SecondCopy? || s.reader.AdvanceIndex? {
      StepKeeps(s, ReaderStep);
    }
  }

  /** What a call that is accepted writes to its destination, however it was interrupted: as
      many bytes as `DestinationNeed` says of the read index at the call, and the stream for as
      many of them as belong to the packet or had arrived when the call was made. */
  lemma CallsWrite(actions: seq<Action>)
    requires IsRun(actions)
    ensures var s := Exec(actions);
            var t := StepReader(s);
            s.reader != Idle && t.reader == Idle && !s.reader.SecondCompare? ==>
              && |t.written| == DestinationNeed(|s.delivered| % SIZE, s.reader.length)
              && (forall k | 0 <= k < |t.written| && (k < s.reader.length || |s.delivered| + k < s.arrived) ::
                    |s.delivered| + k < |s.received| && t.written[k] == s.received[|s.delivered| + k])
  {
    hide IsRun, Exec, InSlot, WriteIndex;
    RunsKeepInv(actions);
    var s := Exec(actions);
    if s.reader.SecondCopy? || s.reader.AdvanceIndex? {
      FirstIsToTheEnd(|s.delivered|, s.reader.first);
    }
  }

  /** A first copy that ends on the end of the buffer took the bytes up to there. */
  lemma FirstIsToTheEnd(d: nat, first: nat)
    ensures 0 < first <= SIZE && (d + first) % SIZE == 0 ==> first == SIZE - d % SIZE
  {}

  /** When the two comparisons see different write indices the check stays safe but not exact:
      it accepts a length that has arrived, except when the write index wrapped in between.  A
      comparison that sees the index at 100 decides as one that sees the bytes up to the end. */
  lemma RacingCheck(actions: seq<Action>)
    requires IsRun(actions) && Exec(actions).reader.SecondCompare?
    ensures var s := Exec(actions);
            && (StepReader(s).reader.ChooseCopy? <==>
                  && s.reader.length <= Unread(s)
                  && (s.reader.less && s.ring.wr <= s.ring.rd ==> s.reader.length == 0 && s.ring.wr == s.ring.rd))
            && (s.ring.wr == SIZE && s.reader.length > 0 ==> s.reader.less && Unread(s) == SIZE - s.ring.rd)
  {
    hide InSlot, WriteIndex, IsRun, Exec;
    RunsKeepInv(actions);
    IndexFromReadIndex(Exec(actions));
  }

  // ----- the call without preemption

  /** How much of the call lies ahead: its stages, and the bytes of the current copy. */
  function Stage(r: Reader): nat {
    match r
    case Idle => 0
    case AdvanceIndex(_, _, _, _) => 1
    case SecondCopy(_, _, _, _) => 2
    case ClearIndex(_, _) => 3
    case FirstCopy(_, _, _) => 4
    case ChooseCopy(_) => 5
    case SecondCompare(_, _) => 6
    case FirstCompare(_) => 7
  }

  function BytesAhead(r: Reader): nat {
    match r
    case FirstCopy(_, size, out) => if |out| < size then size - |out| else 0
    case SecondCopy(_, first, rest, out) => if |out| < first + (first + rest) then first + (first + rest) - |out| else 0
    case _ => 0
  }

  function RunReader(s: State): State
    decreases Stage(s.reader), BytesAhead(s.reader)
  {
    if s.reader == Idle then s else RunReader(StepReader(s))
  }

  /** Left alone, the steps of the reader amount to the whole call. */
  lemma UninterruptedCall(s: State, length: nat)
    requires ValidRing(s.ring) && s.reader == Idle
    ensures var t := RunReader(Step(s, Request(length)));
            && t.ring == AfterRead(s.ring, length)
            && (if Overflows(s.ring.rd, s.ring.wr, length) then t.delivered == s.delivered && t.written == s.written
                else length <= SIZE && t.delivered == s.delivered + Packet(s.ring, length)
                     && t.written == Written(s.ring, length))
  {
    hide Packet, Written;
    var s0 := s.(arrived := |s.received|);
    var s1 := StepReader(Step(s, Request(length)));
    var s2 := StepReader(s1);
    assert RunReader(Step(s, Request(length))) == RunReader(s1) == RunReader(s2);
    if Overflows(s.ring.rd, s.ring.wr, length) {
      assert s2 == s0;
    } else {
      AcceptedLength(s.ring, length);
      assert s2 == s0.(reader := ChooseCopy(length));
      if s.ring.rd + length >= SIZE {
        AcceptedTwoCopies(s0, length);
      } else {
        AcceptedOneCopy(s0, length);
      }
    }
  }

  lemma AcceptedOneCopy(s: State, length: nat)
    requires ValidRing(s.ring) && s.ring.rd + length < SIZE
    ensures RunReader(s.(reader := ChooseCopy(length)))
         == s.(ring := s.ring.(rd := s.ring.rd + length), reader := Idle,
               delivered := s.delivered + Packet(s.ring, length), written := Written(s.ring, length))
  {
    hide Packet, Written;
    WrittenInTwoParts(s.ring, length);
    var s3 := s.(reader := SecondCopy(length, 0, length, []));
    assert RunReader(s.(reader := ChooseCopy(length))) == RunReader(s3);
    FinishFromSecondCopy(s3);
    PacketInTwoParts(s.ring, length);
    assert ([] + s.ring.buf[s.ring.rd..s.ring.rd + length])[..length] == Packet(s.ring, length);
  }

  lemma AcceptedTwoCopies(s: State, length: nat)
    requires ValidRing(s.ring) && length <= SIZE && s.ring.rd + length >= SIZE
    ensures RunReader(s.(reader := ChooseCopy(length)))
         == s.(ring := s.ring.(rd := s.ring.rd + length - SIZE), reader := Idle,
               delivered := s.delivered + Packet(s.ring, length), written := Written(s.ring, length))
  {
    hide Packet, RunReader, StepReader, Written;
    WrittenInTwoParts(s.ring, length);
    var r := s.ring;
    var out := r.buf[r.rd..SIZE];
    FirstCopyDone(s, length);
    var t := s.(ring := r.(rd := 0), reader := SecondCopy(length, |out|, length - |out|, out));
    FinishFromSecondCopy(t);
    TwoCopiesArePacket(r, length);
  }

  lemma TwoCopiesArePacket(r: Ring, length: nat)
    requires ValidRing(r) && length <= SIZE && r.rd + length >= SIZE
    ensures (r.buf[r.rd..SIZE] + r.buf[0..length])[..length] == Packet(r, length)
  {
    hide Packet;
    PacketInTwoParts(r, length);
  }

  lemma FirstCopyDone(s: State, length: nat)
    requires ValidRing(s.ring) && length <= SIZE && s.ring.rd + length >= SIZE
    ensures var r, out := s.ring, s.ring.buf[s.ring.rd..SIZE];
            RunReader(s.(reader := ChooseCopy(length)))
              == RunReader(s.(ring := r.(rd := 0), reader := SecondCopy(length, |out|, length - |out|, out)))
  {
    var r := s.ring;
    var out := r.buf[r.rd..SIZE];
    var s3 := s.(reader := FirstCopy(length, SIZE - r.rd, []));
    assert RunReader(s.(reader := ChooseCopy(length))) == RunReader(s3);
    FirstCopyRuns(s3);
    assert r.rd + |s3.reader.out| == r.rd && [] + out == out;
    var s4 := s.(reader := ClearIndex(length, out));
    assert RunReader(s4) == RunReader(StepReader(s4));
  }

  lemma OneMoreByte(out: seq<byte>, buf: seq<byte>, at: nat, end: nat)
    requires at < end <= |buf|
    ensures out + buf[at..end] == (out + [buf[at]]) + buf[at + 1..end]
  {}

  lemma NoMoreBytes(out: seq<byte>, buf: seq<byte>, end: nat)
    requires end <= |buf|
    ensures out + buf[end..end] == out
  {}

  lemma {:induction false} FirstCopyRuns(s: State)
    requires s.reader.FirstCopy? && |s.ring.buf| == SIZE && 0 <= s.ring.rd
    requires s.reader.size == SIZE - s.ring.rd && |s.reader.out| <= s.reader.size
    ensures var FirstCopy(length, size, out) := s.reader;
            RunReader(s) == RunReader(s.(reader := ClearIndex(length, out + s.ring.buf[s.ring.rd + |out|..SIZE])))
    decreases s.reader.size - |s.reader.out|
  {
    var FirstCopy(length, size, out) := s.reader;
    var at := s.ring.rd + |out|;
    if |out| < size {
      FirstCopyRuns(StepReader(s));
      OneMoreByte(out, s.ring.buf, at, SIZE);
    } else {
      NoMoreBytes(out, s.ring.buf, SIZE);
    }
  }

  /** The end of a call whose second copy is about to start. */
  lemma FinishFromSecondCopy(s: State)
    requires s.reader.SecondCopy?
    requires var SecondCopy(length, first, rest, out) := s.reader;
             0 <= rest && first + rest == length && |out| == first
             && 0 <= s.ring.rd && s.ring.rd + length <= |s.ring.buf|
    ensures var SecondCopy(length, first, rest, out) := s.reader;
            var copied := out + s.ring.buf[s.ring.rd..s.ring.rd + length];
            RunReader(s) == s.(ring := s.ring.(rd := s.ring.rd + rest), reader := Idle,
                               delivered := s.delivered + copied[..length], written := if rest == 0 then out else copied)
  {
    var SecondCopy(length, first, rest, out) := s.reader;
    var copied := out + s.ring.buf[s.ring.rd..s.ring.rd + length];
    if rest == 0 {
      assert copied[..length] == out;
    } else {
      SecondCopyRuns(s);
      assert s.ring.rd + |out| - first == s.ring.rd;
      var t := s.(reader := AdvanceIndex(length, first, rest, copied));
      assert RunReader(t) == StepReader(t);
    }
  }

  lemma {:induction false} SecondCopyRuns(s: State)
    requires s.reader.SecondCopy?
    requires var SecondCopy(length, first, rest, out) := s.reader;
             0 < rest && first + rest == length && first <= |out| <= first + length
             && 0 <= s.ring.rd && s.ring.rd + length <= |s.ring.buf|
    ensures var SecondCopy(length, first, rest, out) := s.reader;
            RunReader(s) == RunReader(s.(reader := AdvanceIndex(length, first, rest,
                              out + s.ring.buf[s.ring.rd + |out| - first..s.ring.rd + length])))
    decreases s.reader.first + s.reader.length - |s.reader.out|
  {
    hide RunReader, StepReader;
    var SecondCopy(length, first, rest, out) := s.reader;
    var at, end := s.ring.rd + |out| - first, s.ring.rd + length;
    SecondCopyStep(s);
    if |out| < first + length {
      SecondCopyRuns(s.(reader := SecondCopy(length, first, rest, out + [s.ring.buf[at]])));
      OneMoreByte(out, s.ring.buf, at, end);
    } else {
      NoMoreBytes(out, s.ring.buf, end);
    }
  }

  lemma SecondCopyStep(s: State)
    requires s.reader.SecondCopy?
    requires var SecondCopy(length, first, rest, out) := s.reader;
             0 < rest && first + rest == length && first <= |out| <= first + length
             && 0 <= s.ring.rd && s.ring.rd + length <= |s.ring.buf|
    ensures var SecondCopy(length, first, rest, out) := s.reader;
            RunReader(s) == RunReader(s.(reader :=
              if |out| < first + length
              then SecondCopy(length, first, rest, out + [s.ring.buf[s.ring.rd + |out| - first]])
              else AdvanceIndex(length, first, rest, out)))
  {}
}
