/** The log of what the Tx task and the resets do to the FPGA, the FPGA as a function of it, and
    what the bytes of a frame are.  Nothing here depends on the tasks: the facts hold of every
    log. */
module FpgaLog {
  import opened UartRing

  const MAX_POLLS: nat := 10

  /** What the Tx task takes, what crosses the UART and I2C, and the enable bit of each word
      written to the control register, by whichever task. */
  datatype Event =
    | Taken(payload: seq<byte>)
    | Polled(ok: bool, full: bool)
    | Sent(b: byte)
    | Ended(ok: bool)
    | Length(length: nat)
    | LengthFailed
    | Control(on: bool)

  type Log = seq<Event>

  // ----- the FPGA

  datatype Frame = Frame(bytes: seq<byte>, length: nat)

  /** While disabled the FPGA receives nothing and keeps nothing; a length closes a frame over
      what it has received since the last one. */
  datatype Fpga = Fpga(on: bool, fifo: seq<byte>, frames: seq<Frame>)

  function Hear(f: Fpga, e: Event): Fpga {
    match e
    case Sent(b) => if f.on then f.(fifo := f.fifo + [b]) else f
    case Length(n) => f.(fifo := [], frames := f.frames + [Frame(f.fifo, n)])
    case Control(on) => f.(on := on, fifo := if on then f.fifo else [])
    case _ => f
  }

  function Heard(log: Log): Fpga {
    if log == [] then Fpga(false, [], []) else Hear(Heard(log[..|log| - 1]), log[|log| - 1])
  }

  lemma HeardNext(log: Log, e: Event)
    ensures Heard(log + [e]) == Hear(Heard(log), e)
  {
    assert (log + [e])[..|log|] == log;
  }

  predicate OnAt(log: Log, i: nat)
    requires i <= |log|
  {
    Heard(log[..i]).on
  }

  /** The link is enabled at every moment from `i` to `j`. */
  ghost predicate Steady(log: Log, i: nat, j: nat)
    requires j <= |log|
  {
    forall n | i <= n <= j :: OnAt(log, n)
  }

  /** The bytes sent from position `i` on. */
  function SentFrom(log: Log, i: nat): seq<byte> {
    if |log| <= i then []
    else
      var e := log[|log| - 1];
      SentFrom(log[..|log| - 1], i) + if e.Sent? then [e.b] else []
  }

  ghost predicate NoLength(log: Log, i: nat) { forall n | i <= n < |log| :: !log[n].Length? }

  lemma {:induction false} OffIsEmpty(log: Log)
    ensures !Heard(log).on ==> Heard(log).fifo == []
  {
    if log != [] { OffIsEmpty(log[..|log| - 1]); }
  }

  lemma Prefix(log: Log, i: nat, j: nat)
    requires i <= j <= |log|
    ensures log[..j][..i] == log[..i]
  {}

  /** Since a moment after which the link stayed enabled, the FPGA has added every byte sent. */
  lemma {:induction false} FifoWhileSteady(log: Log, i: nat)
    requires i <= |log| && NoLength(log, i) && Steady(log, i, |log|)
    ensures Heard(log).fifo == Heard(log[..i]).fifo + SentFrom(log, i)
  {
    if i == |log| {
      assert log[..i] == log;
    } else {
      var before := log[..|log| - 1];
      forall n | i <= n <= |before| ensures OnAt(before, n) {
        Prefix(log, n, |before|);
        assert OnAt(log, n);
      }
      FifoWhileSteady(before, i);
      Prefix(log, i, |before|);
      assert OnAt(log, |before|) && OnAt(log, |log|) && log[..|log|] == log;
    }
  }

  /** Since the last moment at which it was disabled the FPGA has received exactly the bytes
      sent. */
  lemma {:induction false} FifoSinceOff(log: Log, i: nat)
    requires i <= |log| && NoLength(log, i) && !OnAt(log, i) && Steady(log, i + 1, |log|)
    ensures Heard(log).fifo == SentFrom(log, i)
  {
    OffIsEmpty(log[..i]);
    if i == |log| {
      assert log[..i] == log;
    } else {
      var before := log[..|log| - 1];
      assert OnAt(log, |log|) && log[..|log|] == log;
      forall n | i + 1 <= n <= |before| ensures OnAt(before, n) {
        Prefix(log, n, |before|);
        assert OnAt(log, n);
      }
      Prefix(log, i, |before|);
      FifoSinceOff(before, i);
      if i < |before| { assert OnAt(log, |before|); }
    }
  }

  /** The last moment from `i` on at which the link was off. */
  lemma {:induction false} LastOff(log: Log, i: nat) returns (n: nat)
    requires i <= |log| && !Steady(log, i, |log|)
    ensures i <= n <= |log| && !OnAt(log, n) && Steady(log, n + 1, |log|)
  {
    n := |log|;
    while OnAt(log, n)
      invariant i <= n <= |log| && Steady(log, n + 1, |log|)
      decreases n
    {
      if n == i { assert Steady(log, i, |log|); }
      n := n - 1;
    }
  }

  lemma {:induction false} SentSplits(log: Log, i: nat, j: nat)
    requires i <= j <= |log|
    ensures SentFrom(log, i) == SentFrom(log[..j], i) + SentFrom(log, j)
  {
    if j == |log| {
      assert log[..j] == log;
    } else {
      var before := log[..|log| - 1];
      SentSplits(before, i, j);
      Prefix(log, j, |before|);
    }
  }

  // ----- the history of the Tx task

  /** One length: the number of the message last taken, what was sent since, the position of
      the first byte sent (of the length if none was), and that of the length. */
  datatype Record = Record(source: int, sent: seq<byte>, length: nat, first: nat, at: nat)

  /** `sent` is what was sent for the message last taken, from position `first` on; while
      nothing has been, `first` is the present.  `disciplined` says that no byte was ever sent
      unless a poll, at most the tenth since its message was taken, had just reported room. */
  datatype View = View(takes: seq<seq<byte>>, sent: seq<byte>, first: nat,
                       polls: nat, clear: bool, disciplined: bool, records: seq<Record>)

  /** `i` is the position of the event. */
  function Watch(v: View, e: Event, i: nat): View {
    var idle := if v.sent == [] then v.(first := i + 1) else v;
    match e
    case Taken(p) => v.(takes := v.takes + [p], sent := [], first := i + 1, polls := 0, clear := false)
    case Polled(ok, full) => idle.(polls := v.polls + 1, clear := ok && !full)
    case Sent(b) =>
      v.(sent := v.sent + [b], first := if v.sent == [] then i else v.first,
         disciplined := v.disciplined && v.clear && v.polls <= MAX_POLLS)
    case Ended(_) => idle.(clear := false)
    case Length(n) =>
      v.(records := v.records + [Record(|v.takes| - 1, v.sent, n, if v.sent == [] then i else v.first, i)],
         sent := [], first := i + 1)
    case LengthFailed => idle
    case Control(_) => idle
  }

  function Observe(log: Log): View {
    if log == [] then View([], [], 0, 0, false, true, [])
    else Watch(Observe(log[..|log| - 1]), log[|log| - 1], |log| - 1)
  }

  lemma ObserveNext(log: Log, e: Event)
    ensures Observe(log + [e]) == Watch(Observe(log), e, |log|)
  {
    assert (log + [e])[..|log|] == log;
  }

  /** The history says where the bytes of the current message are in the log. */
  lemma {:induction false} CurrentIs(log: Log)
    ensures var v := Observe(log);
            && v.first <= |log| && (v.sent == [] ==> v.first == |log|)
            && (v.sent != [] ==> v.first < |log| && log[v.first].Sent?)
            && SentFrom(log, v.first) == v.sent && NoLength(log, v.first)
  {
    if log != [] {
      var before, e := log[..|log| - 1], log[|log| - 1];
      CurrentIs(before);
      if !(e.Taken? || e.Length?) && Observe(log).sent != [] { SentFromNext(log, Observe(before).first); }
    }
  }

  lemma SentFromNext(log: Log, i: nat)
    requires log != [] && i < |log|
    ensures var e := log[|log| - 1];
            SentFrom(log, i) == SentFrom(log[..|log| - 1], i) + if e.Sent? then [e.b] else []
  {}

  /** A record and the frame that goes with it. */
  ghost predicate Matches(log: Log, r: Record, f: Frame) {
    && r.first <= r.at < |log| && log[r.at] == Length(r.length)
    && SentFrom(log[..r.at], r.first) == r.sent && NoLength(log[..r.at], r.first)
    && (if r.sent == [] then r.first == r.at else r.first < r.at && log[r.first].Sent?)
    && f == Frame(Heard(log[..r.at]).fifo, r.length)
  }

  lemma MatchesLater(log: Log, e: Event, r: Record, f: Frame)
    requires Matches(log, r, f)
    ensures Matches(log + [e], r, f)
  {
    assert (log + [e])[..r.at] == log[..r.at];
  }

  lemma MatchesNow(log: Log, n: nat)
    ensures var v := Observe(log);
            Matches(log + [Length(n)], Record(|v.takes| - 1, v.sent, n, v.first, |log|), Frame(Heard(log).fifo, n))
  {
    CurrentIs(log);
    assert (log + [Length(n)])[..|log|] == log;
  }

  /** The frames the FPGA has closed are those the history records. */
  ghost predicate AllMatch(log: Log) {
    var frames, records := Heard(log).frames, Observe(log).records;
    |frames| == |records| && forall k | 0 <= k < |frames| :: Matches(log, records[k], frames[k])
  }

  lemma {:induction false} RecordsMatch(log: Log)
    ensures AllMatch(log)
  {
    if log != [] {
      var before, e := log[..|log| - 1], log[|log| - 1];
      RecordsMatch(before);
      RecordsMatchNext(before, e);
      assert before + [e] == log;
    }
  }

  lemma RecordsMatchNext(log: Log, e: Event)
    requires AllMatch(log)
    ensures AllMatch(log + [e])
  {
    hide Matches, Observe, Heard;
    ObserveNext(log, e);
    HeardNext(log, e);
    var v := Observe(log);
    forall k | 0 <= k < |v.records| ensures Matches(log + [e], v.records[k], Heard(log).frames[k]) {
      MatchesLater(log, e, v.records[k], Heard(log).frames[k]);
    }
    if e.Length? {
      CurrentIs(log);
      MatchesNow(log, e.length);
    }
  }

  // ----- what a frame holds

  /** While the link stays enabled from the first byte to the length, the frame is what was
      left over before the first byte, and everything sent. */
  lemma SteadyFrame(log: Log, r: Record, f: Frame)
    requires Matches(log, r, f) && Steady(log, r.first, r.at)
    ensures f.bytes == Heard(log[..r.first]).fifo + r.sent
  {
    var upTo := log[..r.at];
    forall n | r.first <= n <= |upTo| ensures OnAt(upTo, n) {
      Prefix(log, n, r.at);
      assert OnAt(log, n);
    }
    FifoWhileSteady(upTo, r.first);
    Prefix(log, r.first, r.at);
  }

  /** Otherwise the frame is what was sent since the link was last off: a proper suffix, and
      nothing that was left over. */
  lemma TornFrame(log: Log, r: Record, f: Frame) returns (n: nat)
    requires Matches(log, r, f) && !Steady(log, r.first, r.at)
    ensures r.first <= n <= r.at && !OnAt(log, n) && Steady(log, n + 1, r.at)
    ensures f.bytes == SentFrom(log[..r.at], n)
    ensures r.sent == SentFrom(log[..n], r.first) + f.bytes
    ensures r.sent != [] ==> |f.bytes| < |r.sent|
  {
    var upTo := log[..r.at];
    assert !Steady(upTo, r.first, r.at) by {
      var n :| r.first <= n <= r.at && !OnAt(log, n);
      Prefix(log, n, r.at);
      assert !OnAt(upTo, n);
    }
    n := LastOff(upTo, r.first);
    Prefix(log, n, r.at);
    forall m | n + 1 <= m <= r.at ensures OnAt(log, m) {
      Prefix(log, m, r.at);
      assert OnAt(upTo, m);
    }
    FifoSinceOff(upTo, n);
    SentSplits(upTo, r.first, n);
    if r.sent != [] { FirstByteIsLost(log, r, n); }
  }

  /** A link that is off at the first byte is off just after it as well. */
  lemma FirstByteIsLost(log: Log, r: Record, n: nat)
    requires r.first <= n <= r.at <= |log| && !OnAt(log, n) && Steady(log, n + 1, r.at)
    requires r.first < r.at && log[r.first].Sent?
    ensures SentFrom(log[..n], r.first) != []
  {
    var next := log[..r.first + 1];
    Prefix(log, r.first, r.first + 1);
    assert OnAt(log, r.first + 1) == OnAt(log, r.first);
    Prefix(log, r.first + 1, n);
    SentSplits(log[..n], r.first, r.first + 1);
  }

  /** A frame is exactly what was sent if and only if nothing was left over before it and the
      link was enabled from the first byte to the length (or nothing was sent). */
  lemma WholeIff(log: Log, r: Record, f: Frame)
    requires Matches(log, r, f)
    ensures f.bytes == r.sent <==> Heard(log[..r.first]).fifo == [] && (r.sent == [] || Steady(log, r.first, r.at))
  {
    if Steady(log, r.first, r.at) {
      SteadyFrame(log, r, f);
      var left := Heard(log[..r.first]).fifo;
      assert left == [] ==> left + r.sent == r.sent;
    } else {
      var n := TornFrame(log, r, f);
      OffIsEmpty(log[..r.first]);
    }
  }

  // ----- what can be left over

  /** A message is given up when its UART call or its length fails. */
  predicate GivesUp(e: Event) { e == Ended(false) || e == LengthFailed }

  /** What the FPGA still holds at `i` was given up, and the link has not been off since. */
  ghost predicate Clean(log: Log, i: nat) {
    i <= |log| && (Heard(log[..i]).fifo != [] ==> exists a | 0 <= a < i :: GivesUp(log[a]) && Steady(log, a, i))
  }

  lemma SteadyLater(log: Log, e: Event, i: nat, j: nat)
    requires j <= |log|
    ensures Steady(log + [e], i, j) == Steady(log, i, j)
  {
    forall n | i <= n <= j ensures OnAt(log + [e], n) == OnAt(log, n) {
      assert (log + [e])[..n] == log[..n];
    }
  }

  lemma CleanLater(log: Log, e: Event, i: nat)
    requires Clean(log, i)
    ensures Clean(log + [e], i)
  {
    assert (log + [e])[..i] == log[..i];
    if Heard(log[..i]).fifo != [] {
      var a :| 0 <= a < i && GivesUp(log[a]) && Steady(log, a, i);
      SteadyLater(log, e, a, i);
      assert GivesUp((log + [e])[a]);
    }
  }

  /** Nothing but bytes dirties the FPGA. */
  lemma CleanNext(log: Log, e: Event)
    requires Clean(log, |log|) && !e.Sent?
    ensures Clean(log + [e], |log| + 1)
  {
    var next := log + [e];
    assert next[..|log| + 1] == next && log[..|log|] == log && next[..|log|] == log;
    HeardNext(log, e);
    OffIsEmpty(log);
    if Heard(next).fifo != [] {
      var a :| 0 <= a < |log| && GivesUp(log[a]) && Steady(log, a, |log|);
      SteadyLater(log, e, a, |log|);
      assert GivesUp(next[a]) && OnAt(next, |log| + 1) && Steady(next, a, |log| + 1);
    }
  }

  lemma CleanGivenUp(log: Log, e: Event)
    requires GivesUp(e)
    ensures Clean(log + [e], |log| + 1)
  {
    var next := log + [e];
    assert next[..|log| + 1] == next && next[..|log|] == log;
    HeardNext(log, e);
    OffIsEmpty(log);
    if Heard(next).fifo != [] {
      assert GivesUp(next[|log|]) && OnAt(next, |log|) && OnAt(next, |log| + 1) && Steady(next, |log|, |log| + 1);
    }
  }
}
