/** The 100-byte receive ring between the UART task and the packet reader of fpga_API.c,
    one whole call at a time. */
module UartRing {

  newtype byte = x: int | 0 <= x < 256

  const SIZE: int := 100

  /** `slot` is where the byte of the pending receive will be stored: the driver is given the
      address once, when the blocking call starts, and keeps it until the call returns. */
  datatype Ring = Ring(buf: seq<byte>, wr: int, rd: int, slot: int)

  predicate ValidRing(r: Ring) {
    |r.buf| == SIZE && 0 <= r.wr < SIZE && 0 <= r.rd < SIZE && 0 <= r.slot < SIZE
  }

  // ----- the calls as functions

  /** check_uart_rx_buffer_overflow: does a read of `length` bytes run past the write index? */
  predicate Overflows(rd: int, wr: int, length: int) {
    if rd < wr then rd + length > wr else rd + length > wr + SIZE
  }

  /** A byte arrives and the next receive starts. */
  function Receive(r: Ring, b: byte): Ring
    requires ValidRing(r)
  {
    var wr := if r.wr + 1 >= SIZE then 0 else r.wr + 1;
    r.(buf := r.buf[r.slot := b], wr := wr, slot := wr)
  }

  /** No byte arrives in time and the receive starts again. */
  function AfterTimeout(r: Ring): Ring { r.(slot := r.wr) }

  function ReceiveAll(r: Ring, bs: seq<byte>): (s: Ring)
    requires ValidRing(r)
    ensures ValidRing(s)
  {
    if bs == [] then r else Receive(ReceiveAll(r, bs[..|bs| - 1]), bs[|bs| - 1])
  }

  /** The first `length` bytes from the read index on, around the end of the buffer. */
  function Packet(r: Ring, length: nat): (p: seq<byte>)
    requires ValidRing(r)
    ensures |p| == length
  {
    seq(length, i requires 0 <= i < length => r.buf[(r.rd + i) % SIZE])
  }

  function AfterRead(r: Ring, length: nat): Ring
    requires ValidRing(r)
  {
    if Overflows(r.rd, r.wr, length) then r else r.(rd := (r.rd + length) % SIZE)
  }

  /** How many destination bytes an accepted read writes.  When the packet wraps, the second
      copy is as long as the whole packet, so the destination needs room for more than it
      asked for. */
  function DestinationNeed(rd: int, length: int): int {
    if rd + length > SIZE then SIZE - rd + length else length
  }

  /** Only the index is cleared: a pending receive keeps its slot. */
  function AfterDisable(r: Ring): Ring { r.(wr := 0) }

  // ----- the calls themselves

  class Uart {
    const buf: array<byte>
    var wr: int
    var rd: int

    /** The address the driver was given for the pending receive. */
    var slot: int

    ghost predicate Valid()
      reads this, buf
    {
      ValidRing(View())
    }

    ghost function View(): Ring
      reads this, buf
    {
      Ring(buf[..], wr, rd, slot)
    }

    constructor ()
      ensures Valid() && fresh(buf) && View() == Ring(seq(SIZE, _ => 0), 0, 0, 0)
    {
      buf := new byte[SIZE](_ => 0);
      wr, rd, slot := 0, 0, 0;
      new;
      assert buf[..] == seq(SIZE, _ => 0);
    }

    /** The rest of one turn of FPGA_UART_Rx_task in which a byte arrives, and the call that
        starts the next. */
    method ReceiveByte(b: byte)
      requires Valid()
      modifies this`wr, this`slot, buf
      ensures Valid() && View() == Receive(old(View()), b)
    {
      buf[slot] := b;
      wr := wr + 1;
      if wr >= SIZE {
        wr := 0;
      }
      slot := wr;
    }

    /** A turn in which none does. */
    method ReceiveNothing()
      requires Valid()
      modifies this`slot
      ensures Valid() && View() == AfterTimeout(old(View()))
    {
      slot := wr;
    }

    method CheckOverflow(length: nat) returns (overflow: bool)
      requires Valid()
      ensures overflow == Overflows(rd, wr, length)
    {
      if rd < wr {
        if rd + length > wr {
          return true;
        }
      } else if rd + length > wr + SIZE {
        return true;
      }
      return false;
    }

    method Memcpy(memory: array<byte>, to: nat, from: nat, n: nat)
      requires buf.Length == SIZE && memory != buf
      requires to + n <= memory.Length && from + n <= SIZE
      modifies memory
      ensures memory[..] == Copied(old(memory[..]), to, buf[from..from + n])
    {
      ghost var was := memory[..];
      for i := 0 to n
        invariant memory[..] == was[..to] + buf[from..from + i] + was[to + i..]
      {
        memory[to + i] := buf[from + i];
      }
    }

    /** FPGA_read_J1708_packet.  A null buffer or an overflow refuses the read.  `memory` is all
        that can be written, the caller's buffer somewhere in it: an accepted read writes
        `Written`, whatever the caller's buffer can hold. */
    method ReadPacket(memory: array?<byte>, at: nat, length: nat) returns (ok: bool)
      requires Valid() && length < 256 && memory != buf
      requires memory != null && !Overflows(rd, wr, length) ==> at + DestinationNeed(rd, length) <= memory.Length
      modifies this`rd, memory
      ensures Valid()
      ensures ok <==> memory != null && !Overflows(old(rd), wr, length)
      ensures !ok ==> View() == old(View()) && (memory != null ==> memory[..] == old(memory[..]))
      ensures ok ==> View() == AfterRead(old(View()), length)
      ensures ok ==> length <= SIZE && at + |Written(old(View()), length)| <= memory.Length
                     && memory[..] == Copied(old(memory[..]), at, Written(old(View()), length))
    {
      if memory == null {
        return false;
      }
      var overflow := CheckOverflow(length);
      if overflow {
        return false;
      }
      AcceptedLength(View(), length);
      CopyOut(memory, at, length);
      return true;
    }

    /** The two stages of an accepted read.  The second copies as many bytes as the whole
        packet has, starting after those of the first. */
    method CopyOut(memory: array<byte>, at: nat, length: nat)
      requires Valid() && memory != buf && !Overflows(rd, wr, length) && length <= SIZE
      requires at + DestinationNeed(rd, length) <= memory.Length
      modifies this`rd, memory
      ensures Valid() && View() == AfterRead(old(View()), length)
      ensures memory[..] == Copied(old(memory[..]), at, Written(old(View()), length))
    {
      hide Copied, Packet;
      ghost var was, before := View(), memory[..];
      CopiesAreWritten(was, before, at, length);
      var to, len, size := at, length, 0;
      if rd + len >= SIZE {
        size := SIZE - rd;
        len := len - (SIZE - rd);
        Memcpy(memory, to, rd, size);
        to := to + size;
        rd := 0;
      }
      if len != 0 {
        size := size + len;
        Memcpy(memory, to, rd, size);
        rd := rd + len;
      }
      assert memory[..] == CopiedOut(was, before, at, length);
    }

    /** What FPGA_J1708_disable does to the ring: the write index is cleared twice. */
    method Disable()
      requires Valid()
      modifies this`wr
      ensures Valid() && View() == AfterDisable(old(View()))
    {
      wr := 0;
      wr := 0;
    }
  }

  /** A destination after `bytes` were copied to position `to`. */
  function Copied(dst: seq<byte>, to: nat, bytes: seq<byte>): (d: seq<byte>)
    requires to + |bytes| <= |dst|
    ensures |d| == |dst|
  {
    dst[..to] + bytes + dst[to + |bytes|..]
  }

  /** A destination after the one or two copies of an accepted read to position `at`. */
  function CopiedOut(r: Ring, dst: seq<byte>, at: nat, length: nat): seq<byte>
    requires ValidRing(r) && length <= SIZE && at + DestinationNeed(r.rd, length) <= |dst|
  {
    if r.rd + length < SIZE then
      if length == 0 then dst else Copied(dst, at, r.buf[r.rd..r.rd + length])
    else
      var first := Copied(dst, at, r.buf[r.rd..SIZE]);
      if r.rd + length == SIZE then first else Copied(first, at + SIZE - r.rd, r.buf[0..length])
  }

  /** The bytes an accepted read writes from the destination on: the packet and, when it wraps,
      as many bytes from further along the buffer as it has before the wrap. */
  function Written(r: Ring, length: nat): (w: seq<byte>)
    requires ValidRing(r) && length <= SIZE
    ensures |w| == DestinationNeed(r.rd, length) >= length
  {
    Packet(r, length) + if r.rd + length > SIZE then r.buf[r.rd + length - SIZE..length] else []
  }

  lemma CopiesAreWritten(r: Ring, dst: seq<byte>, at: nat, length: nat)
    requires ValidRing(r) && length <= SIZE && at + DestinationNeed(r.rd, length) <= |dst|
    ensures CopiedOut(r, dst, at, length) == Copied(dst, at, Written(r, length))
  {
    hide Copied, Packet, Written;
    WrittenInTwoParts(r, length);
    if r.rd + length > SIZE {
      CopyTwice(dst, at, r.buf[r.rd..SIZE], r.buf[0..length]);
    } else if length == 0 {
      CopyNothing(dst, at);
    }
  }

  lemma CopyTwice(dst: seq<byte>, at: nat, first: seq<byte>, second: seq<byte>)
    requires at + |first| + |second| <= |dst|
    ensures Copied(Copied(dst, at, first), at + |first|, second) == Copied(dst, at, first + second)
  {
    assert (dst[..at] + first + dst[at + |first|..])[..at + |first|] == dst[..at] + first;
  }

  lemma CopyNothing(dst: seq<byte>, at: nat)
    requires at <= |dst|
    ensures Copied(dst, at, []) == dst
  {}

  lemma WrittenInTwoParts(r: Ring, length: nat)
    requires ValidRing(r) && length <= SIZE
    ensures Written(r, length) == if r.rd + length <= SIZE then r.buf[r.rd..r.rd + length]
                                  else r.buf[r.rd..SIZE] + r.buf[0..length]
  {
    hide Packet;
    PacketInTwoParts(r, length);
    if r.rd + length > SIZE {
      var rest := r.rd + length - SIZE;
      assert r.buf[0..length] == r.buf[..rest] + r.buf[rest..length];
    }
  }

  lemma AcceptedLength(r: Ring, length: nat)
    requires ValidRing(r) && !Overflows(r.rd, r.wr, length)
    ensures length <= SIZE
  {}

  lemma PacketInTwoParts(r: Ring, length: nat)
    requires ValidRing(r) && length <= SIZE
    ensures r.rd + length < SIZE ==> Packet(r, length) == r.buf[r.rd..r.rd + length]
    ensures r.rd + length >= SIZE ==> Packet(r, length) == r.buf[r.rd..] + r.buf[..r.rd + length - SIZE]
  {
    if r.rd + length >= SIZE {
      var two := r.buf[r.rd..] + r.buf[..r.rd + length - SIZE];
      forall i | 0 <= i < length ensures Packet(r, length)[i] == two[i] {}
    }
  }

  // ----- a queue of bytes

  /** The ring holds exactly the bytes `unread`, oldest at the read index. */
  ghost predicate Holds(r: Ring, unread: seq<byte>) {
    && ValidRing(r) && |unread| <= SIZE
    && r.wr == r.slot == (r.rd + |unread|) % SIZE
    && forall i | 0 <= i < |unread| :: r.buf[(r.rd + i) % SIZE] == unread[i]
  }

  lemma ReceiveAppends(r: Ring, unread: seq<byte>, b: byte)
    requires Holds(r, unread) && |unread| < SIZE
    ensures Holds(Receive(r, b), unread + [b])
  {
    var s, u := Receive(r, b), unread + [b];
    forall i | 0 <= i < |u| ensures s.buf[(s.rd + i) % SIZE] == u[i] {
      if i < |unread| {
        assert (r.rd + i) % SIZE != r.wr;
      }
    }
  }

  /** With at least one unread byte the check accepts exactly the lengths that have arrived;
      with none it mistakes the ring for full and accepts anything up to its size. */
  lemma CheckIsExact(r: Ring, unread: seq<byte>, length: nat)
    requires Holds(r, unread)
    ensures !Overflows(r.rd, r.wr, length) <==> length <= (if unread == [] then SIZE else |unread|)
  {}

  /** The check is right for a length if and only if something is unread, or nothing is asked
      for, or more than the ring can hold is asked for. */
  lemma CheckIsRightIff(r: Ring, unread: seq<byte>, length: nat)
    requires Holds(r, unread)
    ensures (!Overflows(r.rd, r.wr, length) <==> length <= |unread|)
       <==> (unread != [] || length == 0 || length > SIZE)
  {}

  /** An accepted read of arrived bytes takes them from the front of the queue. */
  lemma ReadTakesFront(r: Ring, unread: seq<byte>, length: nat)
    requires Holds(r, unread) && length <= |unread|
    ensures Packet(r, length) == unread[..length]
    ensures Holds(AfterRead(r, length), unread[length..])
  {
    CheckIsExact(r, unread, length);
    var s, u := AfterRead(r, length), unread[length..];
    forall i | 0 <= i < |u| ensures s.buf[(s.rd + i) % SIZE] == u[i] {
      SlotAfterRead(r.rd, length, i);
    }
    SlotAfterRead(r.rd, length, |u|);
  }

  lemma SlotAfterRead(rd: nat, length: nat, i: nat)
    ensures ((rd + length) % SIZE + i) % SIZE == (rd + (length + i)) % SIZE
  {}

  /** The over-long second copy never needs more than twice the packet, and needs more than
      the packet exactly when the packet wraps past the end of the buffer. */
  lemma DestinationNeedBounds(rd: int, length: nat)
    requires 0 <= rd < SIZE && length <= SIZE
    ensures length <= DestinationNeed(rd, length) <= 2 * length
    ensures DestinationNeed(rd, length) > length <==> rd + length > SIZE
  {}

  /** When a read stays inside a destination that has room for the packet. */
  lemma FitsIff(rd: int, length: nat, room: nat)
    requires 0 <= rd < SIZE && length <= room
    ensures DestinationNeed(rd, length) <= room <==> rd + length <= SIZE || length + SIZE - room <= rd
  {}

  /** The lengths that stay inside a destination of `room` bytes wherever the read index is:
      those of about half of it. */
  lemma AlwaysFitsIff(length: nat, room: nat)
    requires length <= SIZE
    ensures (forall rd: nat | rd < SIZE :: DestinationNeed(rd, length) <= room) <==> 2 * length - 1 <= room
  {
    if 1 < length && 2 * length - 1 > room {
      assert DestinationNeed(SIZE + 1 - length, length) > room;
    } else if length == 1 && room == 0 {
      assert DestinationNeed(0, length) > room;
    }
  }

  /** A full message of 64 bytes that lies across the end of the buffer is accepted, and forty
      bytes are written behind it. */
  lemma FullMessageOverruns(r: Ring)
    requires ValidRing(r) && r.rd == 60 && r.wr == 24
    ensures !Overflows(r.rd, r.wr, 64) && |Written(r, 64)| == 104
    ensures forall i | 64 <= i < 104 :: Written(r, 64)[i] == r.buf[i - 40]
  {}

  /** What an accepted read leaves in memory from its destination on: behind the packet, bytes
      from further along the buffer; behind what is written, what was there. */
  lemma MemoryAfterRead(r: Ring, length: nat, memory: seq<byte>, at: nat, i: nat)
    requires ValidRing(r) && length <= SIZE && at + DestinationNeed(r.rd, length) <= |memory|
    requires length <= i && at + i < |memory|
    ensures Copied(memory, at, Written(r, length))[at + i]
         == if i < DestinationNeed(r.rd, length) then r.buf[r.rd + i - SIZE] else memory[at + i]
  {
    hide Packet;
  }

  /** Memory behind the first `room` bytes of a destination is left alone, whatever it holds, if
      and only if the read fits. */
  lemma BehindIsLeftAloneIff(r: Ring, length: nat, at: nat, room: nat, size: nat)
    requires ValidRing(r) && length <= SIZE && length <= room
    requires at + room <= size && at + DestinationNeed(r.rd, length) <= size
    ensures (forall memory: seq<byte> | |memory| == size ::
               Copied(memory, at, Written(r, length))[at + room..] == memory[at + room..])
       <==> DestinationNeed(r.rd, length) <= room
  {
    hide Packet, Written, Copied;
    if DestinationNeed(r.rd, length) <= room {
      forall memory: seq<byte> | |memory| == size
        ensures Copied(memory, at, Written(r, length))[at + room..] == memory[at + room..]
      {
        var after := Copied(memory, at, Written(r, length));
        forall k | at + room <= k < size ensures after[k] == memory[k] {
          MemoryAfterRead(r, length, memory, at, k - at);
        }
        SameTail(after, memory, at + room);
      }
    } else {
      var other: byte := if r.buf[r.rd + room - SIZE] == 0 then 1 else 0;
      var memory := seq(size, _ => other);
      MemoryAfterRead(r, length, memory, at, room);
      var after := Copied(memory, at, Written(r, length));
      assert after[at + room..][0] != memory[at + room..][0];
    }
  }

  lemma SameTail(s: seq<byte>, t: seq<byte>, from: nat)
    requires |s| == |t| && from <= |s|
    requires forall k | from <= k < |s| :: s[k] == t[k]
    ensures s[from..] == t[from..]
  {}

  // ----- disabling

  /** After a disable the first byte goes where the pending receive was told to put it, the next
      ones to the slots from 1 on. */
  lemma {:induction false} ReceiveAllFromZero(r: Ring, bs: seq<byte>)
    requires ValidRing(r) && r.wr == 0 && 1 <= |bs| <= SIZE
    ensures var s := ReceiveAll(r, bs);
            && s.rd == r.rd && s.wr == |bs| % SIZE && |s.buf| == SIZE
            && (forall i | 1 <= i < |bs| :: s.buf[i] == bs[i])
            && (r.slot == 0 || |bs| <= r.slot ==> s.buf[r.slot] == bs[0])
            && (forall i | 0 <= i < SIZE && i != r.slot && (i == 0 || |bs| <= i) :: s.buf[i] == r.buf[i])
            && s.slot == s.wr
  {
    var before := bs[..|bs| - 1];
    if before == [] {
      assert ReceiveAll(r, before) == r;
    } else {
      ReceiveAllFromZero(r, before);
    }
  }

  /** What arrives next comes back. */
  predicate Delivers(r: Ring, bs: seq<byte>)
    requires ValidRing(r)
  {
    var s := ReceiveAll(r, bs);
    !Overflows(s.rd, s.wr, |bs|) && Packet(s, |bs|) == bs
  }

  ghost predicate AlwaysDelivers(r: Ring, n: nat)
    requires ValidRing(r)
  {
    forall bs: seq<byte> | |bs| == n :: Delivers(r, bs)
  }

  /** Whatever arrives after a disable is read back correctly if and only if the read index is
      zero and so is the slot of the pending receive; for a single byte, if and only if the two
      are the same. */
  lemma DisableIsSafeIff(r: Ring, n: nat)
    requires ValidRing(r) && 1 <= n <= SIZE
    ensures AlwaysDelivers(AfterDisable(r), n) <==> if n == 1 then r.rd == r.slot else r.rd == 0 && r.slot == 0
  {
    DeliversIff(AfterDisable(r), n);
  }

  /** If the pending receive times out first, the next one starts at zero and only the read index
      matters. */
  lemma DisableAndTimeoutIsSafeIff(r: Ring, n: nat)
    requires ValidRing(r) && 1 <= n <= SIZE
    ensures AlwaysDelivers(AfterTimeout(AfterDisable(r)), n) <==> r.rd == 0
  {
    DeliversIff(AfterTimeout(AfterDisable(r)), n);
  }

  lemma DeliversIff(r: Ring, n: nat)
    requires ValidRing(r) && r.wr == 0 && 1 <= n <= SIZE
    ensures AlwaysDelivers(r, n) <==> if n == 1 then r.rd == r.slot else r.rd == 0 && r.slot == 0
  {
    hide Delivers;
    if (if n == 1 then r.rd == r.slot else r.rd == 0 && r.slot == 0) {
      forall bs: seq<byte> | |bs| == n ensures Delivers(r, bs) { DeliversAligned(r, bs); }
    } else {
      var bs := LostUnaligned(r, n);
      assert |bs| == n && !Delivers(r, bs);
    }
  }

  lemma DeliversAligned(r: Ring, bs: seq<byte>)
    requires ValidRing(r) && r.wr == 0 && 1 <= |bs| <= SIZE
    requires if |bs| == 1 then r.rd == r.slot else r.rd == 0 && r.slot == 0
    ensures Delivers(r, bs)
  {
    hide ReceiveAll;
    ReceiveAllFromZero(r, bs);
  }

  /** Either the read is refused, or one of its bytes is not the one that arrived: the first if
      the pending receive put it elsewhere, the second if the read index is not at its slot. */
  lemma LostUnaligned(r: Ring, n: nat) returns (bs: seq<byte>)
    requires ValidRing(r) && r.wr == 0 && 1 <= n <= SIZE
    requires !(if n == 1 then r.rd == r.slot else r.rd == 0 && r.slot == 0)
    ensures |bs| == n && !Delivers(r, bs)
  {
    hide ReceiveAll;
    if n == 1 || r.rd == 0 {
      var other: byte := if r.buf[r.rd] == 0 then 1 else 0;
      bs := seq(n, _ => other);
      ReceiveAllFromZero(r, bs);
      assert Packet(ReceiveAll(r, bs), n)[0] == r.buf[r.rd];
    } else {
      var k := (r.rd + 1) % SIZE;
      var other: byte := if r.buf[k] == 1 then 2 else 1;
      bs := seq(n, i => if i == 1 then other else 0);
      ReceiveAllFromZero(r, bs);
      var s := ReceiveAll(r, bs);
      assert s.buf[k] == 0 || s.buf[k] == r.buf[k];
      assert Packet(s, n)[1] == s.buf[k];
    }
  }

  /** The read index is zero, but a receive was pending elsewhere: the next read is accepted and
      returns a stale byte. */
  lemma StaleAfterDisable(r: Ring, b: byte)
    requires ValidRing(r) && r.rd == 0 && r.slot != 0
    ensures var s := Receive(AfterDisable(r), b);
            !Overflows(s.rd, s.wr, 1) && Packet(s, 1) == [r.buf[0]]
  {}

  /** The read index is not zero, but the ring was empty: the next byte is read back. */
  lemma EmptyRingAfterDisable(r: Ring, b: byte)
    requires Holds(r, [])
    ensures Delivers(AfterDisable(r), [b])
  {
    DeliversAligned(AfterDisable(r), [b]);
  }
}
