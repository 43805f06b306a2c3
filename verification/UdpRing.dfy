/** The ring of the UDP queue holds, in order, the packets still to be sent: a first-in first-out
    queue of at most eight packets that drops its oldest one when its slot is needed. */
module UdpRing {
  import opened Basics
  import opened Block
  import opened UdpModel

  /** The packets waiting at queue positions i and later. */
  function PendingFrom(p: Pool, i: nat): seq<Packet>
    requires Valid(p)
    decreases p.length - i
  {
    if i >= p.length then []
    else
      var s := p.packets[SlotOf(i)];
      (if s.len == 0 then [] else [SlotPacket(s, p.addrs)]) + PendingFrom(p, i + 1)
  }

  function Pending(p: Pool): seq<Packet>
    requires Valid(p)
  {
    PendingFrom(p, Start(p.length))
  }

  /** Each of the next n positions has a slot of its own as long as there are at most eight. */
  lemma SlotsDiffer(i: nat, j: nat)
    requires i < j < i + MAX_BUFFERED_PACKETS
    ensures SlotOf(i) != SlotOf(j)
  {
  }

  /** PendingFrom looks only at the slots of its positions and at the addresses they point to. */
  lemma {:induction false} PendingSame(p: Pool, q: Pool, i: nat)
    requires Valid(p) && Valid(q) && p.length == q.length
    requires forall j :: i <= j < p.length ==>
               var s, t := p.packets[SlotOf(j)], q.packets[SlotOf(j)];
               s.len == t.len && (s.len != 0 ==> SlotPacket(s, p.addrs) == SlotPacket(t, q.addrs))
    ensures PendingFrom(p, i) == PendingFrom(q, i)
    decreases p.length - i
  {
    hide Valid, SlotPacket, SlotOf;
    if i < p.length {
      PendingSame(p, q, i + 1);
    }
  }

  lemma {:induction false} PendingBound(p: Pool, i: nat)
    requires Valid(p) && i <= p.length
    ensures |PendingFrom(p, i)| <= p.length - i
    ensures (forall j :: i <= j < p.length ==> p.packets[SlotOf(j)].len != 0) ==> |PendingFrom(p, i)| == p.length - i
    ensures |PendingFrom(p, i)| == p.length - i ==> i == p.length || p.packets[SlotOf(i)].len != 0
    decreases p.length - i
  {
    hide Valid, SlotPacket, SlotOf;
    if i < p.length {
      PendingBound(p, i + 1);
    }
  }

  /** Positions before the first waiting packet do not matter. */
  lemma {:induction false} PendingSkip(p: Pool, i: nat, j: nat)
    requires Valid(p) && i <= j <= p.length
    requires forall l :: i <= l < j ==> p.packets[SlotOf(l)].len == 0
    ensures PendingFrom(p, i) == PendingFrom(p, j)
    decreases j - i
  {
    hide Valid, SlotPacket, SlotOf;
    if i < j {
      PendingSkip(p, i + 1, j);
    }
  }

  lemma SameSlot(length: nat)
    requires length >= MAX_BUFFERED_PACKETS
    ensures SlotOf(Start(length)) == SlotOf(length)
  {
  }

  /** The next slot to be written still holds a waiting packet: the oldest one. */
  predicate Evicts(p: Pool)
    requires Valid(p)
  {
    p.length >= MAX_BUFFERED_PACKETS && p.packets[SlotOf(p.length)].len != 0
  }

  /** s without its oldest element if that has to go. */
  function Room<T>(s: seq<T>, evicts: bool): seq<T> {
    if evicts && s != [] then s[1..] else s
  }

  /** What is left of the window when it moves one position on. */
  lemma WindowMoves(p: Pool)
    requires Valid(p)
    ensures Evicts(p) ==> Pending(p) != []
    ensures PendingFrom(p, Start(p.length + 1)) == Room(Pending(p), Evicts(p))
  {
    hide Valid, SlotPacket, SlotOf;
    var s := Start(p.length);
    if p.length >= MAX_BUFFERED_PACKETS {
      SameSlot(p.length);
      assert Start(p.length + 1) == s + 1;
    }
  }

  lemma PendingAtMostEight(p: Pool)
    requires Valid(p)
    ensures |Pending(p)| <= MAX_BUFFERED_PACKETS
  {
    hide Valid, SlotPacket, SlotOf, PendingFrom;
    PendingBound(p, Start(p.length));
  }

  /** Where a packet for d goes once it has been queued: an address without a length is forgotten. */
  function Effective(d: Dest): Dest {
    if d.To? && d.addr.addrLen <= 0 then Connected else d
  }

  /** What becomes of a packet in the queue: its length is cut to 16 bits. */
  function Queued(packet: Packet): Packet {
    Packet(Effective(packet.dest), packet.payload[..|packet.payload| % UINT16])
  }

  /** The packet that queueing leaves in the ring: none if its length is cut to nothing. */
  function Stored(packet: Packet): seq<Packet> {
    if |packet.payload| % UINT16 == 0 then [] else [Queued(packet)]
  }

  /** The slots other than the one written keep their packets, addresses included. */
  lemma QueueOthers(p: Pool, addr: Option<Address>, data: seq<byte>, k: nat)
    requires Valid(p) && k < MAX_BUFFERED_PACKETS && k != SlotOf(p.length)
    ensures var q := Queue(p, addr, data);
            && Valid(q) && q.packets[k] == p.packets[k]
            && SlotPacket(q.packets[k], q.addrs) == SlotPacket(p.packets[k], p.addrs)
  {
    hide Filled, Claimed;
    QueueValid(p, addr, data);
    FilledOk(p.packets[SlotOf(p.length)], data, |p.addrs|);
  }

  lemma QueueWritten(p: Pool, addr: Option<Address>, data: seq<byte>)
    requires Valid(p)
    ensures var q := Queue(p, addr, data);
            var s := q.packets[SlotOf(p.length)];
            && Valid(q) && s.len == |data| % UINT16
            && SlotPacket(s, q.addrs) == Queued(Packet(Asked(addr), data))
  {
    hide Filled, Claimed;
    QueueValid(p, addr, data);
    FilledOk(p.packets[SlotOf(p.length)], data, |p.addrs|);
  }

  lemma {:induction false} PendingQueued(p: Pool, addr: Option<Address>, data: seq<byte>, i: nat)
    requires Valid(p) && Start(p.length + 1) <= i <= p.length && p.length + 1 < UINT32
    requires Valid(Queue(p, addr, data))
    ensures PendingFrom(Queue(p, addr, data), i) == PendingFrom(p, i) + Stored(Packet(Asked(addr), data))
    decreases p.length - i
  {
    hide Valid, SlotPacket, Filled, Addressed, SlotOf, Queued;
    var q := Queue(p, addr, data);
    QueueWritten(p, addr, data);
    assert q.length == p.length + 1;
    if i == p.length {
      assert PendingFrom(q, i + 1) == [];
    } else {
      SlotsDiffer(i, p.length);
      QueueOthers(p, addr, data, SlotOf(i));
      PendingQueued(p, addr, data, i + 1);
    }
  }

  /** As long as the position counter does not wrap, queueing drops the oldest packet if its slot is
      needed and appends, for any payload and address. */
  lemma QueueAppends(p: Pool, addr: Option<Address>, data: seq<byte>)
    requires Valid(p) && p.length + 1 < UINT32
    ensures var q := Queue(p, addr, data);
            Valid(q) && Pending(q) == Room(Pending(p), Evicts(p)) + Stored(Packet(Asked(addr), data))
  {
    hide Valid, SlotPacket, Filled, Addressed, SlotOf, PendingFrom;
    QueueValid(p, addr, data);
    WindowMoves(p);
    PendingQueued(p, addr, data, Start(p.length + 1));
  }

  /** A queued packet comes back whole, to where the caller asked, exactly when the payload is not
      empty and fits 16 bits, an address given has a length, and the position counter does not wrap. */
  lemma QueueFaithfulIff(p: Pool, addr: Option<Address>, data: seq<byte>)
    requires Valid(p)
    ensures Valid(Queue(p, addr, data))
    ensures Pending(Queue(p, addr, data)) == Room(Pending(p), Evicts(p)) + [Packet(Asked(addr), data)]
       <==> 1 <= |data| < UINT16 && (addr.Some? ==> addr.value.addrLen > 0) && p.length + 1 < UINT32
  {
    hide Valid, SlotPacket, Filled, Addressed, SlotOf, PendingFrom;
    QueueValid(p, addr, data);
    var q, kept := Queue(p, addr, data), Room(Pending(p), Evicts(p));
    if p.length + 1 < UINT32 {
      QueueAppends(p, addr, data);
      SamePrefix(kept, Stored(Packet(Asked(addr), data)), [Packet(Asked(addr), data)]);
      StoredIff(addr, data);
    } else {
      WrappedEmpty(p, addr, data);
    }
  }

  lemma StoredIff(addr: Option<Address>, data: seq<byte>)
    ensures Stored(Packet(Asked(addr), data)) == [Packet(Asked(addr), data)]
       <==> 1 <= |data| < UINT16 && (addr.Some? ==> addr.value.addrLen > 0)
  {
    if |data| < UINT16 {
      assert data[..|data|] == data;
    } else {
      assert |data| % UINT16 < |data|;
    }
  }

  /** When the 32-bit position counter wraps, everything waiting is lost from view. */
  lemma WrappedEmpty(p: Pool, addr: Option<Address>, data: seq<byte>)
    requires Valid(p) && p.length + 1 >= UINT32
    ensures var q := Queue(p, addr, data); Valid(q) && q.length == 0 && Pending(q) == []
  {
    QueueValid(p, addr, data);
  }

  /** Packets as they go out on the socket of one connection. */
  function OnWire(conn: nat, packets: seq<Packet>): (r: seq<Datagram>)
    ensures |r| == |packets|
  {
    seq(|packets|, j requires 0 <= j < |packets| => Datagram(conn, packets[j]))
  }

  /** A flush that has reached position i: everything before it in the window is sent. */
  ghost predicate FlushedTo(p: Pool, i: nat) {
    && Valid(p)
    && Start(p.length) <= i <= p.length
    && forall j :: Start(p.length) <= j < i ==> p.packets[SlotOf(j)].len == 0
  }

  /** What a flush from position i has done: one call for each of the first k waiting packets, which
      went out in order on the flushing connection, and one more for the packet it stopped at, if any.
      The others are kept, and only a refused call puts the connection in error. */
  ghost predicate Took(p: Pool, q: Pool, blocked: bool, sockets: Sockets, conn: nat, waiting: seq<Packet>, k: nat)
    requires conn < |p.conns|
  {
    && Valid(q) && k <= |waiting|
    && Pending(q) == waiting[k..]
    && q.wire == p.wire + OnWire(conn, waiting[..k])
    && q.calls == p.calls + k + (if k < |waiting| then 1 else 0)
    && (forall c :: p.calls <= c < p.calls + k ==> sockets(c).Sent?)
    && (k < |waiting| ==> !sockets(p.calls + k).Sent?)
    && (blocked <==> k < |waiting| && sockets(p.calls + k).WouldBlock?)
    && q.length == (if k < |waiting| then p.length else 0)
    && q.conns == if k < |waiting| && sockets(p.calls + k).Refused?
                  then p.conns[conn := p.conns[conn].(error := SEND_FAILED)] else p.conns
  }

  lemma WindowSlotsDiffer(length: nat, i: nat, j: nat)
    requires Start(length) <= i < length && Start(length) <= j < length && i != j
    ensures SlotOf(i) != SlotOf(j)
  {
    SlotsDiffer(if i < j then i else j, if i < j then j else i);
  }

  lemma FlushPositionSent(p: Pool, conn: nat, i: nat)
    requires FlushedTo(p, i) && i < p.length && p.packets[SlotOf(i)].len != 0
    ensures var k := SlotOf(i);
            var q := Cleared(Transmit(p, conn, SlotPacket(p.packets[k], p.addrs)), k);
            && FlushedTo(q, i + 1) && q.length == p.length
            && PendingFrom(q, i + 1) == PendingFrom(p, i + 1)
  {
    hide Claimed, SlotOf, SlotOk, PendingFrom, SlotPacket, SlotDest;
    var k := SlotOf(i);
    var t := Transmit(p, conn, SlotPacket(p.packets[k], p.addrs));
    var q := Cleared(t, k);
    ClearedValid(t, k);
    forall j | Start(p.length) <= j < p.length && j != i ensures SlotOf(j) != k {
      WindowSlotsDiffer(p.length, i, j);
    }
    PendingSame(p, q, i + 1);
  }

  lemma FlushedEmpty(p: Pool)
    requires Valid(p)
    ensures var q := p.(length := 0); Valid(q) && Pending(q) == []
    ensures PendingFrom(p, p.length) == []
  {
    hide Claimed, SlotOk;
  }

  /** A flush that stops at position i leaves the ring as it is, apart from the failed call. */
  lemma FlushStops(p: Pool, q: Pool, i: nat)
    requires FlushedTo(p, i)
    requires q.packets == p.packets && q.length == p.length && q.addrs == p.addrs && |q.conns| == |p.conns|
    ensures Valid(q) && Pending(q) == PendingFrom(p, i)
  {
    hide Claimed, SlotOf, SlotPacket, SlotOk;
    PendingSame(p, q, i);
    PendingSkip(q, Start(q.length), i);
  }

  lemma FlushedValid(p: Pool, i: nat)
    requires FlushedTo(p, i)
    ensures Valid(p) && i <= p.length
  {
  }

  lemma FlushedSkip(p: Pool, i: nat)
    requires FlushedTo(p, i) && i < p.length && p.packets[SlotOf(i)].len == 0
    ensures FlushedTo(p, i + 1)
  {
  }

  lemma OnWireMore(conn: nat, packets: seq<Packet>, k: nat)
    requires k + 1 <= |packets|
    ensures OnWire(conn, packets[..k + 1]) == [Datagram(conn, packets[0])] + OnWire(conn, packets[1..][..k])
    ensures packets[k + 1..] == packets[1..][k..]
  {
  }

  /** A flush that sends one packet and then what follows. */
  lemma TookMore(p: Pool, t: Pool, q: Pool, blocked: bool, sockets: Sockets, conn: nat, waiting: seq<Packet>, k: nat)
    requires conn < |p.conns| && waiting != [] && t.wire == p.wire + [Datagram(conn, waiting[0])]
    requires sockets(p.calls).Sent? && t.calls == p.calls + 1 && t.length == p.length && t.conns == p.conns
    requires Took(t, q, blocked, sockets, conn, waiting[1..], k)
    ensures Took(p, q, blocked, sockets, conn, waiting, k + 1)
  {
    hide Valid, Pending, OnWire;
    OnWireMore(conn, waiting, k);
  }

  lemma TookAll(p: Pool, sockets: Sockets, conn: nat)
    requires conn < |p.conns| && Valid(p)
    ensures Took(p, p.(length := 0), false, sockets, conn, [], 0)
  {
    hide Valid, Pending;
    FlushedEmpty(p);
    assert OnWire(conn, []) == [];
  }

  lemma TookNothing(p: Pool, q: Pool, sockets: Sockets, conn: nat, waiting: seq<Packet>)
    requires conn < |p.conns| && Valid(q) && Pending(q) == waiting && waiting != []
    requires q.wire == p.wire && q.length == p.length
    requires q.calls == p.calls + 1 && !sockets(p.calls).Sent?
    requires q.conns == if sockets(p.calls).Refused? then WithError(p, conn).conns else p.conns
    ensures Took(p, q, sockets(p.calls).WouldBlock?, sockets, conn, waiting, 0)
  {
    hide Valid, Pending;
    assert OnWire(conn, waiting[..0]) == [];
  }

  lemma {:induction false} FlushTakes(p: Pool, sockets: Sockets, conn: nat, i: nat) returns (k: nat)
    requires FlushedTo(p, i) && conn < MAX_CONNECTIONS
    ensures var (q, blocked) := FlushFrom(p, sockets, conn, i);
            Took(p, q, blocked, sockets, conn, PendingFrom(p, i), k)
    decreases p.length - i
  {
    hide Claimed, SlotOf, SlotPacket, SlotOk, FlushedTo, Pending, Took, OnWire;
    FlushedValid(p, i);
    var s := SlotOf(i);
    var (q, blocked) := FlushFrom(p, sockets, conn, i);
    if i == p.length {
      TookAll(p, sockets, conn);
      FlushedEmpty(p);
      k := 0;
    } else if p.packets[s].len == 0 {
      FlushedSkip(p, i);
      assert PendingFrom(p, i) == PendingFrom(p, i + 1);
      k := FlushTakes(p, sockets, conn, i + 1);
    } else if sockets(p.calls).Sent? {
      var t := Cleared(Transmit(p, conn, SlotPacket(p.packets[s], p.addrs)), s);
      FlushPositionSent(p, conn, i);
      k := FlushTakes(t, sockets, conn, i + 1);
      assert PendingFrom(p, i)[1..] == PendingFrom(p, i + 1);
      TookMore(p, t, q, blocked, sockets, conn, PendingFrom(p, i), k);
      k := k + 1;
    } else {
      FlushStops(p, q, i);
      TookNothing(p, q, sockets, conn, PendingFrom(p, i));
      k := 0;
    }
  }

  /** What a flush does, call by call; nothing if the connection is in error. */
  lemma TryFlushTakes(p: Pool, sockets: Sockets, conn: nat) returns (k: nat)
    requires Valid(p) && conn < MAX_CONNECTIONS
    ensures var (q, blocked) := TryFlush(p, sockets, conn);
            && k <= |Pending(p)|
            && (p.conns[conn].error == NONE ==> Took(p, q, blocked, sockets, conn, Pending(p), k))
            && (p.conns[conn].error != NONE ==> q == p && !blocked && k == 0)
  {
    hide Claimed, SlotOf, SlotPacket, SlotOk, FlushFrom, Took;
    k := 0;
    if p.conns[conn].error == NONE {
      if p.length == 0 {
        TookAll(p, sockets, conn);
        assert p == p.(length := 0) && Pending(p) == [];
      } else {
        k := FlushTakes(p, sockets, conn, Start(p.length));
        TookBound(p, TryFlush(p, sockets, conn).0, TryFlush(p, sockets, conn).1, sockets, conn, Pending(p), k);
      }
    }
  }

  lemma TookBound(p: Pool, q: Pool, blocked: bool, sockets: Sockets, conn: nat, waiting: seq<Packet>, k: nat)
    requires conn < |p.conns| && Took(p, q, blocked, sockets, conn, waiting, k)
    ensures k <= |waiting|
  {
  }

  /** If no call is refused, a flush either empties the queue or reports a full socket. */
  lemma TryFlushEnds(p: Pool, sockets: Sockets, conn: nat) returns (k: nat)
    requires Valid(p) && conn < MAX_CONNECTIONS
    ensures var (q, blocked) := TryFlush(p, sockets, conn);
            && Valid(q) && k <= |Pending(p)|
            && Pending(q) == Pending(p)[k..]
            && q.wire == p.wire + OnWire(conn, Pending(p)[..k])
            && p.calls <= q.calls && q.length <= p.length
            && (blocked ==> k < |Pending(p)| && q.calls > p.calls && sockets(q.calls - 1).WouldBlock?)
            && (q.conns == p.conns ||
                (q.conns == WithError(p, conn).conns && q.calls > p.calls && sockets(q.calls - 1).Refused?))
            && (!blocked && p.conns[conn].error == NONE && k < |Pending(p)| ==>
                  q.calls > p.calls && sockets(q.calls - 1).Refused?)
            && (p.conns[conn].error != NONE ==> k == 0)
  {
    hide Valid, Pending, TryFlush;
    k := TryFlushTakes(p, sockets, conn);
    assert OnWire(conn, Pending(p)[..0]) == [];
  }

  /** With sockets that take everything, an update empties the queue as soon as one connection is
      active and free of errors. */
  lemma {:induction false} UpdateDrains(p: Pool, sockets: Sockets, i: nat, c: nat)
    requires Valid(p) && forall n :: p.calls <= n ==> sockets(n).Sent?
    requires Pending(p) == [] || (i <= c < MAX_CONNECTIONS && p.conns[c] == Connection(ACTIVE, NONE))
    ensures Valid(UpdateFrom(p, sockets, i)) && Pending(UpdateFrom(p, sockets, i)) == []
    decreases MAX_CONNECTIONS - i
  {
    hide TryFlush, Claimed, SlotOk, Pending;
    if i < MAX_CONNECTIONS {
      if p.conns[i].state != ACTIVE {
        UpdateDrains(p, sockets, i + 1, c);
      } else {
        var k := TryFlushEnds(p, sockets, i);
        UpdateDrains(TryFlush(p, sockets, i).0, sockets, i + 1, c);
      }
    }
  }

  /** Slots outside the window of the last eight positions are empty, and inside it everything after
      a waiting packet is waiting too. */
  ghost predicate Ring(p: Pool) {
    && Valid(p)
    && (forall k :: p.length <= k < MAX_BUFFERED_PACKETS ==> p.packets[k].len == 0)
    && (forall i, j :: Start(p.length) <= i < j < p.length && p.packets[SlotOf(i)].len != 0
                       ==> p.packets[SlotOf(j)].len != 0)
  }

  /** In such a ring a slot is needed exactly when eight packets wait. */
  lemma FullRing(p: Pool)
    requires Ring(p)
    ensures Evicts(p) <==> |Pending(p)| == MAX_BUFFERED_PACKETS
  {
    hide Valid, SlotPacket, SlotOf, PendingFrom;
    PendingBound(p, Start(p.length));
    if p.length >= MAX_BUFFERED_PACKETS {
      SameSlot(p.length);
    }
  }

  /** Queueing keeps the ring if it stores something and the position counter does not wrap. */
  lemma QueueKeepsRing(p: Pool, addr: Option<Address>, data: seq<byte>)
    requires Ring(p) && p.length + 1 < UINT32 && |data| % UINT16 != 0
    ensures Ring(Queue(p, addr, data))
  {
    hide SlotPacket, Filled, Addressed, SlotOk, Claimed;
    var q := Queue(p, addr, data);
    QueueValid(p, addr, data);
    QueueWritten(p, addr, data);
    forall k | q.length <= k < MAX_BUFFERED_PACKETS ensures q.packets[k].len == 0 {
      QueueOthers(p, addr, data, k);
    }
    forall i, j | Start(q.length) <= i < j < q.length && q.packets[SlotOf(i)].len != 0
      ensures q.packets[SlotOf(j)].len != 0
    {
      SlotsDiffer(i, p.length);
      QueueOthers(p, addr, data, SlotOf(i));
      if j < p.length {
        SlotsDiffer(j, p.length);
        QueueOthers(p, addr, data, SlotOf(j));
      }
    }
  }

  /** Every slot is the slot of a position in a full window. */
  lemma PositionOfSlot(length: nat, k: nat) returns (j: nat)
    requires length >= MAX_BUFFERED_PACKETS && k < MAX_BUFFERED_PACKETS
    ensures Start(length) <= j < length && SlotOf(j) == k
  {
    j := Start(length) + (k + MAX_BUFFERED_PACKETS - SlotOf(Start(length))) % MAX_BUFFERED_PACKETS;
  }

  lemma SmallSlot(k: nat)
    requires k < MAX_BUFFERED_PACKETS
    ensures SlotOf(k) == k
  {
  }

  lemma FlushedAll(p: Pool)
    requires FlushedTo(p, p.length) && Ring(p)
    ensures Ring(p.(length := 0))
  {
    hide Claimed, SlotOf;
    forall k | 0 <= k < MAX_BUFFERED_PACKETS ensures p.packets[k].len == 0 {
      if p.length >= MAX_BUFFERED_PACKETS {
        var j := PositionOfSlot(p.length, k);
      } else if k < p.length {
        SmallSlot(k);
      }
    }
  }

  lemma {:induction false} FlushKeepsRing(p: Pool, sockets: Sockets, conn: nat, i: nat)
    requires FlushedTo(p, i) && Ring(p) && conn < MAX_CONNECTIONS
    ensures Ring(FlushFrom(p, sockets, conn, i).0)
    decreases p.length - i
  {
    hide Claimed, SlotOf, SlotPacket, SlotOk, FlushedTo, Ring;
    FlushedValid(p, i);
    var s := SlotOf(i);
    if i == p.length {
      FlushedAll(p);
    } else if p.packets[s].len == 0 {
      FlushedSkip(p, i);
      FlushKeepsRing(p, sockets, conn, i + 1);
    } else if sockets(p.calls).Sent? {
      FlushPositionSent(p, conn, i);
      FlushPositionRing(p, conn, i);
      FlushKeepsRing(Cleared(Transmit(p, conn, SlotPacket(p.packets[s], p.addrs)), s), sockets, conn, i + 1);
    } else {
      SameSlotsRing(p, FlushFrom(p, sockets, conn, i).0);
    }
  }

  lemma FlushPositionRing(p: Pool, conn: nat, i: nat)
    requires FlushedTo(p, i) && Ring(p) && i < p.length && p.packets[SlotOf(i)].len != 0
    ensures var k := SlotOf(i); Ring(Cleared(Transmit(p, conn, SlotPacket(p.packets[k], p.addrs)), k))
  {
    hide Claimed, SlotOf, SlotOk, SlotPacket, SlotDest;
    var k := SlotOf(i);
    var t := Transmit(p, conn, SlotPacket(p.packets[k], p.addrs));
    ClearedValid(t, k);
    forall j | Start(p.length) <= j < p.length && j != i ensures SlotOf(j) != k {
      WindowSlotsDiffer(p.length, i, j);
    }
  }

  /** Counting calls, logging datagrams and changing connections leave the ring alone. */
  lemma SameSlotsRing(p: Pool, q: Pool)
    requires Ring(p)
    requires q.packets == p.packets && q.length == p.length && q.addrs == p.addrs && |q.conns| == |p.conns|
    ensures Ring(q)
  {
    hide Claimed, SlotOf, SlotOk;
  }

  lemma TryFlushKeepsRing(p: Pool, sockets: Sockets, conn: nat)
    requires Ring(p) && conn < MAX_CONNECTIONS
    ensures Ring(TryFlush(p, sockets, conn).0)
  {
    hide FlushFrom, Claimed, SlotOk;
    if p.length != 0 && p.conns[conn].error == NONE {
      FlushKeepsRing(p, sockets, conn, Start(p.length));
    }
  }

  lemma {:induction false} UpdateKeepsRing(p: Pool, sockets: Sockets, i: nat)
    requires Ring(p)
    ensures Ring(UpdateFrom(p, sockets, i))
    decreases MAX_CONNECTIONS - i
  {
    hide TryFlush, Claimed, SlotOk, SlotOf;
    if i < MAX_CONNECTIONS {
      if p.conns[i].state != ACTIVE {
        UpdateKeepsRing(p, sockets, i + 1);
      } else {
        TryFlushKeepsRing(p, sockets, i);
        UpdateKeepsRing(TryFlush(p, sockets, i).0, sockets, i + 1);
      }
    }
  }
}
