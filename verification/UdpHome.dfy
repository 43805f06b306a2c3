/** When packets leave the UDP pool on the connection they were handed in for. A flush sends all that
    waits on its own socket, so the peer of another connection may get it. */
module UdpHome {
  import opened Basics
  import opened UdpLedger
  import opened UdpModel
  import opened UdpOrder
  import opened UdpRing
  import opened UdpRuns

  /** Packet id was accepted for connection conn. */
  predicate HandedTo(l: Ledger, id: nat, conn: nat) {
    id < |l.accepted| && l.accepted[id].conn == conn
  }

  /** Every packet sent so far has left on the connection it was handed in for. */
  ghost predicate AtHome(l: Ledger, p: Pool) {
    |l.sent| == |p.wire| && forall i :: 0 <= i < |l.sent| ==> HandedTo(l, l.sent[i], p.wire[i].conn)
  }

  /** What a flush on conn sends is at home exactly if it was handed in for conn. */
  lemma FlushHome(p: Pool, l: Ledger, sockets: Sockets, conn: ConnId) returns (k: nat)
    requires Describes(l, p) && Booked(l) && AtHome(l, p)
    ensures k <= |l.pending| && FlushEntry(p, l, sockets, conn) == Flushed(l, k)
    ensures AtHome(FlushEntry(p, l, sockets, conn), TryFlush(p, sockets, conn).0)
       <==> forall j :: 0 <= j < k ==> HandedTo(l, l.pending[j], conn)
    ensures k < |l.pending| && p.conns[conn].error == NONE ==>
              TryFlush(p, sockets, conn).0.calls > p.calls && !sockets(TryFlush(p, sockets, conn).0.calls - 1).Sent?
    ensures p.conns[conn].error != NONE ==> k == 0
  {
    hide TryFlush, FlushEntry, Booked, Claimed, SlotOk, Pending, InOrder, Clean, Delivers;
    k := FlushDescribed(p, l, sockets, conn);
    var f, q, n := Flushed(l, k), TryFlush(p, sockets, conn).0, |l.sent|;
    forall j | 0 <= j < k ensures f.sent[n + j] == l.pending[j] && q.wire[n + j].conn == conn {
    }
    assert forall i :: n <= i < |f.sent| ==> f.sent[i] == l.pending[i - n] && q.wire[i].conn == conn;
  }

  /** A flush on conn is safe whatever the sockets do exactly if everything waiting was handed in for
      conn, or conn is in error and nothing is sent. */
  lemma FlushStaysHomeIff(p: Pool, l: Ledger, conn: ConnId)
    requires Describes(l, p) && Booked(l) && AtHome(l, p)
    ensures (forall sockets: Sockets :: AtHome(FlushEntry(p, l, sockets, conn), TryFlush(p, sockets, conn).0))
       <==> p.conns[conn].error != NONE || forall j :: 0 <= j < |l.pending| ==> HandedTo(l, l.pending[j], conn)
  {
    hide TryFlush, FlushEntry, Booked, Claimed, SlotOk, Pending, InOrder, Clean, Delivers, AtHome, HandedTo;
    forall sockets: Sockets
      ensures p.conns[conn].error != NONE || (forall j :: 0 <= j < |l.pending| ==> HandedTo(l, l.pending[j], conn))
              ==> AtHome(FlushEntry(p, l, sockets, conn), TryFlush(p, sockets, conn).0)
    {
      var k := FlushHome(p, l, sockets, conn);
    }
    var willing: Sockets := _ => Sent;
    var k := FlushHome(p, l, willing, conn);
    assert AtHome(FlushEntry(p, l, willing, conn), TryFlush(p, willing, conn).0) <==>
           (forall j :: 0 <= j < k ==> HandedTo(l, l.pending[j], conn));
  }

  /** A waiting packet's own connection is the only one that could flush. */
  ghost predicate Guarded(l: Ledger, p: Pool) {
    forall j, conn :: 0 <= j < |l.pending| && 0 <= conn < |p.conns| && Able(p.conns[conn]) ==>
      HandedTo(l, l.pending[j], conn)
  }

  lemma GuardKept(p: Pool, l: Ledger, sockets: Sockets, conn: ConnId)
    requires Describes(l, p) && Booked(l) && AtHome(l, p) && Guarded(l, p)
    requires p.conns[conn].state == ACTIVE
    ensures var f, q := FlushEntry(p, l, sockets, conn), TryFlush(p, sockets, conn).0;
            Describes(f, q) && Booked(f) && AtHome(f, q) && Guarded(f, q)
  {
    hide TryFlush, FlushEntry, Booked, Claimed, SlotOk, Pending, InOrder, Clean, Describes, AtHome;
    DescribesParts(l, p);
    var k := FlushHome(p, l, sockets, conn);
    var k' := FlushDescribed(p, l, sockets, conn);
  }

  lemma {:induction false} UpdateStaysHome(p: Pool, l: Ledger, sockets: Sockets, i: nat)
    requires Describes(l, p) && Booked(l) && AtHome(l, p) && Guarded(l, p)
    ensures Valid(p) && AtHome(UpdateEntries(p, l, sockets, i), UpdateFrom(p, sockets, i))
    decreases MAX_CONNECTIONS - i
  {
    hide TryFlush, FlushEntry, Booked, Claimed, SlotOk, Describes, AtHome, Guarded;
    DescribesParts(l, p);
    if i < MAX_CONNECTIONS {
      if p.conns[i].state != ACTIVE {
        UpdateStaysHome(p, l, sockets, i + 1);
      } else {
        GuardKept(p, l, sockets, i);
        UpdateStaysHome(TryFlush(p, sockets, i).0, FlushEntry(p, l, sockets, i), sockets, i + 1);
      }
    }
  }

  lemma AcceptedHome(l: Ledger, p: Pool, q: Pool, d: Datagram, evicts: bool, wraps: bool)
    requires AtHome(l, p)
    ensures q.wire == p.wire ==> AtHome(Enqueued(l, d, evicts, wraps), q)
    ensures q.wire == p.wire + [d] ==> AtHome(Passed(l, d), q)
  {
    hide Kept, Gone;
    assert forall id, conn :: HandedTo(l, id, conn) ==> HandedTo(Passed(l, d), id, conn);
    assert forall id, conn :: HandedTo(l, id, conn) ==> HandedTo(Enqueued(l, d, evicts, wraps), id, conn);
    assert HandedTo(Passed(l, d), |l.accepted|, d.conn);
  }

  /** One operation from a guarded state keeps everything at home. */
  lemma StepStaysHome(p: Pool, l: Ledger, sockets: Sockets, op: Op)
    requires Describes(l, p) && Booked(l) && AtHome(l, p) && Guarded(l, p) && Shaped(op)
    ensures Valid(p) && AtHome(Entry(p, l, sockets, op), Step(p, sockets, op))
  {
    hide TryFlush, FlushEntry, Booked, Claimed, SlotOk, Describes, Guarded, HandedTo, Queue, UpdateFrom, UpdateEntries,
      Evicts, Enqueued, Passed;
    DescribesParts(l, p);
    match op
    case Send(conn, addr, data) =>
      if Able(p.conns[conn]) {
        var q, f, d := TryFlush(p, sockets, conn).0, FlushEntry(p, l, sockets, conn), Datagram(conn, Packet(Asked(addr), data));
        GuardKept(p, l, sockets, conn);
        DescribesParts(f, q);
        var t := q.(calls := q.calls + 1);
        KeptDescribed(q, t, f);
        DescribesParts(f, t);
        QueueWire(q, addr, data);
        QueueWire(t, addr, data);
        AcceptedHome(f, q, SendPacket(p, sockets, conn, addr, data).0, d, Evicts(q), Wraps(q));
      }
    case Update => UpdateStaysHome(p, l, sockets, 0);
    case Environment(conns) =>
  }

  /** With nothing waiting an update sends nothing. */
  lemma {:induction false} UpdateIdle(p: Pool, l: Ledger, sockets: Sockets, i: nat)
    requires Describes(l, p) && Booked(l) && l.pending == []
    ensures Valid(p) && UpdateEntries(p, l, sockets, i) == l && UpdateFrom(p, sockets, i).wire == p.wire
    decreases MAX_CONNECTIONS - i
  {
    hide TryFlush, FlushEntry, Booked, Claimed, SlotOk, Describes, Pending, WithError, InOrder, Clean;
    DescribesParts(l, p);
    if i < MAX_CONNECTIONS {
      if p.conns[i].state != ACTIVE {
        UpdateIdle(p, l, sockets, i + 1);
      } else {
        var k := FlushDescribed(p, l, sockets, i);
        assert Flushed(l, 0) == l && OnWire(i, Pending(p)[..0]) == [];
        UpdateIdle(TryFlush(p, sockets, i).0, l, sockets, i + 1);
      }
    }
  }

  lemma {:induction false} FirstCallBlocks(p: Pool, sockets: Sockets, conn: nat, i: nat)
    requires Valid(p) && conn < MAX_CONNECTIONS && PendingFrom(p, i) != [] && sockets(p.calls).WouldBlock?
    ensures FlushFrom(p, sockets, conn, i) == (p.(calls := p.calls + 1), true)
    decreases p.length - i
  {
    hide Claimed, SlotOk, SlotPacket, SlotOf;
    if p.packets[SlotOf(i)].len == 0 {
      FirstCallBlocks(p, sockets, conn, i + 1);
    }
  }

  /** A flush on a connection that is able but blocked changes nothing but the number of calls. */
  lemma BlockedFlush(p: Pool, l: Ledger, sockets: Sockets, conn: ConnId)
    requires Valid(p) && Pending(p) != [] && Able(p.conns[conn]) && sockets(p.calls).WouldBlock?
    ensures TryFlush(p, sockets, conn).0 == p.(calls := p.calls + 1)
    ensures FlushEntry(p, l, sockets, conn) == l
  {
    hide Claimed, SlotOk, SlotPacket, SlotOf, FlushFrom;
    FirstCallBlocks(p, sockets, conn, Start(p.length));
    assert Flushed(l, 0) == l;
  }

  lemma IdleFlush(p: Pool, l: Ledger, sockets: Sockets, conn: ConnId)
    requires Valid(p) && p.conns[conn].error != NONE
    ensures TryFlush(p, sockets, conn).0 == p && FlushEntry(p, l, sockets, conn) == l
  {
    hide Valid, FlushFrom;
    assert Flushed(l, 0) == l;
  }

  /** Sockets that block before call number n and then take everything. */
  function WillingFrom(n: nat): Sockets {
    c => if c < n then WouldBlock else Sent
  }

  /** A willing flush on conn with a packet of another connection waiting. */
  lemma WillingStrays(p: Pool, l: Ledger, conn: ConnId, j: nat)
    requires Describes(l, p) && Booked(l) && AtHome(l, p) && Able(p.conns[conn])
    requires j < |l.pending| && !HandedTo(l, l.pending[j], conn)
    ensures var f, q := FlushEntry(p, l, WillingFrom(p.calls), conn), TryFlush(p, WillingFrom(p.calls), conn).0;
            f.pending == [] && !AtHome(f, q)
  {
    hide TryFlush, FlushEntry, Booked, Claimed, SlotOk, Pending, InOrder, Clean, Describes, AtHome, HandedTo;
    var k := FlushHome(p, l, WillingFrom(p.calls), conn);
    assert k == |l.pending|;
  }

  /** If some able connection is not the one a waiting packet was handed in for, there are sockets with
      which an update sends that packet on the wrong connection. */
  lemma {:induction false} UpdateCanStray(p: Pool, l: Ledger, i: nat, conn: ConnId, j: nat) returns (n: nat)
    requires Describes(l, p) && Booked(l) && AtHome(l, p) && Able(p.conns[conn]) && i <= conn
    requires j < |l.pending| && !HandedTo(l, l.pending[j], conn)
    ensures Valid(p) && p.calls <= n
    ensures !AtHome(UpdateEntries(p, l, WillingFrom(n), i), UpdateFrom(p, WillingFrom(n), i))
    decreases conn - i
  {
    hide TryFlush, FlushEntry, Booked, Claimed, SlotOk, Pending, InOrder, Clean, Describes, HandedTo, WithError;
    DescribesParts(l, p);
    if i == conn {
      n := p.calls;
      WillingStrays(p, l, conn, j);
      var k := FlushDescribed(p, l, WillingFrom(n), conn);
      UpdateIdle(TryFlush(p, WillingFrom(n), conn).0, FlushEntry(p, l, WillingFrom(n), conn), WillingFrom(n), conn + 1);
    } else if p.conns[i].state != ACTIVE {
      n := UpdateCanStray(p, l, i + 1, conn, j);
    } else if p.conns[i].error != NONE {
      n := UpdateCanStray(p, l, i + 1, conn, j);
      IdleFlush(p, l, WillingFrom(n), i);
    } else {
      KeptDescribed(p, p.(calls := p.calls + 1), l);
      n := UpdateCanStray(p.(calls := p.calls + 1), l, i + 1, conn, j);
      BlockedFlush(p, l, WillingFrom(n), i);
    }
  }

  /** An update is safe whatever the sockets do exactly in a guarded state. */
  lemma UpdateStaysHomeIff(p: Pool, l: Ledger)
    requires Describes(l, p) && Booked(l) && AtHome(l, p)
    ensures Valid(p)
    ensures (forall sockets: Sockets :: AtHome(UpdateEntries(p, l, sockets, 0), UpdateFrom(p, sockets, 0))) <==> Guarded(l, p)
  {
    hide Booked, Claimed, SlotOk, Describes, HandedTo, AtHome, UpdateFrom, UpdateEntries, Able;
    DescribesParts(l, p);
    if Guarded(l, p) {
      forall sockets: Sockets ensures AtHome(UpdateEntries(p, l, sockets, 0), UpdateFrom(p, sockets, 0)) {
        UpdateStaysHome(p, l, sockets, 0);
      }
    } else {
      var j, conn :| 0 <= j < |l.pending| && 0 <= conn < |p.conns| && Able(p.conns[conn]) && !HandedTo(l, l.pending[j], conn);
      var n := UpdateCanStray(p, l, 0, conn, j);
    }
  }

  /** Every operation of a run finds its state guarded. */
  ghost predicate RunGuarded(p: Pool, l: Ledger, sockets: Sockets, ops: seq<Op>)
    requires Valid(p) && forall op :: op in ops ==> Shaped(op)
    decreases |ops|
  {
    ops != [] ==>
      && Guarded(l, p)
      && (StepValid(p, sockets, ops[0]);
          RunGuarded(Step(p, sockets, ops[0]), Entry(p, l, sockets, ops[0]), sockets, ops[1..]))
  }

  lemma {:induction false} RunStaysHome(p: Pool, l: Ledger, sockets: Sockets, ops: seq<Op>)
    requires Describes(l, p) && Booked(l) && AtHome(l, p) && forall op :: op in ops ==> Shaped(op)
    requires Valid(p) && RunGuarded(p, l, sockets, ops)
    ensures AtHome(RunLedger(p, l, sockets, ops), Run(p, sockets, ops))
    decreases |ops|
  {
    hide Valid, Step, Entry, Describes, Booked, Shaped, AtHome, Guarded;
    if ops != [] {
      StepValid(p, sockets, ops[0]);
      StepFollows(p, l, sockets, ops[0]);
      StepStaysHome(p, l, sockets, ops[0]);
      RunStaysHome(Step(p, sockets, ops[0]), Entry(p, l, sockets, ops[0]), sockets, ops[1..]);
    }
  }

  /** At most connection c could flush or send. */
  ghost predicate Sole(conns: seq<Connection>, c: nat) {
    forall i :: 0 <= i < |conns| && Able(conns[i]) ==> i == c
  }

  ghost predicate AllFor(l: Ledger, c: nat) {
    forall i :: 0 <= i < |l.accepted| ==> l.accepted[i].conn == c
  }

  lemma TryFlushSole(p: Pool, l: Ledger, sockets: Sockets, conn: ConnId, c: nat)
    requires Describes(l, p) && Booked(l) && Sole(p.conns, c) && AllFor(l, c)
    ensures var f, q := FlushEntry(p, l, sockets, conn), TryFlush(p, sockets, conn).0;
            Describes(f, q) && Booked(f) && Sole(q.conns, c) && AllFor(f, c)
  {
    hide TryFlush, FlushEntry, Booked, Claimed, SlotOk, Pending, InOrder, Clean, Describes;
    DescribesParts(l, p);
    var k := FlushDescribed(p, l, sockets, conn);
  }

  lemma {:induction false} UpdateSole(p: Pool, l: Ledger, sockets: Sockets, i: nat, c: nat)
    requires Describes(l, p) && Booked(l) && Sole(p.conns, c) && AllFor(l, c)
    ensures Valid(p) && Sole(UpdateFrom(p, sockets, i).conns, c) && AllFor(UpdateEntries(p, l, sockets, i), c)
    decreases MAX_CONNECTIONS - i
  {
    hide TryFlush, FlushEntry, Booked, Claimed, SlotOk, Describes, Sole, AllFor;
    DescribesParts(l, p);
    if i < MAX_CONNECTIONS {
      if p.conns[i].state != ACTIVE {
        UpdateSole(p, l, sockets, i + 1, c);
      } else {
        TryFlushSole(p, l, sockets, i, c);
        UpdateSole(TryFlush(p, sockets, i).0, FlushEntry(p, l, sockets, i), sockets, i + 1, c);
      }
    }
  }

  lemma StepSole(p: Pool, l: Ledger, sockets: Sockets, op: Op, c: nat)
    requires Describes(l, p) && Booked(l) && Shaped(op) && Sole(p.conns, c) && AllFor(l, c)
    requires op.Environment? ==> Sole(op.conns, c)
    ensures Valid(p) && Sole(Step(p, sockets, op).conns, c) && AllFor(Entry(p, l, sockets, op), c)
  {
    hide TryFlush, FlushEntry, Booked, Claimed, SlotOk, Describes, Queue, UpdateFrom, UpdateEntries, Evicts, Kept, Gone;
    DescribesParts(l, p);
    match op
    case Send(conn, addr, data) =>
      if Able(p.conns[conn]) {
        var q := TryFlush(p, sockets, conn).0;
        TryFlushSole(p, l, sockets, conn, c);
        DescribesParts(FlushEntry(p, l, sockets, conn), q);
        var t := q.(calls := q.calls + 1);
        KeptDescribed(q, t, FlushEntry(p, l, sockets, conn));
        DescribesParts(FlushEntry(p, l, sockets, conn), t);
        QueueWire(q, addr, data);
        QueueWire(t, addr, data);
      }
    case Update => UpdateSole(p, l, sockets, 0, c);
    case Environment(conns) =>
  }

  lemma SoleIsGuarded(p: Pool, l: Ledger, c: nat)
    requires Describes(l, p) && Sole(p.conns, c) && AllFor(l, c)
    ensures Guarded(l, p)
  {
    hide Valid, Pending, Queued;
  }

  lemma {:induction false} SoleRunGuarded(p: Pool, l: Ledger, sockets: Sockets, ops: seq<Op>, c: nat)
    requires Describes(l, p) && Booked(l) && Sole(p.conns, c) && AllFor(l, c)
    requires forall op :: op in ops ==> Shaped(op) && (op.Environment? ==> Sole(op.conns, c))
    ensures Valid(p) && RunGuarded(p, l, sockets, ops)
    decreases |ops|
  {
    hide Valid, Step, Entry, Describes, Booked, Shaped, Guarded, Sole, AllFor;
    DescribesParts(l, p);
    if ops != [] {
      StepValid(p, sockets, ops[0]);
      StepFollows(p, l, sockets, ops[0]);
      SoleIsGuarded(p, l, c);
      StepSole(p, l, sockets, ops[0], c);
      SoleRunGuarded(Step(p, sockets, ops[0]), Entry(p, l, sockets, ops[0]), sockets, ops[1..], c);
    }
  }

  /** A client that never has more than one connection active and free of errors sees every packet
      leave on the connection it was handed in for. */
  lemma SoleConnectionStaysHome(conns: seq<Connection>, sockets: Sockets, ops: seq<Op>, c: nat)
    requires |conns| == MAX_CONNECTIONS && Sole(conns, c)
    requires forall op :: op in ops ==> Shaped(op) && (op.Environment? ==> Sole(op.conns, c))
    ensures AtHome(RunLedger(Initial(conns), EMPTY_LEDGER, sockets, ops), Run(Initial(conns), sockets, ops))
  {
    hide Run, RunLedger, Describes, Booked, Shaped, Sole, RunGuarded;
    InitialDescribed(conns);
    SoleRunGuarded(Initial(conns), EMPTY_LEDGER, sockets, ops, c);
    RunStaysHome(Initial(conns), EMPTY_LEDGER, sockets, ops);
  }

  lemma UpdateOnFirst(p: Pool, l: Ledger, sockets: Sockets, packet: Packet)
    requires Describes(l, p) && Booked(l) && |l.pending| == 1 && Pending(p) == [packet]
    requires Able(p.conns[0]) && forall n :: p.calls <= n ==> sockets(n).Sent?
    ensures UpdateEntries(p, l, sockets, 0) == Flushed(l, 1)
    ensures UpdateFrom(p, sockets, 0).wire == p.wire + [Datagram(0, packet)]
  {
    hide TryFlush, FlushEntry, Booked, Claimed, SlotOk, Describes, Pending, WithError, InOrder, Clean;
    DescribesParts(l, p);
    var k := FlushDescribed(p, l, sockets, 0);
    assert k == 1;
    assert OnWire(0, [packet][..1]) == [Datagram(0, packet)];
    UpdateIdle(TryFlush(p, sockets, 0).0, FlushEntry(p, l, sockets, 0), sockets, 1);
  }

  lemma UpdateStep(p: Pool, l: Ledger, sockets: Sockets)
    requires Valid(p)
    ensures Step(p, sockets, Update) == UpdateFrom(p, sockets, 0)
    ensures Entry(p, l, sockets, Update) == UpdateEntries(p, l, sockets, 0)
  {
  }

  lemma QueuedWhole(packet: Packet)
    requires |packet.payload| < UINT16 && packet.dest == Connected
    ensures Queued(packet) == packet
  {
  }

  /** It does happen: a packet handed in for connection 1 has to wait, and the next update sends it on
      connection 0, to the peer of connection 0. */
  lemma StrayRun(data: seq<byte>)
    requires 1 <= |data| < UINT16
    ensures var sockets: Sockets := n => if n == 0 then WouldBlock else Sent;
            var ops := [Send(1, None, data), Update];
            var p, l := Run(Initial(AllActive()), sockets, ops), RunLedger(Initial(AllActive()), EMPTY_LEDGER, sockets, ops);
            && l.accepted == [Datagram(1, Packet(Connected, data))] && l.sent == [0]
            && p.wire == [Datagram(0, Packet(Connected, data))]
            && !AtHome(l, p)
  {
    hide Step, Queued, Valid, TryFlush, Pending, Initial, WithError, UpdateFrom, UpdateEntries, Describes, Booked;
    var sockets: Sockets := n => if n == 0 then WouldBlock else Sent;
    var conns, first, d := AllActive(), Send(1, None, data), Datagram(1, Packet(Connected, data));
    var p, l := Step(Initial(conns), sockets, first), Entry(Initial(conns), EMPTY_LEDGER, sockets, first);
    FirstSendWaits(conns, sockets, 1, data);
    InitialDescribed(conns);
    StepFollows(Initial(conns), EMPTY_LEDGER, sockets, first);
    QueuedWhole(d.packet);
    UpdateOnFirst(p, l, sockets, d.packet);
    TwoSteps(Initial(conns), EMPTY_LEDGER, sockets, first, Update);
    UpdateStep(p, l, sockets);
    var q, r := UpdateFrom(p, sockets, 0), Flushed(l, 1);
    assert r.sent == [0] && !HandedTo(r, r.sent[0], q.wire[0].conn);
  }
}
