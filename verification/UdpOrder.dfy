/** When the UDP pool keeps the order in which packets were accepted, and when it does not. */
module UdpOrder {
  import opened Basics
  import opened UdpLedger
  import opened UdpModel
  import opened UdpRing
  import opened UdpRuns

  /** A send whose flush has left packets waiting although no call would block, and whose own packet
      then goes out. */
  ghost predicate Overtakes(p: Pool, sockets: Sockets, op: Op)
    requires Valid(p)
  {
    && op.Send?
    && p.conns[op.conn] == Connection(ACTIVE, NONE)
    && var (q, blocked) := TryFlush(p, sockets, op.conn);
    && !blocked && sockets(q.calls).Sent?
    && (TryFlushValid(p, sockets, op.conn); Pending(q) != [])
  }

  /** An operation keeps the order exactly if it does not overtake. */
  lemma StepInOrderIff(p: Pool, l: Ledger, sockets: Sockets, op: Op)
    requires Describes(l, p) && Booked(l) && InOrder(l) && Shaped(op)
    ensures Valid(p)
    ensures InOrder(Entry(p, l, sockets, op)) <==> !Overtakes(p, sockets, op)
  {
    hide TryFlush, Describes, Booked, InOrder, Claimed, SlotOk, Enqueued, Passed, Pending, FlushEntry, Evicts,
      UpdateEntries, WithError, Clean;
    DescribesParts(l, p);
    match op
    case Send(conn, addr, data) =>
      var q, f, d := TryFlush(p, sockets, conn).0, FlushEntry(p, l, sockets, conn), Datagram(conn, Packet(Asked(addr), data));
      var k := FlushDescribed(p, l, sockets, conn);
      DescribesParts(f, q);
      EnqueuedBooked(f, d, Evicts(q), Wraps(q));
      PassedBooked(f, d);
    case Update => UpdateFollows(p, l, sockets, 0);
    case Environment(conns) =>
  }

  /** The order holds before the run and after each of its operations. */
  ghost predicate AlwaysInOrder(p: Pool, l: Ledger, sockets: Sockets, ops: seq<Op>)
    requires Valid(p) && forall op :: op in ops ==> Shaped(op)
    decreases |ops|
  {
    && InOrder(l)
    && (ops != [] ==>
          (StepValid(p, sockets, ops[0]);
           AlwaysInOrder(Step(p, sockets, ops[0]), Entry(p, l, sockets, ops[0]), sockets, ops[1..])))
  }

  ghost predicate NeverOvertakes(p: Pool, sockets: Sockets, ops: seq<Op>)
    requires Valid(p) && forall op :: op in ops ==> Shaped(op)
    decreases |ops|
  {
    ops != [] ==>
      && !Overtakes(p, sockets, ops[0])
      && (StepValid(p, sockets, ops[0]); NeverOvertakes(Step(p, sockets, ops[0]), sockets, ops[1..]))
  }

  lemma {:induction false} AlwaysInOrderIff(p: Pool, l: Ledger, sockets: Sockets, ops: seq<Op>)
    requires Describes(l, p) && Booked(l) && InOrder(l) && forall op :: op in ops ==> Shaped(op)
    ensures Valid(p)
    ensures AlwaysInOrder(p, l, sockets, ops) <==> NeverOvertakes(p, sockets, ops)
    ensures NeverOvertakes(p, sockets, ops) ==> InOrder(RunLedger(p, l, sockets, ops))
    decreases |ops|
  {
    hide Valid, Step, Entry, Describes, Booked, Shaped, InOrder, Overtakes;
    DescribesParts(l, p);
    if ops != [] {
      StepValid(p, sockets, ops[0]);
      StepFollows(p, l, sockets, ops[0]);
      StepInOrderIff(p, l, sockets, ops[0]);
      if InOrder(Entry(p, l, sockets, ops[0])) {
        AlwaysInOrderIff(Step(p, sockets, ops[0]), Entry(p, l, sockets, ops[0]), sockets, ops[1..]);
      }
    }
  }

  /** A run from the start is in order all the way exactly if no send overtakes. What has gone out
      followed by what waits is then the accepted packets in order, without those evicted or lost. */
  lemma RunInOrder(conns: seq<Connection>, sockets: Sockets, ops: seq<Op>)
    requires |conns| == MAX_CONNECTIONS && forall op :: op in ops ==> Shaped(op)
    ensures AlwaysInOrder(Initial(conns), EMPTY_LEDGER, sockets, ops) <==> NeverOvertakes(Initial(conns), sockets, ops)
    ensures NeverOvertakes(Initial(conns), sockets, ops) ==>
              var l := RunLedger(Initial(conns), EMPTY_LEDGER, sockets, ops);
              && Increasing(l.sent + l.pending)
              && forall id: nat :: id < |l.accepted| ==> (id in l.sent + l.pending <==> id !in l.evicted + l.lost)
  {
    hide Describes, Accounted, OldestEvicted, Run, RunLedger, Initial, AlwaysInOrder, NeverOvertakes, Clean, Ring;
    InitialDescribed(conns);
    RunFollows(Initial(conns), EMPTY_LEDGER, sockets, ops);
    AlwaysInOrderIff(Initial(conns), EMPTY_LEDGER, sockets, ops);
    MissingAreGone(RunLedger(Initial(conns), EMPTY_LEDGER, sockets, ops));
  }

  /** No system call from number lo up to hi fails otherwise than by blocking. */
  ghost predicate NeverRefused(sockets: Sockets, lo: nat, hi: nat) {
    forall c :: lo <= c < hi ==> !sockets(c).Refused?
  }

  lemma CallsBefore(p: Pool, l: Ledger, sockets: Sockets, op: Op)
    requires Describes(l, p) && Booked(l) && Shaped(op)
    ensures Valid(p) && p.calls <= Step(p, sockets, op).calls
    ensures NeverRefused(sockets, p.calls, Step(p, sockets, op).calls) ==> !Overtakes(p, sockets, op)
  {
    hide TryFlush, Describes, Booked, Claimed, SlotOk, Pending, FlushEntry, WithError, Clean, InOrder, Queue, UpdateFrom;
    DescribesParts(l, p);
    StepFollows(p, l, sockets, op);
    if op.Send? {
      var q := TryFlush(p, sockets, op.conn).0;
      var k := FlushDescribed(p, l, sockets, op.conn);
      DescribesParts(FlushEntry(p, l, sockets, op.conn), q);
    }
  }

  /** In particular nothing overtakes while every call succeeds or would block. */
  lemma {:induction false} NeverRefusedNeverOvertakes(p: Pool, l: Ledger, sockets: Sockets, ops: seq<Op>)
    requires Describes(l, p) && Booked(l) && forall op :: op in ops ==> Shaped(op)
    ensures Valid(p)
    ensures NeverRefused(sockets, p.calls, Run(p, sockets, ops).calls) ==> NeverOvertakes(p, sockets, ops)
    decreases |ops|
  {
    hide Valid, Step, Entry, Describes, Booked, Shaped, Overtakes;
    DescribesParts(l, p);
    if ops != [] {
      var q, r := Step(p, sockets, ops[0]), Entry(p, l, sockets, ops[0]);
      StepValid(p, sockets, ops[0]);
      StepFollows(p, l, sockets, ops[0]);
      CallsBefore(p, l, sockets, ops[0]);
      RunFollows(q, r, sockets, ops[1..]);
      NeverRefusedNeverOvertakes(q, r, sockets, ops[1..]);
    }
  }

  /** All connections active and without errors. */
  function AllActive(): (conns: seq<Connection>)
    ensures |conns| == MAX_CONNECTIONS
  {
    seq(MAX_CONNECTIONS, _ => Connection(ACTIVE, NONE))
  }

  lemma StartsEmpty(conns: seq<Connection>)
    requires |conns| == MAX_CONNECTIONS
    ensures Pending(Initial(conns)) == [] && Initial(conns).length == 0
  {
  }

  /** A send that finds the queue unused and whose call would block. */
  lemma SendWhenUnused(p: Pool, l: Ledger, sockets: Sockets, conn: ConnId, addr: Option<Address>, data: seq<byte>)
    requires Valid(p) && p.length == 0 && p.conns[conn] == Connection(ACTIVE, NONE) && sockets(p.calls).WouldBlock?
    ensures Valid(p.(calls := p.calls + 1))
    ensures SendPacket(p, sockets, conn, addr, data) == (Queue(p.(calls := p.calls + 1), addr, data), BUFFERED)
    ensures SendEntry(p, l, sockets, conn, Packet(Asked(addr), data))
         == Enqueued(l, Datagram(conn, Packet(Asked(addr), data)), false, false)
  {
    hide Queue, Claimed, SlotOk, FlushFrom, Enqueued;
    SamePending(p, p.(calls := p.calls + 1));
    assert Flushed(l, 0) == l;
  }

  lemma FirstQueued(p: Pool, packet: Packet)
    requires Valid(p) && Pending(p) == [] && p.length == 0 && |packet.payload| % UINT16 != 0 && packet.dest == Connected
    ensures var q := Queue(p, None, packet.payload);
            Valid(q) && Pending(q) == [Queued(packet)] && q.conns == p.conns && q.calls == p.calls && q.wire == p.wire
  {
    hide Queue, Queued, Claimed, SlotOk, Pending;
    QueueAppends(p, None, packet.payload);
    QueueWire(p, None, packet.payload);
  }

  /** The first send of a run, if its call would block. */
  lemma FirstSendWaits(conns: seq<Connection>, sockets: Sockets, conn: ConnId, data: seq<byte>)
    requires |conns| == MAX_CONNECTIONS && conns[conn] == Connection(ACTIVE, NONE)
    requires sockets(0).WouldBlock? && |data| % UINT16 != 0
    ensures var op, d := Send(conn, None, data), Datagram(conn, Packet(Connected, data));
            var p := Step(Initial(conns), sockets, op);
            && Valid(p) && p.conns == conns && p.calls == 1 && p.wire == [] && Pending(p) == [Queued(d.packet)]
            && Entry(Initial(conns), EMPTY_LEDGER, sockets, op) == Ledger([d], [], [0], [], [])
  {
    hide Queue, Queued, Valid, SendPacket, SendEntry, Pending;
    var p := Initial(conns);
    StartsEmpty(conns);
    SendWhenUnused(p, EMPTY_LEDGER, sockets, conn, None, data);
    SamePending(p, p.(calls := 1));
    FirstQueued(p.(calls := 1), Packet(Connected, data));
  }

  lemma {:induction false} FirstCallRefused(p: Pool, sockets: Sockets, conn: nat, i: nat)
    requires Valid(p) && conn < MAX_CONNECTIONS && PendingFrom(p, i) != [] && sockets(p.calls).Refused?
    ensures FlushFrom(p, sockets, conn, i) == (WithError(p.(calls := p.calls + 1), conn), false)
    decreases p.length - i
  {
    hide Claimed, SlotOk, SlotPacket, SlotOf;
    if p.packets[SlotOf(i)].len == 0 {
      FirstCallRefused(p, sockets, conn, i + 1);
    }
  }

  lemma RefusedFlush(p: Pool, sockets: Sockets, conn: ConnId)
    requires Valid(p) && Pending(p) != [] && p.conns[conn].error == NONE && sockets(p.calls).Refused?
    ensures TryFlush(p, sockets, conn) == (WithError(p.(calls := p.calls + 1), conn), false)
    ensures Valid(TryFlush(p, sockets, conn).0) && Pending(TryFlush(p, sockets, conn).0) == Pending(p)
  {
    hide FlushFrom, Claimed, SlotOk, SlotPacket, SlotOf;
    FirstCallRefused(p, sockets, conn, Start(p.length));
    SamePending(p, WithError(p.(calls := p.calls + 1), conn));
  }

  lemma RefusedFields(p: Pool, conn: ConnId)
    requires Valid(p)
    ensures var q := WithError(p.(calls := p.calls + 1), conn); q.calls == p.calls + 1 && q.wire == p.wire
  {
    hide Valid;
  }

  lemma TwoSteps(p: Pool, l: Ledger, sockets: Sockets, first: Op, second: Op)
    requires Valid(p) && Shaped(first) && Shaped(second)
    ensures var q := Step(p, sockets, first);
            && Valid(q)
            && Run(p, sockets, [first, second]) == Step(q, sockets, second)
            && RunLedger(p, l, sockets, [first, second]) == Entry(q, Entry(p, l, sockets, first), sockets, second)
  {
    hide Valid, Step, Entry, Shaped;
    var q := Step(p, sockets, first);
    StepValid(p, sockets, first);
    StepValid(q, sockets, second);
    assert [first, second][1..] == [second] && [second][1..] == [];
    assert Run(Step(q, sockets, second), sockets, []) == Step(q, sockets, second);
    assert RunLedger(Step(q, sockets, second), Entry(q, Entry(p, l, sockets, first), sockets, second), sockets, [])
        == Entry(q, Entry(p, l, sockets, first), sockets, second);
  }

  /** A send that overtakes: its flush is refused at once and its own packet goes out. */
  lemma OvertakingSend(p: Pool, l: Ledger, sockets: Sockets, conn: ConnId, data: seq<byte>)
    requires Valid(p) && Pending(p) != [] && p.conns[conn] == Connection(ACTIVE, NONE)
    requires sockets(p.calls).Refused? && sockets(p.calls + 1).Sent?
    ensures Overtakes(p, sockets, Send(conn, None, data))
    ensures Entry(p, l, sockets, Send(conn, None, data)) == Passed(l, Datagram(conn, Packet(Connected, data)))
  {
    hide TryFlush, Valid, Pending, WithError, Passed;
    RefusedFlush(p, sockets, conn);
    RefusedFields(p, conn);
    assert Flushed(l, 0) == l;
  }

  lemma OvertakesAtSecond(p: Pool, sockets: Sockets, first: Op, second: Op)
    requires Valid(p) && Shaped(first) && Shaped(second)
    requires Valid(Step(p, sockets, first)) && Overtakes(Step(p, sockets, first), sockets, second)
    ensures !NeverOvertakes(p, sockets, [first, second])
  {
    hide Valid, Step, Shaped, Overtakes;
    assert [first, second][1..] == [second];
  }

  /** It does happen: of two sends on one connection the first would block, the flush of the second
      is refused, and the second packet goes out before the first. */
  lemma OvertakingRun(a: seq<byte>, b: seq<byte>)
    requires |a| % UINT16 != 0
    ensures var sockets: Sockets := n => if n == 0 then WouldBlock else if n == 1 then Refused else Sent;
            var ops := [Send(0, None, a), Send(0, None, b)];
            && !NeverOvertakes(Initial(AllActive()), sockets, ops)
            && RunLedger(Initial(AllActive()), EMPTY_LEDGER, sockets, ops).sent == [1]
            && RunLedger(Initial(AllActive()), EMPTY_LEDGER, sockets, ops).pending == [0]
  {
    hide Step, Entry, Queued, Valid, Pending, Initial, Run, RunLedger, NeverOvertakes, Overtakes;
    var sockets: Sockets := n => if n == 0 then WouldBlock else if n == 1 then Refused else Sent;
    var conns, first, second := AllActive(), Send(0, None, a), Send(0, None, b);
    FirstSendWaits(conns, sockets, 0, a);
    var p, l := Step(Initial(conns), sockets, first), Entry(Initial(conns), EMPTY_LEDGER, sockets, first);
    OvertakingSend(p, l, sockets, 0, b);
    OvertakesAtSecond(Initial(conns), sockets, first, second);
    TwoSteps(Initial(conns), EMPTY_LEDGER, sockets, first, second);
  }
}
