/** Runs of the UDP pool: any sequence of sends and updates, on any connections, with any socket
    outcomes, interleaved with any changes of connection state. A ledger follows what has become of
    every accepted packet. */
module UdpRuns {
  import opened Basics
  import opened UdpLedger
  import opened UdpModel
  import opened UdpRing

  type ConnId = n: nat | n < MAX_CONNECTIONS witness 0

  /** Environment stands for create, serve, recv, recv_from and close: all they do to the state
      modelled here is to change connections. */
  datatype Op =
    | Send(conn: ConnId, addr: Option<Address>, data: seq<byte>)
    | Update
    | Environment(conns: seq<Connection>)

  ghost predicate Shaped(op: Op) {
    op.Environment? ==> |op.conns| == MAX_CONNECTIONS
  }

  ghost function Step(p: Pool, sockets: Sockets, op: Op): Pool
    requires Valid(p) && Shaped(op)
  {
    match op
    case Send(conn, addr, data) => SendPacket(p, sockets, conn, addr, data).0
    case Update => UpdateFrom(p, sockets, 0)
    case Environment(conns) => p.(conns := conns)
  }

  lemma StepValid(p: Pool, sockets: Sockets, op: Op)
    requires Valid(p) && Shaped(op)
    ensures Valid(Step(p, sockets, op))
  {
    hide Claimed, SlotOk, SendPacket, UpdateFrom;
    match op
    case Send(conn, addr, data) => SendValid(p, sockets, conn, addr, data);
    case Update => UpdateValid(p, sockets, 0);
    case Environment(conns) =>
      ClaimedSame(p.packets, p.packets, MAX_BUFFERED_PACKETS);
  }

  ghost function Run(p: Pool, sockets: Sockets, ops: seq<Op>): Pool
    requires Valid(p) && forall op :: op in ops ==> Shaped(op)
    decreases |ops|
  {
    if ops == [] then p
    else
      StepValid(p, sockets, ops[0]);
      Run(Step(p, sockets, ops[0]), sockets, ops[1..])
  }

  lemma {:induction false} NoneClaimed(packets: seq<PacketData>, k: nat)
    requires k <= |packets| && forall i :: 0 <= i < k ==> packets[i].to.None?
    ensures Claimed(packets, k) == 0
  {
    if k != 0 {
      NoneClaimed(packets, k - 1);
    }
  }

  /** A pool whose queue has not been used. */
  ghost function Initial(conns: seq<Connection>): (p: Pool)
    requires |conns| == MAX_CONNECTIONS
    ensures Valid(p)
  {
    var p := Pool(seq(MAX_BUFFERED_PACKETS, _ => PacketData([], None, 0, 0)), 0, [], conns, 0, []);
    NoneClaimed(p.packets, MAX_BUFFERED_PACKETS);
    p
  }

  lemma StepKeepsClaims(p: Pool, sockets: Sockets, op: Op)
    requires Valid(p) && Shaped(op)
    ensures KeepsClaims(p, Step(p, sockets, op))
  {
    hide Valid, SendPacket, UpdateFrom;
    match op
    case Send(conn, addr, data) => SendKeepsClaims(p, sockets, conn, addr, data);
    case Update => UpdateKeepsClaims(p, sockets, 0);
    case Environment(conns) =>
  }

  /** In every run, whatever the payloads and outcomes: no length exceeds its buffer, every slot keeps
      for good the one address entry it has claimed, no two slots share one, and the eight reserved
      entries are enough, so that none moves. */
  lemma {:induction false} RunStaysValid(p: Pool, sockets: Sockets, ops: seq<Op>)
    requires Valid(p) && forall op :: op in ops ==> Shaped(op)
    ensures var q := Run(p, sockets, ops);
            && Valid(q)
            && KeepsClaims(p, q) && |q.addrs| <= MAX_BUFFERED_PACKETS
            && (forall k, l :: 0 <= k < l < |q.packets| && q.packets[k].to.Some? ==> q.packets[k].to != q.packets[l].to)
            && (forall k :: 0 <= k < MAX_BUFFERED_PACKETS ==>
                  q.packets[k].len <= q.packets[k].maxLen <= |q.packets[k].data|)
    decreases |ops|
  {
    hide Step, Claimed;
    if ops != [] {
      StepValid(p, sockets, ops[0]);
      StepKeepsClaims(p, sockets, ops[0]);
      RunStaysValid(Step(p, sockets, ops[0]), sockets, ops[1..]);
    }
  }

  ghost function FlushEntry(p: Pool, l: Ledger, sockets: Sockets, conn: ConnId): Ledger
    requires Valid(p)
  {
    var q := TryFlush(p, sockets, conn).0;
    if |q.wire| >= |p.wire| then Flushed(l, |q.wire| - |p.wire|) else l
  }

  ghost function UpdateEntries(p: Pool, l: Ledger, sockets: Sockets, i: nat): Ledger
    requires Valid(p)
    decreases MAX_CONNECTIONS - i
  {
    if i >= MAX_CONNECTIONS then l
    else if p.conns[i].state != ACTIVE then UpdateEntries(p, l, sockets, i + 1)
    else
      TryFlushValid(p, sockets, i);
      UpdateEntries(TryFlush(p, sockets, i).0, FlushEntry(p, l, sockets, i), sockets, i + 1)
  }

  /** Queueing in state q makes the position counter wrap. */
  predicate Wraps(q: Pool) {
    q.length + 1 >= UINT32
  }

  ghost function SendEntry(p: Pool, l: Ledger, sockets: Sockets, conn: ConnId, packet: Packet): Ledger
    requires Valid(p)
  {
    if p.conns[conn].error != NONE || p.conns[conn].state != ACTIVE then l
    else
      var (q, blocked) := TryFlush(p, sockets, conn);
      var f := FlushEntry(p, l, sockets, conn);
      TryFlushValid(p, sockets, conn);
      if blocked || sockets(q.calls).WouldBlock? then Enqueued(f, Datagram(conn, packet), Evicts(q), Wraps(q))
      else if sockets(q.calls).Sent? then Passed(f, Datagram(conn, packet))
      else f
  }

  ghost function Entry(p: Pool, l: Ledger, sockets: Sockets, op: Op): Ledger
    requires Valid(p) && Shaped(op)
  {
    match op
    case Send(conn, addr, data) => SendEntry(p, l, sockets, conn, Packet(Asked(addr), data))
    case Update => UpdateEntries(p, l, sockets, 0)
    case Environment(conns) => l
  }

  ghost function RunLedger(p: Pool, l: Ledger, sockets: Sockets, ops: seq<Op>): Ledger
    requires Valid(p) && forall op :: op in ops ==> Shaped(op)
    decreases |ops|
  {
    if ops == [] then l
    else
      StepValid(p, sockets, ops[0]);
      RunLedger(Step(p, sockets, ops[0]), Entry(p, l, sockets, ops[0]), sockets, ops[1..])
  }

  /** A packet in the ring or on the wire is the one accepted under its number, or what queueing makes
      of that one. */
  predicate Delivers(accepted: seq<Datagram>, id: nat, packet: Packet) {
    id < |accepted| && (packet == accepted[id].packet || packet == Queued(accepted[id].packet))
  }

  /** The ledger describes the pool. */
  ghost predicate Describes(l: Ledger, p: Pool) {
    && Valid(p)
    && |l.pending| == |Pending(p)|
    && |l.sent| == |p.wire|
    && (forall i :: 0 <= i < |l.pending| ==> Delivers(l.accepted, l.pending[i], Pending(p)[i]))
    && (forall i :: 0 <= i < |l.sent| ==> Delivers(l.accepted, l.sent[i], p.wire[i].packet))
  }

  lemma DescribesParts(l: Ledger, p: Pool)
    requires Describes(l, p)
    ensures Valid(p) && |l.sent| == |p.wire| && |l.pending| == |Pending(p)|
  {
  }

  /** Counting calls, logging datagrams and changing connections leave what waits alone. */
  lemma SamePending(p: Pool, q: Pool)
    requires Valid(p)
    requires q.packets == p.packets && q.length == p.length && q.addrs == p.addrs && |q.conns| == |p.conns|
    ensures Valid(q) && Pending(q) == Pending(p)
  {
    hide Claimed, SlotOk, SlotOf, SlotPacket;
    FlushStops(p, q, Start(p.length));
  }

  lemma KeptDescribed(p: Pool, q: Pool, l: Ledger)
    requires Describes(l, p)
    requires q.packets == p.packets && q.length == p.length && q.addrs == p.addrs && |q.conns| == |p.conns|
    requires q.wire == p.wire
    ensures Describes(l, q)
  {
    hide Claimed, SlotOk, Pending;
    SamePending(p, q);
  }

  /** A flush moves the numbers of the packets it sends. */
  lemma FlushDescribed(p: Pool, l: Ledger, sockets: Sockets, conn: ConnId) returns (k: nat)
    requires Describes(l, p) && Booked(l)
    ensures var (q, blocked) := TryFlush(p, sockets, conn);
            var f := FlushEntry(p, l, sockets, conn);
            && Describes(f, q) && Booked(f) && (InOrder(l) ==> InOrder(f)) && (Clean(l) ==> Clean(f))
            && k <= |l.pending| && f == Flushed(l, k)
            && q.wire == p.wire + OnWire(conn, Pending(p)[..k])
            && p.calls <= q.calls && q.length <= p.length
            && (p.conns[conn].error != NONE ==> k == 0)
            && (q.conns == p.conns || q.conns == WithError(p, conn).conns)
            && (k < |l.pending| ==> p.conns[conn].error != NONE || (q.calls > p.calls && !sockets(q.calls - 1).Sent?))
            && (!blocked && p.conns[conn].error == NONE && f.pending != [] ==>
                  q.calls > p.calls && sockets(q.calls - 1).Refused?)
  {
    hide TryFlush, Booked, InOrder, Clean, Pending, Claimed, SlotOk, WithError;
    k := TryFlushEnds(p, sockets, conn);
    FlushedBooked(l, k);
  }

  lemma QueueWire(p: Pool, addr: Option<Address>, data: seq<byte>)
    requires Valid(p)
    ensures var q := Queue(p, addr, data);
            q.wire == p.wire && q.calls == p.calls && q.conns == p.conns && q.length <= p.length + 1
  {
    hide Valid;
  }

  lemma EnqueuedDelivers(l: Ledger, d: Datagram, waiting: seq<Packet>, evicts: bool)
    requires |l.pending| == |waiting|
    requires forall i :: 0 <= i < |waiting| ==> Delivers(l.accepted, l.pending[i], waiting[i])
    ensures var r, w := Enqueued(l, d, evicts, false), Room(waiting, evicts) + Stored(d.packet);
            && |r.pending| == |w|
            && forall i :: 0 <= i < |w| ==> Delivers(r.accepted, r.pending[i], w[i])
  {
    hide Queued;
    var kept, room := Kept(l, evicts), Room(waiting, evicts);
    assert |kept| == |room|;
    assert forall i :: 0 <= i < |room| ==> Delivers(l.accepted, kept[i], room[i]);
  }

  lemma EnqueueDescribed(p: Pool, l: Ledger, conn: ConnId, addr: Option<Address>, data: seq<byte>)
    requires Describes(l, p)
    ensures Describes(Enqueued(l, Datagram(conn, Packet(Asked(addr), data)), Evicts(p), Wraps(p)), Queue(p, addr, data))
  {
    hide Queue, Pending, Room, Stored, Claimed, SlotOk, Kept, Evicts, Queued;
    QueueWire(p, addr, data);
    if Wraps(p) {
      WrappedEmpty(p, addr, data);
    } else {
      QueueAppends(p, addr, data);
      EnqueuedDelivers(l, Datagram(conn, Packet(Asked(addr), data)), Pending(p), Evicts(p));
    }
  }

  lemma PassDescribed(p: Pool, l: Ledger, conn: ConnId, packet: Packet)
    requires Describes(l, p)
    ensures Describes(Passed(l, Datagram(conn, packet)), Transmit(p, conn, packet))
  {
    hide Claimed, SlotOk, Pending, Queued;
    SamePending(p, Transmit(p, conn, packet));
  }

  /** One operation as the ledger sees it. */
  ghost predicate Follows(p: Pool, q: Pool, r: Ledger) {
    Describes(r, q) && Booked(r) && p.calls <= q.calls && q.length <= p.length + 1
  }

  lemma ErrorDescribed(p: Pool, l: Ledger, conn: ConnId)
    requires Describes(l, p)
    ensures Valid(p) && Describes(l, WithError(p, conn))
    ensures WithError(p, conn).calls == p.calls && WithError(p, conn).length == p.length
  {
    hide Pending, Claimed, SlotOk;
    KeptDescribed(p, WithError(p, conn), l);
  }

  /** A send keeps the ledger true of the pool, for any payload and any outcome of its calls. */
  lemma SendFollows(p: Pool, l: Ledger, sockets: Sockets, conn: ConnId, addr: Option<Address>, data: seq<byte>)
    requires Describes(l, p) && Booked(l)
    ensures Follows(p, SendPacket(p, sockets, conn, addr, data).0,
                    SendEntry(p, l, sockets, conn, Packet(Asked(addr), data)))
  {
    hide TryFlush, InOrder, Clean, Pending, FlushEntry, Describes, Queue, Booked, Claimed, SlotOk, Enqueued, Passed, WithError;
    DescribesParts(l, p);
    if p.conns[conn].error == NONE && p.conns[conn].state == ACTIVE {
      var (q, blocked) := TryFlush(p, sockets, conn);
      var f := FlushEntry(p, l, sockets, conn);
      var d := Datagram(conn, Packet(Asked(addr), data));
      var k := FlushDescribed(p, l, sockets, conn);
      DescribesParts(f, q);
      EnqueuedBooked(f, d, Evicts(q), Wraps(q));
      if blocked {
        EnqueueDescribed(q, f, conn, addr, data);
        QueueWire(q, addr, data);
      } else {
        var t := q.(calls := q.calls + 1);
        KeptDescribed(q, t, f);
        DescribesParts(f, t);
        match sockets(q.calls)
        case Sent =>
          PassDescribed(q, f, conn, d.packet);
          PassedBooked(f, d);
        case WouldBlock =>
          EnqueueDescribed(t, f, conn, addr, data);
          QueueWire(t, addr, data);
        case Refused =>
          ErrorDescribed(t, f, conn);
      }
    }
  }

  lemma {:induction false} UpdateFollows(p: Pool, l: Ledger, sockets: Sockets, i: nat)
    requires Describes(l, p) && Booked(l)
    ensures Valid(p)
    ensures var r := UpdateEntries(p, l, sockets, i);
            && Follows(p, UpdateFrom(p, sockets, i), r) && UpdateFrom(p, sockets, i).length <= p.length
            && (InOrder(l) ==> InOrder(r)) && (Clean(l) ==> Clean(r))
            && r.lost == l.lost
    decreases MAX_CONNECTIONS - i
  {
    hide TryFlush, InOrder, Clean, Pending, FlushEntry, Describes, Booked, Claimed, SlotOk, WithError;
    DescribesParts(l, p);
    if i < MAX_CONNECTIONS {
      if p.conns[i].state != ACTIVE {
        UpdateFollows(p, l, sockets, i + 1);
      } else {
        var k := FlushDescribed(p, l, sockets, i);
        UpdateFollows(TryFlush(p, sockets, i).0, FlushEntry(p, l, sockets, i), sockets, i + 1);
      }
    }
  }

  lemma StepFollows(p: Pool, l: Ledger, sockets: Sockets, op: Op)
    requires Describes(l, p) && Booked(l) && Shaped(op)
    ensures Valid(p)
    ensures Follows(p, Step(p, sockets, op), Entry(p, l, sockets, op))
  {
    hide TryFlush, InOrder, Pending, FlushEntry, Describes, Booked, SendEntry, UpdateEntries, Claimed, SlotOk,
      SendPacket, UpdateFrom, Clean;
    DescribesParts(l, p);
    match op
    case Send(conn, addr, data) => SendFollows(p, l, sockets, conn, addr, data);
    case Update => UpdateFollows(p, l, sockets, 0);
    case Environment(conns) => KeptDescribed(p, p.(conns := conns), l);
  }

  lemma {:induction false} RunFollows(p: Pool, l: Ledger, sockets: Sockets, ops: seq<Op>)
    requires Describes(l, p) && Booked(l) && forall op :: op in ops ==> Shaped(op)
    ensures Valid(p)
    ensures var q, r := Run(p, sockets, ops), RunLedger(p, l, sockets, ops);
            Describes(r, q) && Booked(r) && p.calls <= q.calls
    decreases |ops|
  {
    hide Valid, Step, Entry, Describes, Booked, Shaped;
    DescribesParts(l, p);
    if ops != [] {
      StepValid(p, sockets, ops[0]);
      StepFollows(p, l, sockets, ops[0]);
      RunFollows(Step(p, sockets, ops[0]), Entry(p, l, sockets, ops[0]), sockets, ops[1..]);
    }
  }

  lemma InitialDescribed(conns: seq<Connection>)
    requires |conns| == MAX_CONNECTIONS
    ensures Describes(EMPTY_LEDGER, Initial(conns)) && Ring(Initial(conns))
    ensures Booked(EMPTY_LEDGER) && InOrder(EMPTY_LEDGER) && Clean(EMPTY_LEDGER)
  {
    var p := Initial(conns);
    assert Pending(p) == [];
  }

  /** Every run from the start, whatever the payloads, the outcomes of calls and the position counter:
      each accepted packet is sent once, waiting once, evicted once or lost once, and never two of
      these; at most eight wait; what is waiting or sent is what was accepted, cut if it was queued. */
  lemma RunAccounts(conns: seq<Connection>, sockets: Sockets, ops: seq<Op>)
    requires |conns| == MAX_CONNECTIONS && forall op :: op in ops ==> Shaped(op)
    ensures var p, l := Run(Initial(conns), sockets, ops), RunLedger(Initial(conns), EMPTY_LEDGER, sockets, ops);
            && Describes(l, p) && Accounted(l) && OldestEvicted(l)
            && |Pending(p)| <= MAX_BUFFERED_PACKETS
            && |l.accepted| == |p.wire| + |Pending(p)| + |l.evicted| + |l.lost|
  {
    hide Describes, Accounted, OldestEvicted, Run, RunLedger, Initial, InOrder, Pending, Clean;
    InitialDescribed(conns);
    RunFollows(Initial(conns), EMPTY_LEDGER, sockets, ops);
    var p, l := Run(Initial(conns), sockets, ops), RunLedger(Initial(conns), EMPTY_LEDGER, sockets, ops);
    AccountedCount(l);
    DescribesParts(l, p);
    PendingAtMostEight(p);
  }

  /** A packet enters the ledger exactly when send reports OK, having sent it, or BUFFERED, with it
      waiting last or lost. */
  lemma ReportedIsAccepted(p: Pool, l: Ledger, sockets: Sockets, conn: ConnId, addr: Option<Address>, data: seq<byte>)
    requires Valid(p)
    ensures var result, packet := SendPacket(p, sockets, conn, addr, data).1, Packet(Asked(addr), data);
            var r, id := SendEntry(p, l, sockets, conn, packet), |l.accepted|;
            && r.accepted == l.accepted + (if result == FAILED then [] else [Datagram(conn, packet)])
            && (result == OK ==> r.sent != [] && r.sent[|r.sent| - 1] == id)
            && (result == BUFFERED ==> || (r.pending != [] && r.pending[|r.pending| - 1] == id)
                                       || (r.lost != [] && r.lost[|r.lost| - 1] == id))
  {
    hide Valid, TryFlush, Queue, Kept, Gone;
  }

  /** A send that queues a packet stores some of it and does not make the position counter wrap. */
  ghost predicate OpOk(p: Pool, sockets: Sockets, op: Op)
    requires Valid(p)
  {
    op.Send? && SendPacket(p, sockets, op.conn, op.addr, op.data).1 == BUFFERED ==>
      |op.data| % UINT16 != 0 && !Wraps(TryFlush(p, sockets, op.conn).0)
  }

  /** That is exactly when an operation loses nothing. */
  lemma NothingLostIff(p: Pool, l: Ledger, sockets: Sockets, op: Op)
    requires Describes(l, p) && Booked(l) && Shaped(op)
    ensures Valid(p)
    ensures l.lost <= Entry(p, l, sockets, op).lost
    ensures Entry(p, l, sockets, op).lost == l.lost <==> OpOk(p, sockets, op)
  {
    hide TryFlush, Describes, Booked, Claimed, SlotOk, Kept, Gone, UpdateEntries, Queue, Pending, InOrder, Clean;
    DescribesParts(l, p);
    if op.Update? {
      UpdateFollows(p, l, sockets, 0);
    }
  }

  /** Every operation of a run meets OpOk when its turn comes. */
  ghost predicate RunOk(p: Pool, sockets: Sockets, ops: seq<Op>)
    requires Valid(p) && forall op :: op in ops ==> Shaped(op)
    decreases |ops|
  {
    ops != [] ==>
      && OpOk(p, sockets, ops[0])
      && (StepValid(p, sockets, ops[0]); RunOk(Step(p, sockets, ops[0]), sockets, ops[1..]))
  }

  lemma {:induction false} RunLosesNothingIff(p: Pool, l: Ledger, sockets: Sockets, ops: seq<Op>)
    requires Describes(l, p) && Booked(l) && forall op :: op in ops ==> Shaped(op)
    ensures Valid(p) && l.lost <= RunLedger(p, l, sockets, ops).lost
    ensures RunLedger(p, l, sockets, ops).lost == l.lost <==> RunOk(p, sockets, ops)
    decreases |ops|
  {
    hide Valid, Step, Entry, Describes, Booked, Shaped, OpOk;
    DescribesParts(l, p);
    if ops != [] {
      var r := Entry(p, l, sockets, ops[0]);
      StepValid(p, sockets, ops[0]);
      StepFollows(p, l, sockets, ops[0]);
      NothingLostIff(p, l, sockets, ops[0]);
      RunLosesNothingIff(Step(p, sockets, ops[0]), r, sockets, ops[1..]);
    }
  }

  lemma StepKeepsRing(p: Pool, sockets: Sockets, op: Op)
    requires Ring(p) && Shaped(op) && OpOk(p, sockets, op)
    ensures Ring(Step(p, sockets, op))
  {
    hide TryFlush, Queue, Claimed, SlotOk, SlotOf, UpdateFrom;
    match op
    case Send(conn, addr, data) =>
      var q := TryFlush(p, sockets, conn).0;
      TryFlushKeepsRing(p, sockets, conn);
      SameSlotsRing(q, q.(calls := q.calls + 1));
      if |data| % UINT16 != 0 && !Wraps(q) {
        QueueKeepsRing(q, addr, data);
        QueueKeepsRing(q.(calls := q.calls + 1), addr, data);
      }
    case Update => UpdateKeepsRing(p, sockets, 0);
    case Environment(conns) => SameSlotsRing(p, p.(conns := conns));
  }

  lemma StepKeepsClean(p: Pool, l: Ledger, sockets: Sockets, op: Op)
    requires Describes(l, p) && Booked(l) && Ring(p) && Clean(l) && Shaped(op) && OpOk(p, sockets, op)
    ensures Clean(Entry(p, l, sockets, op))
  {
    hide TryFlush, Queue, Claimed, SlotOk, SlotOf, UpdateFrom, UpdateEntries, Describes, Pending, Accounted,
      OldestEvicted, InOrder, Clean, FlushEntry, Evicts, Enqueued, Passed, WithError, Ring;
    DescribesParts(l, p);
    match op
    case Send(conn, addr, data) =>
      var q, f, d := TryFlush(p, sockets, conn).0, FlushEntry(p, l, sockets, conn), Datagram(conn, Packet(Asked(addr), data));
      var k := FlushDescribed(p, l, sockets, conn);
      DescribesParts(f, q);
      TryFlushKeepsRing(p, sockets, conn);
      FullRing(q);
      PassedBooked(f, d);
      if |data| % UINT16 != 0 {
        EnqueuedClean(f, d, Evicts(q));
      }
    case Update => UpdateFollows(p, l, sockets, 0);
    case Environment(conns) =>
  }

  lemma {:induction false} CleanRun(p: Pool, l: Ledger, sockets: Sockets, ops: seq<Op>)
    requires Describes(l, p) && Booked(l) && forall op :: op in ops ==> Shaped(op)
    requires Ring(p) && Clean(l) && RunOk(p, sockets, ops)
    ensures Ring(Run(p, sockets, ops)) && Clean(RunLedger(p, l, sockets, ops))
    decreases |ops|
  {
    hide Valid, Step, Entry, Describes, Booked, Shaped, OpOk, Clean, Ring;
    DescribesParts(l, p);
    if ops != [] {
      StepValid(p, sockets, ops[0]);
      StepFollows(p, l, sockets, ops[0]);
      StepKeepsRing(p, sockets, ops[0]);
      StepKeepsClean(p, l, sockets, ops[0]);
      CleanRun(Step(p, sockets, ops[0]), Entry(p, l, sockets, ops[0]), sockets, ops[1..]);
    }
  }

  /** A run from the start loses nothing exactly if RunOk holds; then slots outside the window are
      empty and only packets followed by eight newer ones are evicted. */
  lemma RunClean(conns: seq<Connection>, sockets: Sockets, ops: seq<Op>)
    requires |conns| == MAX_CONNECTIONS && forall op :: op in ops ==> Shaped(op)
    ensures var p, l := Run(Initial(conns), sockets, ops), RunLedger(Initial(conns), EMPTY_LEDGER, sockets, ops);
            && (l.lost == [] <==> RunOk(Initial(conns), sockets, ops))
            && (l.lost == [] ==> Ring(p) && Clean(l))
  {
    hide Describes, Booked, Run, RunLedger, Initial, InOrder, Clean, Ring, RunOk;
    InitialDescribed(conns);
    RunLosesNothingIff(Initial(conns), EMPTY_LEDGER, sockets, ops);
    if RunOk(Initial(conns), sockets, ops) {
      CleanRun(Initial(conns), EMPTY_LEDGER, sockets, ops);
    }
  }

  lemma ClientOpOk(p: Pool, l: Ledger, sockets: Sockets, op: Op)
    requires Describes(l, p) && Booked(l)
    requires op.Send? ==> |op.data| % UINT16 != 0
    requires p.length + 1 < UINT32
    ensures Valid(p) && OpOk(p, sockets, op)
  {
    hide Describes, Booked, Pending, TryFlush, Claimed, SlotOk, InOrder, Clean, SendPacket, WithError;
    DescribesParts(l, p);
    if op.Send? {
      var k := FlushDescribed(p, l, sockets, op.conn);
    }
  }

  /** What a client can check beforehand, whatever the sockets do: no payload has a length divisible
      by 2^16, and there are fewer operations than the position counter has room for. */
  lemma {:induction false} ClientKeepsRunOk(p: Pool, l: Ledger, sockets: Sockets, ops: seq<Op>)
    requires Describes(l, p) && Booked(l) && forall op :: op in ops ==> Shaped(op)
    requires forall op :: op in ops && op.Send? ==> |op.data| % UINT16 != 0
    requires p.length + |ops| < UINT32
    ensures Valid(p) && RunOk(p, sockets, ops)
    decreases |ops|
  {
    hide Valid, Step, Entry, Describes, Booked, Shaped, OpOk;
    DescribesParts(l, p);
    if ops != [] {
      StepValid(p, sockets, ops[0]);
      StepFollows(p, l, sockets, ops[0]);
      ClientOpOk(p, l, sockets, ops[0]);
      ClientKeepsRunOk(Step(p, sockets, ops[0]), Entry(p, l, sockets, ops[0]), sockets, ops[1..]);
    }
  }
}
