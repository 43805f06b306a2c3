/** What the operations of the UDP pool report and do to connections, as decided by the outcomes of
    the system calls they make. */
module UdpOutcomes {
  import opened Basics
  import opened UdpModel
  import opened UdpRing
  import opened UdpRuns

  /** Some call from number from on, but before number to, ends in outcome o. */
  ghost predicate SomeCall(sockets: Sockets, from: nat, to: nat, o: Outcome) {
    exists c: nat :: from <= c < to && sockets(c) == o
  }

  /** Connection conn is the only one that may have changed, and only in its error. */
  ghost predicate OnlyErrorOf(p: Pool, q: Pool, conn: nat) {
    && |q.conns| == |p.conns|
    && (forall i :: 0 <= i < |p.conns| && i != conn ==> q.conns[i] == p.conns[i])
    && (conn < |p.conns| ==> q.conns[conn].state == p.conns[conn].state)
  }

  /** A flush puts its connection in error exactly if one of its calls is refused, and reports a full
      socket exactly if one would block. In error already, it does nothing. */
  lemma FlushOutcome(p: Pool, sockets: Sockets, conn: ConnId)
    requires Valid(p)
    ensures var (q, blocked) := TryFlush(p, sockets, conn);
            && OnlyErrorOf(p, q, conn) && p.calls <= q.calls
            && (p.conns[conn].error == NONE ==>
                  q.conns[conn].error == if SomeCall(sockets, p.calls, q.calls, Refused) then SEND_FAILED else NONE)
            && (p.conns[conn].error != NONE ==> q == p)
            && (blocked <==> SomeCall(sockets, p.calls, q.calls, WouldBlock))
  {
    hide TryFlush, Pending, Claimed, SlotOk, OnWire;
    var k := TryFlushTakes(p, sockets, conn);
    if p.conns[conn].error == NONE && k < |Pending(p)| {
      assert sockets(p.calls + k) != Sent;
    }
  }

  /** An outcome of the last call of several, or of an earlier one. */
  lemma OneMoreCall(sockets: Sockets, from: nat, to: nat, o: Outcome)
    requires from <= to
    ensures SomeCall(sockets, from, to + 1, o) <==> SomeCall(sockets, from, to, o) || sockets(to) == o
  {
  }

  /** What a send reports is the outcome of its last call, and only a refused call puts the connection
      in error, for good. On a connection that is not active or in error it does nothing and fails. */
  lemma SendOutcome(p: Pool, sockets: Sockets, conn: ConnId, addr: Option<Address>, data: seq<byte>)
    requires Valid(p)
    ensures var (q, r) := SendPacket(p, sockets, conn, addr, data);
            && OnlyErrorOf(p, q, conn)
            && (!Able(p.conns[conn]) ==> q == p && r == FAILED)
            && (Able(p.conns[conn]) ==>
                  && p.calls < q.calls
                  && (r == OK <==> sockets(q.calls - 1).Sent?)
                  && (r == BUFFERED <==> sockets(q.calls - 1).WouldBlock?)
                  && (r == FAILED <==> sockets(q.calls - 1).Refused?)
                  && q.conns[conn].error == if SomeCall(sockets, p.calls, q.calls, Refused) then SEND_FAILED else NONE)
  {
    hide TryFlush, Pending, Claimed, SlotOk, OnWire, Queue, SomeCall;
    if Able(p.conns[conn]) {
      var (q, blocked) := TryFlush(p, sockets, conn);
      FlushOutcome(p, sockets, conn);
      var k := TryFlushTakes(p, sockets, conn);
      OneMoreCall(sockets, p.calls, q.calls, Refused);
      TryFlushValid(p, sockets, conn);
      QueueWire(q, addr, data);
      var t := q.(calls := q.calls + 1);
      SamePending(q, t);
      QueueWire(t, addr, data);
    }
  }

  /** A send that reports OK although it has put its connection in error: the flush before it was refused,
      and then its own packet went out all the same. */
  lemma OkInError(p: Pool, sockets: Sockets, conn: ConnId, addr: Option<Address>, data: seq<byte>)
    requires Valid(p) && Able(p.conns[conn])
    ensures var (q, r) := SendPacket(p, sockets, conn, addr, data);
            var (f, blocked) := TryFlush(p, sockets, conn);
            && |q.conns| == |p.conns|
            && (r == OK && q.conns[conn].error != NONE
                <==> SomeCall(sockets, p.calls, f.calls, Refused) && sockets(f.calls).Sent?)
  {
    hide TryFlush, Pending, Claimed, SlotOk, OnWire, Queue;
    FlushOutcome(p, sockets, conn);
    SendOutcome(p, sockets, conn, addr, data);
    var k := TryFlushTakes(p, sockets, conn);
  }

  /** What a send does to the packets: the flush before it sends the first k that wait, and then its
      own packet goes out whole, joins the queue, or is dropped, as reported. */
  lemma SendPackets(p: Pool, sockets: Sockets, conn: ConnId, addr: Option<Address>, data: seq<byte>) returns (k: nat)
    requires Valid(p) && Able(p.conns[conn])
    ensures Valid(TryFlush(p, sockets, conn).0) && Valid(SendPacket(p, sockets, conn, addr, data).0)
    ensures var f, (q, r) := TryFlush(p, sockets, conn).0, SendPacket(p, sockets, conn, addr, data);
            var dest := if addr.Some? then To(addr.value) else Connected;
            && k <= |Pending(p)| && Pending(f) == Pending(p)[k..]
            && q.wire == p.wire + OnWire(conn, Pending(p)[..k])
                         + (if r == OK then [Datagram(conn, Packet(dest, data))] else [])
            && (r != BUFFERED ==> Pending(q) == Pending(p)[k..])
            && (r == BUFFERED && f.length + 1 < UINT32 ==>
                  Pending(q) == Room(Pending(p)[k..], Evicts(f)) + Stored(Packet(dest, data)))
  {
    hide TryFlush, Pending, Claimed, SlotOk, OnWire, Queue, Room, Stored, Evicts, WithError;
    var f := TryFlush(p, sockets, conn).0;
    k := TryFlushTakes(p, sockets, conn);
    var t := f.(calls := f.calls + 1);
    SamePending(f, t);
    SamePending(f, Transmit(f, conn, Packet(Asked(addr), data)));
    ErrorKeepsPending(t, conn);
    SendValid(p, sockets, conn, addr, data);
    QueueWire(f, addr, data);
    QueueWire(t, addr, data);
    EvictsSame(f, t);
    if f.length + 1 < UINT32 {
      QueueAppends(f, addr, data);
      QueueAppends(t, addr, data);
    }
  }

  lemma ErrorKeepsPending(p: Pool, conn: ConnId)
    requires Valid(p)
    ensures var q := WithError(p, conn); Valid(q) && Pending(q) == Pending(p) && q.wire == p.wire
  {
    hide Claimed, SlotOk, Pending;
    SamePending(p, WithError(p, conn));
  }

  lemma EvictsSame(p: Pool, q: Pool)
    requires Valid(p) && Valid(q) && q.packets == p.packets && q.length == p.length
    ensures Evicts(q) == Evicts(p)
  {
  }

  /** What connection c goes through in an update that makes the calls from number from up to number
      to for it: none unless it is able to flush, and otherwise at least one if packets remain. */
  ghost predicate Turn(p: Pool, q: Pool, sockets: Sockets, c: nat, from: nat, to: nat)
    requires c < |p.conns| && c < |q.conns| && Valid(q)
  {
    && from <= to
    && (Able(p.conns[c]) ==>
          && q.conns[c].state == ACTIVE
          && q.conns[c].error == (if SomeCall(sockets, from, to, Refused) then SEND_FAILED else NONE)
          && (Pending(q) != [] ==> from < to))
    && (!Able(p.conns[c]) ==> from == to && q.conns[c] == p.conns[c])
  }

  /** A flush as the first turn of an update. */
  lemma FlushTurn(p: Pool, sockets: Sockets, i: ConnId)
    requires Valid(p)
    ensures var t := if p.conns[i].state == ACTIVE then TryFlush(p, sockets, i).0 else p;
            && Valid(t) && OnlyErrorOf(p, t, i) && |Pending(t)| <= |Pending(p)|
            && Turn(p, t, sockets, i, p.calls, t.calls) && (Able(t.conns[i]) ==> Able(p.conns[i]))
            && p.wire <= t.wire && forall j :: |p.wire| <= j < |t.wire| ==> t.wire[j].conn == i && Able(p.conns[i])
  {
    hide TryFlush, Pending, Claimed, SlotOk, SomeCall;
    if p.conns[i].state == ACTIVE {
      var k := TryFlushTakes(p, sockets, i);
      FlushOutcome(p, sockets, i);
    }
  }

  /** The turns after the one of connection i do not touch i, and leave no more packets waiting. */
  lemma LaterTurns(p: Pool, t: Pool, q: Pool, sockets: Sockets, i: nat)
    requires Valid(t) && Valid(q) && i < |p.conns| && OnlyErrorOf(p, t, i)
    requires |q.conns| == |p.conns| && |Pending(q)| <= |Pending(t)|
    ensures q.conns[i] == t.conns[i] && Turn(p, t, sockets, i, p.calls, t.calls) ==> Turn(p, q, sockets, i, p.calls, t.calls)
    ensures forall c, from, to :: 0 <= c < |p.conns| && c != i && Turn(t, q, sockets, c, from, to) ==>
              Turn(p, q, sockets, c, from, to)
  {
    hide Valid, Pending, SomeCall;
  }

  /** The calls of an update from connection i on fall into one stretch for each connection, in turn.
      Only connections able to flush put packets on the wire, and their own calls decide their errors. */
  lemma {:induction false} UpdateOutcome(p: Pool, sockets: Sockets, i: nat) returns (marks: seq<nat>)
    requires Valid(p) && i <= MAX_CONNECTIONS
    ensures var q := UpdateFrom(p, sockets, i);
            && Valid(q) && |Pending(q)| <= |Pending(p)|
            && |marks| == MAX_CONNECTIONS + 1 && marks[i] == p.calls && marks[MAX_CONNECTIONS] == q.calls
            && (forall c :: 0 <= c < i ==> q.conns[c] == p.conns[c])
            && (forall c :: i <= c < MAX_CONNECTIONS ==> Turn(p, q, sockets, c, marks[c], marks[c + 1]))
            && p.wire <= q.wire
            && (forall j :: |p.wire| <= j < |q.wire| ==>
                  q.wire[j].conn < MAX_CONNECTIONS && Able(p.conns[q.wire[j].conn]))
    decreases MAX_CONNECTIONS - i
  {
    hide TryFlush, Pending, Claimed, SlotOk, SomeCall, Turn;
    if i == MAX_CONNECTIONS {
      marks := seq(MAX_CONNECTIONS + 1, _ => p.calls);
    } else {
      var t := if p.conns[i].state == ACTIVE then TryFlush(p, sockets, i).0 else p;
      FlushTurn(p, sockets, i);
      marks := UpdateOutcome(t, sockets, i + 1);
      assert UpdateFrom(t, sockets, i + 1) == UpdateFrom(p, sockets, i);
      marks := marks[i := p.calls];
      assert forall c :: 0 <= c < MAX_CONNECTIONS && Able(t.conns[c]) ==> Able(p.conns[c]);
      LaterTurns(p, t, UpdateFrom(t, sockets, i + 1), sockets, i);
    }
  }

  /** Some connections without error have been put in error, if and only if a call was refused. */
  ghost predicate ErrorsFollowCalls(p: Pool, q: Pool, sockets: Sockets) {
    && p.calls <= q.calls && |q.conns| == |p.conns|
    && (forall i :: 0 <= i < |p.conns| ==>
          q.conns[i] == p.conns[i] || (p.conns[i].error == NONE && q.conns[i] == p.conns[i].(error := SEND_FAILED)))
    && (q.conns != p.conns <==> SomeCall(sockets, p.calls, q.calls, Refused))
  }

  lemma ErrorsTrans(p: Pool, q: Pool, r: Pool, sockets: Sockets)
    requires ErrorsFollowCalls(p, q, sockets) && ErrorsFollowCalls(q, r, sockets)
    ensures ErrorsFollowCalls(p, r, sockets)
  {
    if q.conns != p.conns {
      var i :| 0 <= i < |p.conns| && q.conns[i] != p.conns[i];
      assert r.conns[i] != p.conns[i];
    }
  }

  lemma ErrorsStart(p: Pool, sockets: Sockets)
    ensures ErrorsFollowCalls(p, p, sockets)
  {
  }

  lemma FlushErrors(p: Pool, sockets: Sockets, conn: ConnId)
    requires Valid(p)
    ensures ErrorsFollowCalls(p, TryFlush(p, sockets, conn).0, sockets)
  {
    hide TryFlush, Pending, Claimed, SlotOk, SomeCall;
    FlushOutcome(p, sockets, conn);
    var q := TryFlush(p, sockets, conn).0;
    ErrorsStart(p, sockets);
    assert q.conns[conn] == p.conns[conn] ==> q.conns == p.conns;
  }

  lemma SendErrors(p: Pool, sockets: Sockets, conn: ConnId, addr: Option<Address>, data: seq<byte>)
    requires Valid(p)
    ensures ErrorsFollowCalls(p, SendPacket(p, sockets, conn, addr, data).0, sockets)
  {
    hide TryFlush, Pending, Claimed, SlotOk, SomeCall, SendPacket;
    SendOutcome(p, sockets, conn, addr, data);
    var q := SendPacket(p, sockets, conn, addr, data).0;
    ErrorsStart(p, sockets);
    assert q.conns[conn] == p.conns[conn] ==> q.conns == p.conns;
  }

  lemma {:induction false} UpdateErrors(p: Pool, sockets: Sockets, i: nat)
    requires Valid(p)
    ensures ErrorsFollowCalls(p, UpdateFrom(p, sockets, i), sockets)
    decreases MAX_CONNECTIONS - i
  {
    hide TryFlush, Claimed, SlotOk, ErrorsFollowCalls;
    ErrorsStart(p, sockets);
    if i < MAX_CONNECTIONS {
      if p.conns[i].state != ACTIVE {
        UpdateErrors(p, sockets, i + 1);
      } else {
        var t := TryFlush(p, sockets, i).0;
        TryFlushValid(p, sockets, i);
        FlushErrors(p, sockets, i);
        UpdateErrors(t, sockets, i + 1);
        ErrorsTrans(p, t, UpdateFrom(t, sockets, i + 1), sockets);
      }
    }
  }

  lemma StepErrors(p: Pool, sockets: Sockets, op: Op)
    requires Valid(p) && Shaped(op) && !op.Environment?
    ensures ErrorsFollowCalls(p, Step(p, sockets, op), sockets)
  {
    hide Valid, ErrorsFollowCalls, SendPacket, UpdateFrom;
    match op
    case Send(conn, addr, data) => SendErrors(p, sockets, conn, addr, data);
    case Update => UpdateErrors(p, sockets, 0);
  }

  /** Any run of sends and updates: states and old errors stay, and connections are put in error if and
      only if some call of the run was refused. */
  lemma {:induction false} RunErrors(p: Pool, sockets: Sockets, ops: seq<Op>)
    requires Valid(p) && forall op :: op in ops ==> Shaped(op) && !op.Environment?
    ensures ErrorsFollowCalls(p, Run(p, sockets, ops), sockets)
    decreases |ops|
  {
    hide Valid, Step, Shaped, ErrorsFollowCalls;
    ErrorsStart(p, sockets);
    if ops != [] {
      var q := Step(p, sockets, ops[0]);
      StepValid(p, sockets, ops[0]);
      StepErrors(p, sockets, ops[0]);
      RunErrors(q, sockets, ops[1..]);
      ErrorsTrans(p, q, Run(q, sockets, ops[1..]), sockets);
    }
  }
}
