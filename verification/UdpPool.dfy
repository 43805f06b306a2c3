/** The UDP pool of udp.cpp with its fields updated in place; each method does what the state
    machine of UdpModel says. */
module UdpPool {
  import opened Basics
  import opened UdpModel
  import opened UdpRuns

  class UDPPool {
    const packets: array<PacketData>
    var length: nat
    var addrStorage: seq<Address>
    const conns: array<Connection>

    /** The system below: how its calls end, how many there were, and what they sent. */
    const sockets: Sockets
    var calls: nat
    var wire: seq<Datagram>

    ghost function State(): Pool
      reads this, packets, conns
    {
      Pool(packets[..], length, addrStorage, conns[..], calls, wire)
    }

    constructor (conns: seq<Connection>, sockets: Sockets)
      requires |conns| == MAX_CONNECTIONS
      ensures State() == Initial(conns) && this.sockets == sockets
      ensures fresh(this.packets) && fresh(this.conns)
    {
      this.packets := new PacketData[MAX_BUFFERED_PACKETS](_ => PacketData([], None, 0, 0));
      this.conns := new Connection[MAX_CONNECTIONS](i requires 0 <= i < |conns| => conns[i]);
      this.sockets := sockets;
      length, addrStorage, calls, wire := 0, [], 0, [];
    }

    /** ::send and sendto. */
    method SystemSend(conn: nat, packet: Packet) returns (outcome: Outcome)
      modifies this
      ensures outcome == sockets(old(calls))
      ensures State() == if outcome.Sent? then Transmit(old(State()), conn, packet)
                         else old(State()).(calls := old(calls) + 1)
    {
      outcome := sockets(calls);
      calls := calls + 1;
      if outcome.Sent? {
        wire := wire + [Datagram(conn, packet)];
      }
    }

    method SetError(conn: nat)
      requires conn < conns.Length
      modifies conns
      ensures State() == WithError(old(State()), conn)
    {
      conns[conn] := conns[conn].(error := SEND_FAILED);
    }

    method TryFlushQueue(conn: nat) returns (blocked: bool)
      requires Valid(State()) && conn < MAX_CONNECTIONS
      modifies this, packets, conns
      ensures (State(), blocked) == TryFlush(old(State()), sockets, conn)
      ensures Valid(State())
    {
      hide FlushFrom, SlotDest, SlotPacket, Claimed, SlotOk, WithError;
      ghost var p := State();
      if length == 0 || conns[conn].error != NONE {
        return false;
      }
      var start := Start(length);
      var i := start;
      while i < length
        invariant Valid(State()) && length == p.length
        invariant FlushFrom(State(), sockets, conn, i) == FlushFrom(p, sockets, conn, start)
        decreases length - i
      {
        FlushUnfold(State(), sockets, conn, i);
        var k := SlotOf(i);
        if packets[k].len != 0 {
          ghost var q := State();
          SlotBuffer(q, k);
          var s := packets[k];
          var outcome;
          if s.to.Some? && addrStorage[s.to.value].addrLen > 0 {
            outcome := SystemSend(conn, Packet(To(addrStorage[s.to.value]), s.data[..s.len]));
          } else {
            outcome := SystemSend(conn, Packet(Connected, s.data[..s.len]));
          }
          if !outcome.Sent? {
            if outcome.WouldBlock? {
              StoppedValid(q, conn);
              return true;
            }
            SetError(conn);
            StoppedValid(q, conn);
            return false;
          }
          ClearedValid(State(), k);
          packets[k] := packets[k].(len := 0);
        }
        i := i + 1;
      }
      FlushUnfold(State(), sockets, conn, i);
      StoppedValid(State(), conn);
      length := 0;
      return false;
    }

    method QueuePacket(addr: Option<Address>, data: seq<byte>) returns (r: SendResult)
      requires Valid(State())
      modifies this, packets
      ensures r == BUFFERED && State() == Queue(old(State()), addr, data)
      ensures Valid(State())
    {
      hide Claimed;
      ghost var p := State();
      QueueValid(p, addr, data);
      var k := SlotOf(length);
      length := (length + 1) % UINT32;
      if packets[k].maxLen < |data| {
        packets[k] := packets[k].(data := seq(|data|, _ => 0), maxLen := |data| % UINT16);
      }
      packets[k] := packets[k].(data := data + packets[k].data[|data|..], len := |data| % UINT16);
      assert packets[k] == Filled(p.packets[k], data) && packets[..] == p.packets[k := packets[k]];
      if addr.Some? {
        if packets[k].to.None? {
          packets[k] := packets[k].(to := Some(|addrStorage|));
          addrStorage := addrStorage + [addr.value];
        } else {
          addrStorage := addrStorage[packets[k].to.value := addr.value];
        }
      } else if packets[k].to.Some? {
        var to := packets[k].to.value;
        addrStorage := addrStorage[to := addrStorage[to].(addrLen := 0)];
      }
      assert packets[..] == p.packets[k := packets[k]];
      return BUFFERED;
    }

    /** The body that send and send_to share but for the address. */
    method Offer(conn: nat, addr: Option<Address>, data: seq<byte>) returns (r: SendResult)
      requires Valid(State()) && conn < MAX_CONNECTIONS
      modifies this, packets, conns
      ensures (State(), r) == SendPacket(old(State()), sockets, conn, addr, data)
      ensures Valid(State())
    {
      hide TryFlush, Queue, Claimed, SlotOk;
      ghost var p := State();
      SendValid(p, sockets, conn, addr, data);
      if conns[conn].error != NONE || conns[conn].state != ACTIVE {
        return FAILED;
      }
      var blocked := TryFlushQueue(conn);
      if blocked {
        r := QueuePacket(addr, data);
        return;
      }
      ghost var q := State();
      var outcome := SystemSend(conn, Packet(if addr.Some? then To(addr.value) else Connected, data));
      if !outcome.Sent? {
        StoppedValid(q, conn);
        if outcome.WouldBlock? {
          r := QueuePacket(addr, data);
          return;
        }
        SetError(conn);
        return FAILED;
      }
      return OK;
    }

    method Send(conn: nat, data: seq<byte>) returns (r: SendResult)
      requires Valid(State()) && conn < MAX_CONNECTIONS
      modifies this, packets, conns
      ensures (State(), r) == SendPacket(old(State()), sockets, conn, None, data)
      ensures Valid(State())
    {
      r := Offer(conn, None, data);
    }

    method SendTo(conn: nat, addr: Address, data: seq<byte>) returns (r: SendResult)
      requires Valid(State()) && conn < MAX_CONNECTIONS
      modifies this, packets, conns
      ensures (State(), r) == SendPacket(old(State()), sockets, conn, Some(addr), data)
      ensures Valid(State())
    {
      r := Offer(conn, Some(addr), data);
    }

    method Update()
      requires Valid(State())
      modifies this, packets, conns
      ensures State() == UpdateFrom(old(State()), sockets, 0)
      ensures Valid(State())
    {
      hide TryFlush, Claimed, SlotOk;
      ghost var p := State();
      for i := 0 to MAX_CONNECTIONS
        invariant Valid(State())
        invariant UpdateFrom(State(), sockets, i) == UpdateFrom(p, sockets, 0)
      {
        if conns[i].state == ACTIVE {
          var _ := TryFlushQueue(i);
        }
      }
    }
  }

  /** One round of the flushing loop. */
  lemma FlushUnfold(p: Pool, sockets: Sockets, conn: nat, i: nat)
    requires Valid(p) && conn < MAX_CONNECTIONS
    ensures i >= p.length ==> FlushFrom(p, sockets, conn, i) == (p.(length := 0), false)
    ensures i < p.length && p.packets[SlotOf(i)].len == 0 ==>
              FlushFrom(p, sockets, conn, i) == FlushFrom(p, sockets, conn, i + 1)
    ensures i < p.length && p.packets[SlotOf(i)].len != 0 ==>
              var k := SlotOf(i);
              var t := Transmit(p, conn, SlotPacket(p.packets[k], p.addrs));
              match sockets(p.calls)
              case Sent => Valid(Cleared(t, k)) && FlushFrom(p, sockets, conn, i)
                                                == FlushFrom(Cleared(t, k), sockets, conn, i + 1)
              case WouldBlock => FlushFrom(p, sockets, conn, i) == (p.(calls := p.calls + 1), true)
              case Refused => FlushFrom(p, sockets, conn, i) == (WithError(p.(calls := p.calls + 1), conn), false)
  {
    hide Claimed, SlotOk, SlotPacket;
    if i < p.length && p.packets[SlotOf(i)].len != 0 {
      ClearedValid(Transmit(p, conn, SlotPacket(p.packets[SlotOf(i)], p.addrs)), SlotOf(i));
    }
  }

  lemma SlotBuffer(p: Pool, k: nat)
    requires Valid(p) && k < MAX_BUFFERED_PACKETS
    ensures p.packets[k].len <= |p.packets[k].data|
    ensures p.packets[k].to.Some? ==> p.packets[k].to.value < |p.addrs|
    ensures SlotPacket(p.packets[k], p.addrs).payload == p.packets[k].data[..p.packets[k].len]
    ensures SlotPacket(p.packets[k], p.addrs).dest ==
              if p.packets[k].to.Some? && p.addrs[p.packets[k].to.value].addrLen > 0
              then To(p.addrs[p.packets[k].to.value]) else Connected
  {
  }

  lemma StoppedValid(p: Pool, conn: nat)
    requires Valid(p) && conn < MAX_CONNECTIONS
    ensures Valid(p.(calls := p.calls + 1)) && Valid(WithError(p.(calls := p.calls + 1), conn))
    ensures Valid(p.(length := 0))
  {
    hide Claimed, SlotOk;
  }

  /** Any client: the pool after a sequence of operations is the state machine after the same run. */
  method Drive(pool: UDPPool, ops: seq<Op>)
    requires Valid(pool.State()) && forall op :: op in ops ==> Shaped(op)
    modifies pool, pool.packets, pool.conns
    ensures Valid(old(pool.State())) && pool.State() == Run(old(pool.State()), pool.sockets, ops)
    decreases |ops|
  {
    hide SendPacket, UpdateFrom, Claimed, SlotOk;
    if ops != [] {
      ghost var p := pool.State();
      StepValid(p, pool.sockets, ops[0]);
      match ops[0] {
        case Send(conn, addr, data) =>
          var _ := pool.Offer(conn, addr, data);
        case Update =>
          pool.Update();
        case Environment(conns) =>
          forall i | 0 <= i < MAX_CONNECTIONS {
            pool.conns[i] := conns[i];
          }
          assert pool.conns[..] == conns;
      }
      assert pool.State() == Step(p, pool.sockets, ops[0]);
      Drive(pool, ops[1..]);
    }
  }
}
