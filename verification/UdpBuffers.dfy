/** The buffers behind the slots of the UDP queue: when they are kept and when they are replaced. */
module UdpBuffers {
  import opened Basics
  import opened UdpModel
  import opened UdpRuns

  /** From p to q no slot has got a smaller recorded buffer size. */
  ghost predicate NoneShrinks(p: Pool, q: Pool) {
    |q.packets| == |p.packets| && forall k :: 0 <= k < |p.packets| ==> p.packets[k].maxLen <= q.packets[k].maxLen
  }

  /** Queueing keeps the buffer of a slot, and what it holds beyond the packet, if its recorded size is
      enough, and else puts one of the size of the packet in its place. The recorded size then shrinks exactly if
      16 bits cut it to less than it was. Other buffers do not change. */
  lemma QueueBuffers(p: Pool, addr: Option<Address>, data: seq<byte>)
    requires Valid(p)
    ensures var q, k := Queue(p, addr, data), SlotOf(p.length);
            var s, t := p.packets[k], q.packets[k];
            && |q.packets| == |p.packets|
            && (|data| <= s.maxLen ==> t.maxLen == s.maxLen && t.data == data + s.data[|data|..])
            && (s.maxLen < |data| ==> t.maxLen == |data| % UINT16 && t.data == data)
            && (forall l :: 0 <= l < |p.packets| && l != k ==> q.packets[l] == p.packets[l])
            && (NoneShrinks(p, q) <==> |data| <= s.maxLen || s.maxLen <= |data| % UINT16)
  {
    hide Claimed;
  }

  /** Flushing changes only lengths. */
  lemma {:induction false} FlushBuffers(p: Pool, sockets: Sockets, conn: nat, i: nat)
    requires Valid(p) && conn < MAX_CONNECTIONS
    ensures var q := FlushFrom(p, sockets, conn, i).0;
            |q.packets| == |p.packets| && q.addrs == p.addrs &&
            forall k :: 0 <= k < |p.packets| ==> q.packets[k] == p.packets[k] || q.packets[k] == p.packets[k].(len := 0)
    decreases p.length - i
  {
    hide Claimed, SlotOk, SlotPacket, SlotOf;
    if i < p.length {
      var k := SlotOf(i);
      if p.packets[k].len == 0 {
        FlushBuffers(p, sockets, conn, i + 1);
      } else if sockets(p.calls).Sent? {
        var t := Transmit(p, conn, SlotPacket(p.packets[k], p.addrs));
        ClearedValid(t, k);
        FlushBuffers(Cleared(t, k), sockets, conn, i + 1);
      }
    }
  }

  lemma TryFlushBuffers(p: Pool, sockets: Sockets, conn: nat)
    requires Valid(p) && conn < MAX_CONNECTIONS
    ensures NoneShrinks(p, TryFlush(p, sockets, conn).0)
  {
    hide FlushFrom, Claimed, SlotOk;
    FlushBuffers(p, sockets, conn, Start(p.length));
  }

  lemma SendBuffers(p: Pool, sockets: Sockets, conn: nat, addr: Option<Address>, data: seq<byte>)
    requires Valid(p) && conn < MAX_CONNECTIONS && |data| < UINT16
    ensures NoneShrinks(p, SendPacket(p, sockets, conn, addr, data).0)
  {
    hide Claimed, SlotOk, Queue, TryFlush;
    var q := TryFlush(p, sockets, conn).0;
    TryFlushValid(p, sockets, conn);
    TryFlushBuffers(p, sockets, conn);
    QueueBuffers(q, addr, data);
    QueueBuffers(q.(calls := q.calls + 1), addr, data);
  }

  lemma {:induction false} UpdateBuffers(p: Pool, sockets: Sockets, i: nat)
    requires Valid(p)
    ensures NoneShrinks(p, UpdateFrom(p, sockets, i))
    decreases MAX_CONNECTIONS - i
  {
    hide Claimed, SlotOk, TryFlush;
    if i < MAX_CONNECTIONS {
      if p.conns[i].state != ACTIVE {
        UpdateBuffers(p, sockets, i + 1);
      } else {
        TryFlushValid(p, sockets, i);
        TryFlushBuffers(p, sockets, i);
        UpdateBuffers(TryFlush(p, sockets, i).0, sockets, i + 1);
      }
    }
  }

  /** In a run with payloads below 2^16 bytes no recorded buffer size ever shrinks. */
  lemma {:induction false} RunBuffers(p: Pool, sockets: Sockets, ops: seq<Op>)
    requires Valid(p) && forall op :: op in ops ==> Shaped(op)
    requires forall op :: op in ops && op.Send? ==> |op.data| < UINT16
    ensures NoneShrinks(p, Run(p, sockets, ops))
    decreases |ops|
  {
    hide Claimed, SlotOk, SendPacket, UpdateFrom;
    if ops != [] {
      StepValid(p, sockets, ops[0]);
      match ops[0] {
        case Send(conn, addr, data) => SendBuffers(p, sockets, conn, addr, data);
        case Update => UpdateBuffers(p, sockets, 0);
        case Environment(conns) =>
      }
      RunBuffers(Step(p, sockets, ops[0]), sockets, ops[1..]);
    }
  }
}
