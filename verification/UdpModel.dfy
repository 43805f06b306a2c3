/** udp.cpp as a state machine: what flushing, queueing, send, send_to and update do to the pool.
    Sockets are an oracle that says how each system call ends, in the order of the calls. */
module UdpModel {
  import opened Basics

  const MAX_BUFFERED_PACKETS: nat := 8
  const MAX_CONNECTIONS: nat := 1024
  const UINT16: nat := 0x1_0000
  const UINT32: nat := 0x1_0000_0000

  datatype UdpState = FREE | PENDING | ACTIVE | ERROR

  datatype ErrorCode = NONE | SEND_FAILED | OTHER

  datatype SendResult = OK | BUFFERED | FAILED

  /** How a send or sendto ends: accepted by the system, EWOULDBLOCK, or any other error. */
  datatype Outcome = Sent | WouldBlock | Refused

  type Sockets = nat -> Outcome

  datatype Address = Address(storage: seq<byte>, addrLen: int)

  /** A queue slot. The buffer behind data has |data| bytes; to is an index into the address storage. */
  datatype PacketData = PacketData(data: seq<byte>, to: Option<nat>, len: nat, maxLen: nat)

  datatype Connection = Connection(state: UdpState, error: ErrorCode)

  /** The connection can flush and send. */
  predicate Able(c: Connection) {
    c == Connection(ACTIVE, NONE)
  }

  datatype Dest = Connected | To(addr: Address)

  datatype Packet = Packet(dest: Dest, payload: seq<byte>)

  /** A packet with the connection it was handed in for, or the one on whose socket it went out. */
  datatype Datagram = Datagram(conn: nat, packet: Packet)

  /** The pool: the queue, the connections, and what the outside world has seen. */
  datatype Pool = Pool(
    packets: seq<PacketData>,
    length: nat,
    addrs: seq<Address>,
    conns: seq<Connection>,
    calls: nat,
    wire: seq<Datagram>)

  /** How many of the first k slots own an entry of the address storage. */
  function Claimed(packets: seq<PacketData>, k: nat): (n: nat)
    requires k <= |packets|
    ensures n <= k
  {
    if k == 0 then 0 else Claimed(packets, k - 1) + if packets[k - 1].to.Some? then 1 else 0
  }

  predicate SlotOk(s: PacketData, addrs: nat) {
    s.len <= s.maxLen <= |s.data| && s.maxLen < UINT16 && (s.to.Some? ==> s.to.value < addrs)
  }

  /** Buffers hold what their lengths say, and every address entry belongs to exactly one slot. */
  ghost predicate Valid(p: Pool) {
    && |p.packets| == MAX_BUFFERED_PACKETS && |p.conns| == MAX_CONNECTIONS && p.length < UINT32
    && (forall k :: 0 <= k < |p.packets| ==> SlotOk(p.packets[k], |p.addrs|))
    && (forall k, l :: 0 <= k < l < |p.packets| && p.packets[k].to.Some? ==> p.packets[k].to != p.packets[l].to)
    && |p.addrs| == Claimed(p.packets, MAX_BUFFERED_PACKETS)
  }

  /** The slot of queue position i. */
  function SlotOf(i: nat): (k: nat)
    ensures k < MAX_BUFFERED_PACKETS
  {
    i % MAX_BUFFERED_PACKETS
  }

  /** The position flushing starts from: only the last eight can still be in the ring. */
  function Start(length: nat): nat {
    if length > MAX_BUFFERED_PACKETS then length - MAX_BUFFERED_PACKETS else 0
  }

  /** Where a slot is sent: a pointer to an address without a length stands for no address. */
  function SlotDest(s: PacketData, addrs: seq<Address>): Dest
    requires SlotOk(s, |addrs|)
  {
    if s.to.Some? && addrs[s.to.value].addrLen > 0 then To(addrs[s.to.value]) else Connected
  }

  function SlotPacket(s: PacketData, addrs: seq<Address>): Packet
    requires SlotOk(s, |addrs|)
  {
    Packet(SlotDest(s, addrs), s.data[..s.len])
  }

  /** Slot k marked as sent. */
  function Cleared(p: Pool, k: nat): Pool
    requires k < |p.packets|
  {
    p.(packets := p.packets[k := p.packets[k].(len := 0)])
  }

  /** A system call that succeeds puts d on the wire. */
  function Transmit(p: Pool, conn: nat, packet: Packet): Pool {
    p.(calls := p.calls + 1, wire := p.wire + [Datagram(conn, packet)])
  }

  function WithError(p: Pool, conn: nat): Pool
    requires conn < |p.conns|
  {
    p.(conns := p.conns[conn := p.conns[conn].(error := SEND_FAILED)])
  }

  /** The flushing loop from position i on; the flag says whether it stopped because of a full socket. */
  ghost function FlushFrom(p: Pool, sockets: Sockets, conn: nat, i: nat): (Pool, bool)
    requires Valid(p) && conn < MAX_CONNECTIONS
    decreases p.length - i
  {
    if i >= p.length then (p.(length := 0), false)
    else
      var k := SlotOf(i);
      if p.packets[k].len == 0 then FlushFrom(p, sockets, conn, i + 1)
      else match sockets(p.calls)
        case Sent =>
          var q := Cleared(Transmit(p, conn, SlotPacket(p.packets[k], p.addrs)), k);
          ClearedValid(Transmit(p, conn, SlotPacket(p.packets[k], p.addrs)), k);
          FlushFrom(q, sockets, conn, i + 1)
        case WouldBlock => (p.(calls := p.calls + 1), true)
        case Refused => (WithError(p.(calls := p.calls + 1), conn), false)
  }

  ghost function TryFlush(p: Pool, sockets: Sockets, conn: nat): (Pool, bool)
    requires Valid(p) && conn < MAX_CONNECTIONS
  {
    if p.length == 0 || p.conns[conn].error != NONE then (p, false)
    else FlushFrom(p, sockets, conn, Start(p.length))
  }

  /** The slot after data has been copied into it. The buffer is replaced only when max_len, which is
      the size truncated to 16 bits, says it is too small. */
  function Filled(s: PacketData, data: seq<byte>): PacketData
    requires s.maxLen <= |s.data|
  {
    var size := |data| % UINT16;
    if s.maxLen < |data| then s.(data := data, maxLen := size, len := size)
    else s.(data := data + s.data[|data|..], len := size)
  }

  /** Storing the packet's address: in the slot's own entry, in a new one if it has none yet, or by
      cutting the length of the old one when there is no address. */
  function Addressed(s: PacketData, addrs: seq<Address>, addr: Option<Address>): (PacketData, seq<Address>)
    requires SlotOk(s, |addrs|)
  {
    match addr
    case Some(a) =>
      if s.to.None? then (s.(to := Some(|addrs|)), addrs + [a])
      else (s, addrs[s.to.value := a])
    case None =>
      if s.to.Some? then (s, addrs[s.to.value := addrs[s.to.value].(addrLen := 0)])
      else (s, addrs)
  }

  /** queue_packet with an allocator that does not fail. */
  ghost function Queue(p: Pool, addr: Option<Address>, data: seq<byte>): Pool
    requires Valid(p)
  {
    var k := SlotOf(p.length);
    var (s, addrs) := Addressed(Filled(p.packets[k], data), p.addrs, addr);
    p.(packets := p.packets[k := s], length := (p.length + 1) % UINT32, addrs := addrs)
  }

  /** The destination the caller asks for. */
  function Asked(addr: Option<Address>): Dest {
    if addr.Some? then To(addr.value) else Connected
  }

  /** send (no address) and send_to. */
  ghost function SendPacket(p: Pool, sockets: Sockets, conn: nat, addr: Option<Address>, data: seq<byte>)
    : (Pool, SendResult)
    requires Valid(p) && conn < MAX_CONNECTIONS
  {
    if p.conns[conn].error != NONE || p.conns[conn].state != ACTIVE then (p, FAILED)
    else
      var (q, blocked) := TryFlush(p, sockets, conn);
      TryFlushValid(p, sockets, conn);
      if blocked then (Queue(q, addr, data), BUFFERED)
      else match sockets(q.calls)
        case Sent => (Transmit(q, conn, Packet(Asked(addr), data)), OK)
        case WouldBlock => (Queue(q.(calls := q.calls + 1), addr, data), BUFFERED)
        case Refused => (WithError(q.(calls := q.calls + 1), conn), FAILED)
  }

  ghost function UpdateFrom(p: Pool, sockets: Sockets, i: nat): Pool
    requires Valid(p)
    decreases MAX_CONNECTIONS - i
  {
    if i >= MAX_CONNECTIONS then p
    else if p.conns[i].state != ACTIVE then UpdateFrom(p, sockets, i + 1)
    else
      TryFlushValid(p, sockets, i);
      UpdateFrom(TryFlush(p, sockets, i).0, sockets, i + 1)
  }

  lemma {:induction false} ClaimedSame(a: seq<PacketData>, b: seq<PacketData>, k: nat)
    requires k <= |a| && |a| == |b| && forall i :: 0 <= i < k ==> a[i].to == b[i].to
    ensures Claimed(a, k) == Claimed(b, k)
  {
    if k != 0 {
      ClaimedSame(a, b, k - 1);
    }
  }

  /** Claiming an address for one more slot. */
  lemma {:induction false} ClaimedMore(a: seq<PacketData>, b: seq<PacketData>, j: nat, k: nat)
    requires k <= |a| && |a| == |b| && j < |a| && a[j].to.None? && b[j].to.Some?
    requires forall i :: 0 <= i < k && i != j ==> a[i].to == b[i].to
    ensures Claimed(b, k) == Claimed(a, k) + if j < k then 1 else 0
  {
    if k != 0 {
      ClaimedMore(a, b, j, k - 1);
    }
  }

  lemma ClearedValid(p: Pool, k: nat)
    requires Valid(p) && k < |p.packets|
    ensures Valid(Cleared(p, k))
  {
    hide Claimed;
    ClaimedSame(p.packets, Cleared(p, k).packets, MAX_BUFFERED_PACKETS);
  }

  lemma {:induction false} FlushValid(p: Pool, sockets: Sockets, conn: nat, i: nat)
    requires Valid(p) && conn < MAX_CONNECTIONS
    ensures Valid(FlushFrom(p, sockets, conn, i).0)
    decreases p.length - i
  {
    hide Claimed, SlotOk;
    if i < p.length {
      var k := SlotOf(i);
      if p.packets[k].len == 0 {
        FlushValid(p, sockets, conn, i + 1);
      } else if sockets(p.calls).Sent? {
        var t := Transmit(p, conn, SlotPacket(p.packets[k], p.addrs));
        ClearedValid(t, k);
        FlushValid(Cleared(t, k), sockets, conn, i + 1);
      }
    }
  }

  lemma TryFlushValid(p: Pool, sockets: Sockets, conn: nat)
    requires Valid(p) && conn < MAX_CONNECTIONS
    ensures Valid(TryFlush(p, sockets, conn).0)
  {
    hide FlushFrom;
    if !(p.length == 0 || p.conns[conn].error != NONE) {
      FlushValid(p, sockets, conn, Start(p.length));
    }
  }

  lemma FilledOk(s: PacketData, data: seq<byte>, n: nat)
    requires SlotOk(s, n)
    ensures SlotOk(Filled(s, data), n) && Filled(s, data).to == s.to
    ensures Filled(s, data).len == |data| % UINT16
    ensures Filled(s, data).data[..|data| % UINT16] == data[..|data| % UINT16]
  {
  }

  /** Queueing keeps the pool valid, whatever the payload and the address. */
  lemma QueueValid(p: Pool, addr: Option<Address>, data: seq<byte>)
    requires Valid(p)
    ensures Valid(Queue(p, addr, data))
  {
    hide Claimed, Filled;
    var k, q := SlotOf(p.length), Queue(p, addr, data);
    FilledOk(p.packets[k], data, |p.addrs|);
    if addr.Some? && p.packets[k].to.None? {
      ClaimedMore(p.packets, q.packets, k, MAX_BUFFERED_PACKETS);
    } else {
      ClaimedSame(p.packets, q.packets, MAX_BUFFERED_PACKETS);
    }
  }

  lemma SendValid(p: Pool, sockets: Sockets, conn: nat, addr: Option<Address>, data: seq<byte>)
    requires Valid(p) && conn < MAX_CONNECTIONS
    ensures Valid(SendPacket(p, sockets, conn, addr, data).0)
  {
    hide Claimed, SlotOk, Queue, TryFlush;
    var q := TryFlush(p, sockets, conn).0;
    TryFlushValid(p, sockets, conn);
    QueueValid(q, addr, data);
    QueueValid(q.(calls := q.calls + 1), addr, data);
  }

  lemma {:induction false} UpdateValid(p: Pool, sockets: Sockets, i: nat)
    requires Valid(p)
    ensures Valid(UpdateFrom(p, sockets, i))
    decreases MAX_CONNECTIONS - i
  {
    hide Claimed, SlotOk, TryFlush;
    if i < MAX_CONNECTIONS {
      if p.conns[i].state != ACTIVE {
        UpdateValid(p, sockets, i + 1);
      } else {
        TryFlushValid(p, sockets, i);
        UpdateValid(TryFlush(p, sockets, i).0, sockets, i + 1);
      }
    }
  }

  /** No slot of p loses or changes its address entry on the way to q, and no entry disappears. */
  ghost predicate KeepsClaims(p: Pool, q: Pool) {
    && |q.packets| == |p.packets| && |p.addrs| <= |q.addrs|
    && forall k :: 0 <= k < |p.packets| && p.packets[k].to.Some? ==> q.packets[k].to == p.packets[k].to
  }

  lemma {:induction false} FlushKeepsClaims(p: Pool, sockets: Sockets, conn: nat, i: nat)
    requires Valid(p) && conn < MAX_CONNECTIONS
    ensures KeepsClaims(p, FlushFrom(p, sockets, conn, i).0)
    decreases p.length - i
  {
    hide Claimed, SlotOk, SlotPacket;
    if i < p.length {
      var k := SlotOf(i);
      if p.packets[k].len == 0 {
        FlushKeepsClaims(p, sockets, conn, i + 1);
      } else if sockets(p.calls).Sent? {
        var t := Transmit(p, conn, SlotPacket(p.packets[k], p.addrs));
        ClearedValid(t, k);
        FlushKeepsClaims(Cleared(t, k), sockets, conn, i + 1);
      }
    }
  }

  lemma TryFlushKeepsClaims(p: Pool, sockets: Sockets, conn: nat)
    requires Valid(p) && conn < MAX_CONNECTIONS
    ensures KeepsClaims(p, TryFlush(p, sockets, conn).0)
  {
    hide FlushFrom;
    FlushKeepsClaims(p, sockets, conn, Start(p.length));
  }

  lemma QueueKeepsClaims(p: Pool, addr: Option<Address>, data: seq<byte>)
    requires Valid(p)
    ensures KeepsClaims(p, Queue(p, addr, data))
  {
    hide Claimed, Filled;
    FilledOk(p.packets[SlotOf(p.length)], data, |p.addrs|);
  }

  lemma SendKeepsClaims(p: Pool, sockets: Sockets, conn: nat, addr: Option<Address>, data: seq<byte>)
    requires Valid(p) && conn < MAX_CONNECTIONS
    ensures KeepsClaims(p, SendPacket(p, sockets, conn, addr, data).0)
  {
    hide Claimed, SlotOk, Queue, TryFlush;
    var q := TryFlush(p, sockets, conn).0;
    TryFlushValid(p, sockets, conn);
    TryFlushKeepsClaims(p, sockets, conn);
    QueueKeepsClaims(q, addr, data);
    QueueKeepsClaims(q.(calls := q.calls + 1), addr, data);
  }

  lemma {:induction false} UpdateKeepsClaims(p: Pool, sockets: Sockets, i: nat)
    requires Valid(p)
    ensures KeepsClaims(p, UpdateFrom(p, sockets, i))
    decreases MAX_CONNECTIONS - i
  {
    hide Claimed, SlotOk, TryFlush;
    if i < MAX_CONNECTIONS {
      if p.conns[i].state != ACTIVE {
        UpdateKeepsClaims(p, sockets, i + 1);
      } else {
        TryFlushValid(p, sockets, i);
        TryFlushKeepsClaims(p, sockets, i);
        UpdateKeepsClaims(TryFlush(p, sockets, i).0, sockets, i + 1);
      }
    }
  }
}
