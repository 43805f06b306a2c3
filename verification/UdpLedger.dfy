/** Bookkeeping for the UDP pool: every packet accepted, by its number in the order of acceptance,
    and what has become of it. */
module UdpLedger {
  import opened UdpModel
  import opened UdpRing

  /** Accepted packets are kept with the connection they were handed in for. Each number is sent,
      pending, evicted by a newer packet, or lost without a trace. */
  datatype Ledger = Ledger(
    accepted: seq<Datagram>,
    sent: seq<nat>,
    pending: seq<nat>,
    evicted: seq<nat>,
    lost: seq<nat>)

  const EMPTY_LEDGER: Ledger := Ledger([], [], [], [], [])

  /** The first k waiting packets have gone out. */
  function Flushed(l: Ledger, k: nat): Ledger {
    if k <= |l.pending| then l.(sent := l.sent + l.pending[..k], pending := l.pending[k..]) else l
  }

  /** A packet is accepted and goes out at once. */
  function Passed(l: Ledger, d: Datagram): Ledger {
    l.(accepted := l.accepted + [d], sent := l.sent + [|l.accepted|])
  }

  /** What still waits after making room, and what had to go for it. */
  function Kept(l: Ledger, evicts: bool): seq<nat> {
    Room<nat>(l.pending, evicts)
  }

  function Gone(l: Ledger, evicts: bool): seq<nat> {
    if evicts && l.pending != [] then [l.pending[0]] else []
  }

  /** A packet is accepted into the queue. If its slot is that of the oldest waiting packet, that one
      is evicted. If its length is cut to nothing, it is lost; if the position counter wraps, so is
      everything that waits. */
  function Enqueued(l: Ledger, d: Datagram, evicts: bool, wraps: bool): Ledger {
    var id, kept := |l.accepted|, Kept(l, evicts);
    var r := l.(accepted := l.accepted + [d], evicted := l.evicted + Gone(l, evicts));
    if wraps then r.(pending := [], lost := l.lost + kept + [id])
    else if |d.packet.payload| % UINT16 == 0 then r.(pending := kept, lost := l.lost + [id])
    else r.(pending := kept + [id])
  }

  predicate Increasing(s: seq<nat>) {
    forall i, j :: 0 <= i < j < |s| ==> s[i] < s[j]
  }

  /** All numbers recorded, as often as they are. */
  ghost function Places(l: Ledger): multiset<nat> {
    var sent: multiset<nat>, pending: multiset<nat> := multiset(l.sent), multiset(l.pending);
    var evicted: multiset<nat>, lost: multiset<nat> := multiset(l.evicted), multiset(l.lost);
    sent + pending + evicted + lost
  }

  /** Each accepted packet is in exactly one place, and is so once. */
  ghost predicate Accounted(l: Ledger) {
    forall id: nat :: Places(l)[id] == if id < |l.accepted| then 1 else 0
  }

  /** What is evicted is older than all that waits, and what waits is in order. */
  ghost predicate OldestEvicted(l: Ledger) {
    && Increasing(l.evicted + l.pending)
    && forall i :: 0 <= i < |l.evicted + l.pending| ==> (l.evicted + l.pending)[i] < |l.accepted|
  }

  ghost predicate Booked(l: Ledger) {
    Accounted(l) && OldestEvicted(l)
  }

  /** What has gone out and then what waits follow the order of acceptance. */
  ghost predicate InOrder(l: Ledger) {
    Increasing(l.sent + l.pending) && forall i :: 0 <= i < |l.sent| ==> l.sent[i] < |l.accepted|
  }

  /** Nothing is lost, and only a packet followed by eight newer ones is evicted. */
  ghost predicate Clean(l: Ledger) {
    l.lost == [] && forall i :: 0 <= i < |l.evicted| ==> l.evicted[i] + MAX_BUFFERED_PACKETS < |l.accepted|
  }

  lemma IncreasingDrop(a: seq<nat>, b: seq<nat>, k: nat)
    requires Increasing(a + b) && k <= |b|
    ensures Increasing(a + b[k..])
  {
    var s, r := a + b, a + b[k..];
    forall i, j | 0 <= i < j < |r| ensures r[i] < r[j] {
      assert r[i] == s[if i < |a| then i else i + k];
      assert r[j] == s[if j < |a| then j else j + k];
    }
  }

  lemma IncreasingTake(a: seq<nat>, b: seq<nat>)
    requires Increasing(a + b)
    ensures Increasing(a) && Increasing(b)
  {
    forall i, j | 0 <= i < j < |a| ensures a[i] < a[j] {
      assert (a + b)[i] == a[i] && (a + b)[j] == a[j];
    }
    forall i, j | 0 <= i < j < |b| ensures b[i] < b[j] {
      assert (a + b)[|a| + i] == b[i] && (a + b)[|a| + j] == b[j];
    }
  }

  lemma IncreasingAppend(a: seq<nat>, x: nat)
    requires Increasing(a) && forall i :: 0 <= i < |a| ==> a[i] < x
    ensures Increasing(a + [x])
  {
  }

  lemma IncreasingSpread(s: seq<nat>, j: nat)
    requires Increasing(s) && j < |s|
    ensures s[0] + j <= s[j]
  {
    if j != 0 {
      IncreasingSpread(s, j - 1);
    }
  }

  lemma SentBelow(l: Ledger, k: nat)
    requires OldestEvicted(l) && InOrder(l) && k <= |l.pending|
    ensures forall i :: 0 <= i < |Flushed(l, k).sent| ==> Flushed(l, k).sent[i] < |l.accepted|
  {
    forall j | 0 <= j < k ensures l.pending[j] < |l.accepted| {
      assert (l.evicted + l.pending)[|l.evicted| + j] == l.pending[j];
    }
  }

  lemma FlushedAccounted(l: Ledger, k: nat)
    requires Accounted(l)
    ensures Accounted(Flushed(l, k))
  {
    if k <= |l.pending| {
      assert l.pending == l.pending[..k] + l.pending[k..];
      assert Places(Flushed(l, k)) == Places(l);
    }
  }

  lemma OldestDropped(l: Ledger, k: nat)
    requires OldestEvicted(l) && k <= |l.pending|
    ensures OldestEvicted(l.(pending := l.pending[k..]))
  {
    hide Increasing;
    var s, r := l.evicted + l.pending, l.evicted + l.pending[k..];
    IncreasingDrop(l.evicted, l.pending, k);
    forall i | 0 <= i < |r| ensures r[i] < |l.accepted| {
      assert r[i] == s[if i < |l.evicted| then i else i + k];
    }
  }

  /** Flushing changes neither the books nor the order. */
  lemma FlushedBooked(l: Ledger, k: nat)
    requires Booked(l)
    ensures Booked(Flushed(l, k))
    ensures InOrder(l) ==> InOrder(Flushed(l, k))
    ensures Clean(l) ==> Clean(Flushed(l, k))
  {
    hide Accounted, Increasing;
    FlushedAccounted(l, k);
    if k <= |l.pending| {
      OldestDropped(l, k);
      assert l.sent + l.pending[..k] + l.pending[k..] == l.sent + l.pending;
      if InOrder(l) {
        SentBelow(l, k);
      }
    }
  }

  lemma PassedAccounted(l: Ledger, d: Datagram)
    requires Accounted(l)
    ensures Accounted(Passed(l, d))
  {
    assert Places(Passed(l, d)) == Places(l) + multiset{|l.accepted|};
  }

  lemma PassedOvertakes(l: Ledger, d: Datagram)
    requires OldestEvicted(l) && l.pending != []
    ensures !InOrder(Passed(l, d))
  {
    var r, n := Passed(l, d), |l.sent|;
    assert (l.evicted + l.pending)[|l.evicted|] == l.pending[0];
    assert (r.sent + r.pending)[n] == |l.accepted| && (r.sent + r.pending)[n + 1] == l.pending[0];
  }

  /** Passing a packet on keeps the order exactly if nothing waits. */
  lemma PassedBooked(l: Ledger, d: Datagram)
    requires Booked(l)
    ensures Booked(Passed(l, d))
    ensures InOrder(l) ==> (InOrder(Passed(l, d)) <==> l.pending == [])
    ensures Clean(l) ==> Clean(Passed(l, d))
  {
    hide Accounted, Increasing;
    var r := Passed(l, d);
    PassedAccounted(l, d);
    if l.pending != [] {
      PassedOvertakes(l, d);
    } else if InOrder(l) {
      assert r.sent + r.pending == l.sent + l.pending + [|l.accepted|];
      IncreasingAppend(l.sent + l.pending, |l.accepted|);
    }
  }

  lemma RoomSplits(l: Ledger, evicts: bool)
    ensures l.pending == Gone(l, evicts) + Kept(l, evicts)
  {
  }

  lemma EnqueuedAccounted(l: Ledger, d: Datagram, evicts: bool, wraps: bool)
    requires Accounted(l)
    ensures Accounted(Enqueued(l, d, evicts, wraps))
  {
    hide Kept, Gone;
    RoomSplits(l, evicts);
    assert Places(Enqueued(l, d, evicts, wraps)) == Places(l) + multiset{|l.accepted|};
  }

  lemma EnqueuedOldest(l: Ledger, d: Datagram, evicts: bool, wraps: bool)
    requires OldestEvicted(l)
    ensures OldestEvicted(Enqueued(l, d, evicts, wraps))
  {
    hide Increasing, Kept, Gone;
    var n, kept, gone := |l.accepted|, Kept(l, evicts), Gone(l, evicts);
    var past := l.evicted + gone;
    RoomSplits(l, evicts);
    assert l.evicted + l.pending == past + kept;
    IncreasingTake(past, kept);
    IncreasingAppend(l.evicted + l.pending, n);
    assert past + [] == past && past + (kept + [n]) == l.evicted + l.pending + [n];
    assert forall i :: 0 <= i < |past| ==> past[i] == (l.evicted + l.pending)[i];
  }

  lemma KeptBelow(l: Ledger, evicts: bool)
    requires OldestEvicted(l)
    ensures forall i :: 0 <= i < |Kept(l, evicts)| ==> Kept(l, evicts)[i] < |l.accepted|
  {
    hide Increasing, Kept;
    RoomSplits(l, evicts);
    var all, kept, k := l.evicted + l.pending, Kept(l, evicts), |l.evicted| + |Gone(l, evicts)|;
    forall i | 0 <= i < |kept| ensures kept[i] < |l.accepted| {
      assert all[k + i] == kept[i];
    }
  }

  lemma KeptInOrder(l: Ledger, evicts: bool)
    requires OldestEvicted(l) && InOrder(l)
    ensures Increasing(l.sent + Kept(l, evicts))
    ensures forall i :: 0 <= i < |l.sent + Kept(l, evicts)| ==> (l.sent + Kept(l, evicts))[i] < |l.accepted|
  {
    hide Increasing, Kept, OldestEvicted;
    RoomSplits(l, evicts);
    KeptBelow(l, evicts);
    assert Kept(l, evicts) == l.pending[|Gone(l, evicts)|..];
    IncreasingDrop(l.sent, l.pending, |Gone(l, evicts)|);
  }

  lemma EnqueuedInOrder(l: Ledger, d: Datagram, evicts: bool, wraps: bool)
    requires OldestEvicted(l) && InOrder(l)
    ensures InOrder(Enqueued(l, d, evicts, wraps))
  {
    hide Increasing, Kept, Gone;
    var n, kept := |l.accepted|, Kept(l, evicts);
    KeptInOrder(l, evicts);
    IncreasingAppend(l.sent + kept, n);
    IncreasingTake(l.sent, kept);
    assert l.sent + [] == l.sent && l.sent + (kept + [n]) == l.sent + kept + [n];
  }

  /** Queueing a packet keeps the books and the order, whatever happens to the packet. */
  lemma EnqueuedBooked(l: Ledger, d: Datagram, evicts: bool, wraps: bool)
    requires Booked(l)
    ensures Booked(Enqueued(l, d, evicts, wraps))
    ensures InOrder(l) ==> InOrder(Enqueued(l, d, evicts, wraps))
  {
    hide Accounted, OldestEvicted, InOrder, Enqueued;
    EnqueuedAccounted(l, d, evicts, wraps);
    EnqueuedOldest(l, d, evicts, wraps);
    if InOrder(l) {
      EnqueuedInOrder(l, d, evicts, wraps);
    }
  }

  /** The ledger stays clean if a packet of some length is queued, the counter does not wrap, and
      only a queue of eight evicts. */
  lemma EnqueuedClean(l: Ledger, d: Datagram, evicts: bool)
    requires Clean(l) && OldestEvicted(l) && |d.packet.payload| % UINT16 != 0
    requires evicts ==> |l.pending| == MAX_BUFFERED_PACKETS
    ensures Clean(Enqueued(l, d, evicts, false))
  {
    hide Increasing;
    if evicts {
      IncreasingTake(l.evicted, l.pending);
      IncreasingSpread(l.pending, MAX_BUFFERED_PACKETS - 1);
      assert (l.evicted + l.pending)[|l.evicted| + MAX_BUFFERED_PACKETS - 1] == l.pending[MAX_BUFFERED_PACKETS - 1];
    }
  }

  /** The numbers below n, each once, are n numbers. */
  lemma {:induction false} OnceEach(m: multiset<nat>, n: nat)
    requires forall id: nat :: m[id] == if id < n then 1 else 0
    ensures |m| == n
  {
    if n == 0 {
      assert m == multiset{};
    } else {
      var r := m[n - 1 := 0];
      OnceEach(r, n - 1);
      assert m == r + multiset{n - 1};
    }
  }

  lemma AccountedCount(l: Ledger)
    requires Accounted(l)
    ensures |l.accepted| == |l.sent| + |l.pending| + |l.evicted| + |l.lost|
  {
    OnceEach(Places(l), |l.accepted|);
  }

  /** What is missing from the packets sent and waiting is what was evicted or lost. */
  lemma MissingAreGone(l: Ledger)
    requires Accounted(l)
    ensures forall id: nat :: id < |l.accepted| ==> (id in l.sent + l.pending <==> id !in l.evicted + l.lost)
  {
    forall id: nat | id < |l.accepted| ensures id in l.sent + l.pending <==> id !in l.evicted + l.lost {
      assert Places(l)[id] == 1;
    }
  }
}
