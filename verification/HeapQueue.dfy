/** Runs of push_heap and pop_heap against a multiset priority queue. */
module HeapQueue {
  import opened Compare
  import opened Heap
  import opened HeapOrder
  import opened Rearrange
  import opened Sequence
  import opened SortSpec

  datatype Request = Push(x: int) | Pop

  ghost predicate IsMax(x: int, m: multiset<int>) {
    x in m && forall y :: y in m ==> y <= x
  }

  lemma {:induction false} MaxExists(m: multiset<int>)
    requires m != multiset{}
    ensures exists x :: IsMax(x, m)
    decreases |m|
  {
    assert (forall y :: y !in m) ==> m == multiset{};
    var y :| y in m;
    var rest := m - multiset{y};
    if rest == multiset{} {
      assert m == multiset{y};
      assert IsMax(y, m);
    } else {
      MaxExists(rest);
      var x :| IsMax(x, rest);
      assert forall z :: z in m ==> z == y || z in rest;
      assert IsMax(if x < y then y else x, m);
    }
  }

  ghost function MaxOf(m: multiset<int>): (x: int)
    requires m != multiset{}
    ensures IsMax(x, m)
  {
    MaxExists(m);
    var x :| IsMax(x, m);
    x
  }

  /** The abstract priority queue: what the pops among the requests give, in order. */
  ghost function Served(requests: seq<Request>, held: multiset<int>): seq<int> {
    if requests == [] then [] else
      match requests[0]
      case Push(x) => Served(requests[1..], held + multiset{x})
      case Pop =>
        if held == multiset{} then Served(requests[1..], held)
        else [MaxOf(held)] + Served(requests[1..], held - multiset{MaxOf(held)})
  }

  /** What the concrete queue has done so far: out is already served, and the first n elements,
      heap ordered, will serve the rest of the requests. */
  ghost predicate Serving(requests: seq<Request>, i: nat, out: seq<int>, t: seq<int>, n: nat)
    requires i <= |requests| && n <= |t|
  {
    && IsHeap(t, n)
    && Served(requests, multiset{}) == out + Served(requests[i..], multiset(t[..n]))
  }

  lemma ServingStart(requests: seq<Request>, t: seq<int>)
    ensures Serving(requests, 0, [], t, 0)
  {
    assert requests[0..] == requests && t[..0] == [];
  }

  lemma ServingPush(requests: seq<Request>, i: nat, out: seq<int>, t: seq<int>, r: seq<int>, n: nat, x: int)
    requires i < |requests| && n < |t| && requests[i] == Push(x)
    requires Serving(requests, i, out, t, n)
    requires Rearranges(t[n := x], r, 0, n + 1) && IsHeap(r, n + 1)
    ensures Serving(requests, i + 1, out, r, n + 1)
  {
    hide IsHeap;
    assert t[n := x][0..n + 1] == t[..n] + [x] && r[0..n + 1] == r[..n + 1];
    assert requests[i..][1..] == requests[i + 1..];
  }

  lemma ServingPop(requests: seq<Request>, i: nat, out: seq<int>, t: seq<int>, r: seq<int>, n: nat)
    requires i < |requests| && 1 <= n <= |t| && requests[i] == Pop
    requires Serving(requests, i, out, t, n)
    requires Rearranges(t, r, 0, n) && IsHeap(r, n - 1) && forall k :: 0 <= k < n ==> r[k] <= r[n - 1]
    ensures Serving(requests, i + 1, out + [r[n - 1]], r, n - 1)
  {
    hide IsHeap;
    var held, x := multiset(t[..n]), r[n - 1];
    assert t[0..n] == t[..n] && r[0..n] == r[..n - 1] + [x];
    assert multiset(r[..n - 1]) == held - multiset{x};
    assert x in held;
    forall y | y in held ensures y <= x {
      assert y in r[0..n];
    }
    assert MaxOf(held) == x;
    assert requests[i..][1..] == requests[i + 1..];
    assert out + ([x] + Served(requests[i + 1..], held - multiset{x}))
        == out + [x] + Served(requests[i + 1..], held - multiset{x});
  }

  lemma ServingPopEmpty(requests: seq<Request>, i: nat, out: seq<int>, t: seq<int>)
    requires i < |requests| && requests[i] == Pop && Serving(requests, i, out, t, 0)
    ensures Serving(requests, i + 1, out, t, 0)
  {
    assert t[..0] == [] && requests[i..][1..] == requests[i + 1..];
  }

  lemma ServingDone(requests: seq<Request>, out: seq<int>, t: seq<int>, n: nat)
    requires n <= |t| && Serving(requests, |requests|, out, t, n)
    ensures out == Served(requests, multiset{})
  {
    assert requests[|requests|..] == [];
  }

  lemma ServingHeap(requests: seq<Request>, i: nat, out: seq<int>, t: seq<int>, n: nat)
    requires i <= |requests| && n <= |t| && Serving(requests, i, out, t, n)
    ensures IsHeap(t, n)
  {
  }

  lemma HeapIgnoresRest(s: seq<int>, r: seq<int>, n: nat)
    requires n <= |s| && n <= |r| && s[..n] == r[..n] && IsHeap(s, n)
    ensures IsHeap(r, n)
  {
    forall j | 1 <= j < n ensures r[j] <= r[Parent(j)] {
      assert r[..n][j] == s[..n][j] && r[..n][Parent(j)] == s[..n][Parent(j)];
    }
  }

  /** A client of push_heap and pop_heap, for any requests: a popped element is read from behind
      the shrunken heap, and a pop without elements is not passed on. */
  method Serve(a: array<int>, requests: seq<Request>, ghost tally: Tally) returns (out: seq<int>)
    requires |requests| <= a.Length
    modifies a, tally
    ensures out == Served(requests, multiset{})
  {
    hide *;
    out := [];
    var n := 0;
    ServingStart(requests, a[..]);
    for i := 0 to |requests|
      invariant n <= i && Serving(requests, i, out, a[..], n)
    {
      ghost var t := a[..];
      ServingHeap(requests, i, out, t, n);
      match requests[i] {
        case Push(x) =>
          a[n] := x;
          assert a[..] == t[n := x];
          HeapIgnoresRest(t, a[..], n);
          n := n + 1;
          PushHeap(a, n, tally);
          ServingPush(requests, i, out, t, a[..], n - 1, x);
        case Pop =>
          if n == 0 {
            ServingPopEmpty(requests, i, out, t);
          } else {
            PopHeap(a, n, tally);
            ServingPop(requests, i, out, t, a[..], n);
            n := n - 1;
            out := out + [a[n]];
          }
      }
    }
    ServingDone(requests, out, a[..], n);
  }

  /** k pops in a row. */
  function Pops(k: nat): seq<Request> {
    seq(k, _ => Pop)
  }

  function Without(s: seq<int>, x: int): (rest: seq<int>)
    requires x in multiset(s)
    ensures |rest| == |s| - 1 && multiset(rest) == multiset(s) - multiset{x}
  {
    assert s == [s[0]] + s[1..];
    if s[0] == x then s[1..] else [s[0]] + Without(s[1..], x)
  }

  lemma ServedPop(s: seq<int>, rest: seq<int>)
    requires s != [] && |rest| == |s| - 1
    requires multiset(rest) == multiset(s) - multiset{MaxOf(multiset(s))}
    ensures Served(Pops(|s|), multiset(s)) == [MaxOf(multiset(s))] + Served(Pops(|rest|), multiset(rest))
    ensures Reversed(Served(Pops(|s|), multiset(s)))
         == Reversed(Served(Pops(|rest|), multiset(rest))) + [MaxOf(multiset(s))]
  {
    assert Pops(|s|)[1..] == Pops(|rest|);
    var served := Served(Pops(|rest|), multiset(rest));
    assert ([MaxOf(multiset(s))] + served)[1..] == served;
  }

  lemma MaxLast(s: seq<int>, rest: seq<int>, x: int)
    requires s != [] && x == MaxOf(multiset(s)) && multiset(rest) == multiset(s) - multiset{x}
    ensures SortOf(s) == SortOf(rest) + [x]
  {
    forall i | 0 <= i < |rest| ensures rest[i] <= x {
      assert rest[i] in multiset(rest);
    }
    SortOfSplit(rest, [x]);
    SortOfShort([x]);
    assert Permutes(rest + [x], s);
    SortOfPermuted(rest + [x], s);
  }

  /** Emptying the queue gives what it held in descending order: each element once, sorted. */
  lemma {:induction false} DrainSorts(s: seq<int>)
    ensures Reversed(Served(Pops(|s|), multiset(s))) == SortOf(s)
    decreases |s|
  {
    hide SortOf;
    if s == [] {
      assert Pops(0) == [];
      SortOfShort([]);
    } else {
      var x := MaxOf(multiset(s));
      var rest := Without(s, x);
      DrainSorts(rest);
      ServedPop(s, rest);
      MaxLast(s, rest, x);
    }
  }
}
