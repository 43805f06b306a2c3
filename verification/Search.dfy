/** search.inl: the descent of lower_bound and upper_bound through an Eytzinger layout, where the
    children of node k are 2k and 2k + 1 and nodes are numbered from 1. */
module Search {
  import opened Compare

  /** Node j is k or one of its descendants. */
  predicate InSubtree(j: nat, k: nat) {
    j >= k && (j == k || InSubtree(j / 2, k))
  }

  /** Node j lies left of the path from the root to k: the path turned right at j or at a node
      with j in its left subtree. */
  predicate LeftOf(j: nat, k: nat) {
    1 < k && (LeftOf(j, k / 2) || (k % 2 == 1 && (j == k / 2 || InSubtree(j, k - 1))))
  }

  predicate RightOf(j: nat, k: nat) {
    1 < k && (RightOf(j, k / 2) || (k % 2 == 0 && (j == k / 2 || InSubtree(j, k + 1))))
  }

  /** t[1..n] is in Eytzinger order: left subtrees hold nothing larger, right ones nothing smaller. */
  ghost predicate Eytzinger(t: seq<int>, n: nat)
    requires n < |t|
  {
    && (forall j, k :: 1 <= j <= n && 1 <= k <= n && InSubtree(j, 2 * k) ==> t[j] <= t[k])
    && (forall j, k :: 1 <= j <= n && 1 <= k <= n && InSubtree(j, 2 * k + 1) ==> t[k] <= t[j])
  }

  /** What the descents ask of an element: lower_bound looks for the first one not less than x,
      upper_bound for the first one not less than or equal to x. */
  predicate Before(v: int, x: int, upper: bool) {
    if upper then v <= x else v < x
  }

  /** Every node off the path to k is decided: those to the left are before x, those to the right are not. */
  ghost predicate Decided(t: seq<int>, n: nat, x: int, upper: bool, k: nat)
    requires n < |t|
  {
    && (forall j :: 1 <= j <= n && LeftOf(j, k) ==> Before(t[j], x, upper))
    && (forall j :: 1 <= j <= n && RightOf(j, k) ==> !Before(t[j], x, upper))
  }

  lemma DecidedStart(t: seq<int>, n: nat, x: int, upper: bool)
    requires n < |t|
    ensures Decided(t, n, x, upper, 1)
  {
  }

  /** Comparing x with node k decides k and the subtree not entered. */
  lemma DecidedStep(t: seq<int>, n: nat, x: int, upper: bool, k: nat)
    requires n < |t| && Eytzinger(t, n) && 1 <= k && Decided(t, n, x, upper, k)
    ensures k <= n && Before(t[k], x, upper) ==> Decided(t, n, x, upper, 2 * k + 1)
    ensures k <= n && !Before(t[k], x, upper) ==> Decided(t, n, x, upper, 2 * k)
    ensures n < k ==> Decided(t, n, x, upper, 2 * k)
  {
    hide InSubtree;
    assert (2 * k + 1) / 2 == k && (2 * k) / 2 == k;
    var c := 2 * k + 1;
    forall j | 1 <= j <= n && n < k ensures !InSubtree(j, c) {
      SubtreeIsAbove(j, c);
    }
  }

  lemma SubtreeIsAbove(j: nat, k: nat)
    ensures InSubtree(j, k) ==> k <= j
  {
  }

  lemma {:induction false} AllUnderRoot(j: nat)
    requires 1 <= j
    ensures InSubtree(j, 1)
  {
    if j != 1 {
      AllUnderRoot(j / 2);
    }
  }

  /** A subtree is its root and the subtrees of the two children. */
  lemma {:induction false} SubtreeSplit(j: nat, k: nat)
    requires 1 <= k
    ensures InSubtree(j, k) <==> j == k || InSubtree(j, 2 * k) || InSubtree(j, 2 * k + 1)
  {
    if j > k {
      SubtreeSplit(j / 2, k);
    }
  }

  /** Every node is below k or on one side of the path to k. */
  lemma {:induction false} Trichotomy(j: nat, k: nat)
    requires 1 <= j && 1 <= k
    ensures InSubtree(j, k) || LeftOf(j, k) || RightOf(j, k)
  {
    if k == 1 {
      AllUnderRoot(j);
    } else {
      Trichotomy(j, k / 2);
      SubtreeSplit(j, k / 2);
    }
  }

  /** When the loop ends, at most node k itself is still undecided. */
  lemma UndecidedAtExit(n: nat, k: nat, j: nat)
    requires n / 2 < k && 1 <= j <= n && j != k
    ensures LeftOf(j, k) || RightOf(j, k)
  {
    hide LeftOf, RightOf, InSubtree;
    Trichotomy(j, k);
    SubtreeSplit(j, k);
    SubtreeIsAbove(j, 2 * k);
    SubtreeIsAbove(j, 2 * k + 1);
  }

  /** Once k has left the tree, the path separates the nodes below x from the others exactly. */
  lemma DecidedAll(t: seq<int>, n: nat, x: int, upper: bool, k: nat)
    requires n < |t| && n < k && Decided(t, n, x, upper, k)
    ensures forall j :: 1 <= j <= n ==> (Before(t[j], x, upper) <==> LeftOf(j, k)) && (!Before(t[j], x, upper) <==> RightOf(j, k))
  {
    forall j | 1 <= j <= n ensures !InSubtree(j, k) && (LeftOf(j, k) || RightOf(j, k)) {
      Trichotomy(j, k);
      SubtreeIsAbove(j, k);
    }
  }

  /** floor(log2 m) for m >= 1. */
  function Log2(m: nat): nat {
    if m < 2 then 0 else 1 + Log2(m / 2)
  }

  lemma {:induction false} Log2Monotone(k: nat, m: nat)
    requires k <= m
    ensures Log2(k) <= Log2(m)
  {
    if 2 <= k {
      Log2Monotone(k / 2, m / 2);
    }
  }

  /** On return from either descent: k is a child, below the tree, of the node k / 2 at which the loop
      ended, and the path to k separates the elements before x from the others. */
  ghost predicate Descended(t: seq<int>, n: nat, x: int, upper: bool, k: nat)
    requires n < |t|
  {
    && k / 4 <= n / 2 < k / 2
    && k <= 2 * (n + 1)
    && forall j :: 1 <= j <= n ==> (Before(t[j], x, upper) <==> LeftOf(j, k)) && (!Before(t[j], x, upper) <==> RightOf(j, k))
  }

  lemma LogUnfold(k: nat)
    ensures Log2(k) == if k < 2 then 0 else 1 + Log2(k / 2)
  {
  }

  lemma StepsBounded(k: nat, n: nat)
    requires k == 1 || (2 <= k && k / 2 <= n / 2)
    ensures Log2(k) <= Log2(n)
  {
    if k != 1 {
      Log2Monotone(k / 2, n / 2);
    }
  }

  lemma DescendedAll(t: seq<int>, n: nat, x: int, upper: bool, k: nat)
    requires n < |t| && k / 4 <= n / 2 < k / 2 && k <= 2 * (n + 1) && Decided(t, n, x, upper, k)
    ensures Descended(t, n, x, upper, k)
  {
    DecidedAll(t, n, x, upper, k);
  }

  method LowerBoundDescent(t: array<int>, n: nat, x: int, ghost tally: Tally) returns (k: nat)
    requires n < t.Length && Eytzinger(t[..], n)
    modifies tally
    ensures Descended(t[..], n, x, false, k)
    ensures old(tally.compares) <= tally.compares <= old(tally.compares) + Log2(n) + 1
  {
    hide InSubtree, LeftOf, RightOf, Eytzinger, Decided, Log2, Descended;
    k := 1;
    DecidedStart(t[..], n, x, false);
    LogUnfold(1);
    while k <= n / 2
      invariant 1 <= k && (k == 1 || k / 2 <= n / 2)
      invariant tally.compares == old(tally.compares) + Log2(k)
      invariant Decided(t[..], n, x, false, k)
      decreases n - k
    {
      DecidedStep(t[..], n, x, false, k);
      var right := Less(t[k], x, tally);
      k := 2 * k + (if right then 1 else 0);
      LogUnfold(k);
    }
    StepsBounded(k, n);
    DecidedStep(t[..], n, x, false, k);
    var right := false;
    if k <= n {
      right := Less(t[k], x, tally);
    }
    k := 2 * k + (if right then 1 else 0);
    DescendedAll(t[..], n, x, false, k);
  }

  method UpperBoundDescent(t: array<int>, n: nat, x: int, ghost tally: Tally) returns (k: nat)
    requires n < t.Length && Eytzinger(t[..], n)
    modifies tally
    ensures Descended(t[..], n, x, true, k)
    ensures old(tally.compares) <= tally.compares <= old(tally.compares) + Log2(n) + 1
  {
    hide InSubtree, LeftOf, RightOf, Eytzinger, Decided, Log2, Descended;
    k := 1;
    DecidedStart(t[..], n, x, true);
    LogUnfold(1);
    while k <= n / 2
      invariant 1 <= k && (k == 1 || k / 2 <= n / 2)
      invariant tally.compares == old(tally.compares) + Log2(k)
      invariant Decided(t[..], n, x, true, k)
      decreases n - k
    {
      DecidedStep(t[..], n, x, true, k);
      var right := AtMost(t[k], x, tally);
      k := 2 * k + (if right then 1 else 0);
      LogUnfold(k);
    }
    StepsBounded(k, n);
    DecidedStep(t[..], n, x, true, k);
    var right := false;
    if k <= n {
      right := AtMost(t[k], x, tally);
    }
    k := 2 * k + (if right then 1 else 0);
    DescendedAll(t[..], n, x, true, k);
  }

  /** Two paths of which neither continues the other part at some node, to its left and to its right. */
  lemma {:induction false} PathsPart(k: nat, l: nat) returns (j: nat)
    requires 1 <= k && 1 <= l && !InSubtree(k, l) && !InSubtree(l, k)
    ensures 1 <= j <= k / 2 && j <= l / 2
    ensures (LeftOf(j, k) && RightOf(j, l)) || (RightOf(j, k) && LeftOf(j, l))
    decreases k + l
  {
    if k / 2 == l / 2 {
      j := k / 2;
    } else if k < l {
      j := PathsPart(k, l / 2);
    } else {
      j := PathsPart(k / 2, l);
    }
  }

  lemma NotBelow(n: nat, k: nat, l: nat)
    requires k / 4 <= n / 2 < k / 2 && n / 2 < l / 2 && k != l
    ensures !InSubtree(k, l)
  {
    SubtreeIsAbove(k / 2, l);
  }

  /** What a descent ends with is determined by the tree and x. */
  lemma DescendedUnique(t: seq<int>, n: nat, x: int, upper: bool, k: nat, l: nat)
    requires n < |t| && Descended(t, n, x, upper, k) && Descended(t, n, x, upper, l)
    ensures k == l
  {
    if k != l {
      NotBelow(n, k, l);
      NotBelow(n, l, k);
      var j := PathsPart(k, l);
    }
  }

  /** The last node at which the path to k turned left; 0 if it never did. */
  function LastLeftTurn(k: nat): (d: nat)
    ensures d <= k
  {
    if k == 0 then 0 else if k % 2 == 1 then LastLeftTurn(k / 2) else k / 2
  }

  /** Whatever lies right of the path to k is at least everything below k. */
  lemma {:induction false} RightIsLarger(t: seq<int>, n: nat, k: nat, m: nat, j: nat)
    requires n < |t| && Eytzinger(t, n)
    requires 1 <= m <= n && 1 <= j <= n && InSubtree(m, k) && RightOf(j, k)
    ensures t[m] <= t[j]
  {
    var p := k / 2;
    SubtreeSplit(m, p);
    if RightOf(j, p) {
      RightIsLarger(t, n, p, m, j);
    } else {
      assert t[m] <= t[p] by {
        SubtreeIsAbove(m, p);
      }
    }
  }

  /** d is the node holding the least element that is not before x, or 0 if there is none. */
  ghost predicate IsBound(t: seq<int>, n: nat, x: int, upper: bool, d: nat)
    requires n < |t|
  {
    && (d == 0 ==> forall j :: 1 <= j <= n ==> Before(t[j], x, upper))
    && (1 <= d <= n ==> !Before(t[d], x, upper) && forall j :: 1 <= j <= n && !Before(t[j], x, upper) ==> t[d] <= t[j])
  }

  lemma {:induction false} LastLeftTurnIsBound(t: seq<int>, n: nat, x: int, upper: bool, k: nat)
    requires n < |t| && Eytzinger(t, n)
    requires 1 <= k && forall j :: 1 <= j <= n ==> (!Before(t[j], x, upper) <==> RightOf(j, k))
    ensures IsBound(t, n, x, upper, LastLeftTurn(k))
  {
    if k == 1 {
    } else if k % 2 == 1 {
      LastLeftTurnIsBound(t, n, x, upper, k / 2);
    } else {
      var d := k / 2;
      assert InSubtree(d, d);
      forall j | 1 <= j <= n && !Before(t[j], x, upper) && d <= n ensures t[d] <= t[j] {
        assert RightOf(j, k);
        if RightOf(j, d) {
          RightIsLarger(t, n, d, d, j);
        }
      }
    }
  }

  /** The node where a descent that ended at k says the bound is; 0 for none. A path that leaves the
      tree at n + 1 takes one more left turn, outside the tree. */
  function BoundNode(n: nat, k: nat): nat {
    LastLeftTurn(if k == 2 * (n + 1) then n + 1 else k)
  }

  /** Both descents find the bound: it is the last node of the tree at which the path turned left. */
  lemma DescentFindsBound(t: seq<int>, n: nat, x: int, upper: bool, k: nat)
    requires 1 <= n < |t| && Eytzinger(t, n) && Descended(t, n, x, upper, k)
    ensures var d := BoundNode(n, k);
            d <= n && IsBound(t, n, x, upper, d)
  {
    hide InSubtree;
    if k == 2 * (n + 1) {
      var c := k + 1;
      forall j | 1 <= j <= n ensures RightOf(j, k) <==> RightOf(j, n + 1) {
        SubtreeIsAbove(j, c);
      }
      LastLeftTurnIsBound(t, n, x, upper, n + 1);
    } else {
      LastLeftTurnIsBound(t, n, x, upper, k);
    }
  }

  /** What lines 13 and 25 compute from k: its trailing one bits shifted out. */
  function OnesShiftedOut(k: nat): nat {
    if k % 2 == 1 then OnesShiftedOut(k / 2) else k
  }

  /** That shift stops one level too low, at the left child of the node with the bound. */
  lemma {:induction false} ShiftStopsBelowBound(k: nat)
    ensures OnesShiftedOut(k) == 2 * LastLeftTurn(k)
  {
    if k % 2 == 1 {
      ShiftStopsBelowBound(k / 2);
    }
  }

  /** The index lower_bound reads in the end: line 14 replaces an index from n on by n - 1. */
  function LowerBoundIndex(n: nat, k: nat): nat
    requires 1 <= n
  {
    var c := OnesShiftedOut(k);
    if c < n then c else n - 1
  }

  /** The index upper_bound reads, which is not checked against n. */
  function UpperBoundIndex(k: nat): nat {
    OnesShiftedOut(k)
  }

  lemma LastLeftTurnHalf(k: nat)
    ensures 2 * LastLeftTurn(k) <= k
  {
    ShiftStopsBelowBound(k);
    ShiftedDown(k);
  }

  lemma {:induction false} ShiftedDown(k: nat)
    ensures OnesShiftedOut(k) <= k
  {
    if k % 2 == 1 {
      ShiftedDown(k / 2);
    }
  }

  /** The index in terms of the bound: twice the number of its node, for lower_bound if that is below n.
      If the path turned left outside the tree, at n + 1, that turn is taken for the bound. */
  lemma ReturnedIndex(n: nat, k: nat)
    requires 1 <= n
    ensures k != 2 * (n + 1) ==>
              && LowerBoundIndex(n, k) == (if 2 * BoundNode(n, k) < n then 2 * BoundNode(n, k) else n - 1)
              && UpperBoundIndex(k) == 2 * BoundNode(n, k)
    ensures k == 2 * (n + 1) ==> LowerBoundIndex(n, k) == n - 1 && UpperBoundIndex(k) == 2 * (n + 1)
  {
    ShiftStopsBelowBound(k);
  }

  /** When there is a bound, lower_bound reads its node exactly if that is node n - 1, thanks to the
      clamp, and upper_bound never does. */
  lemma ReturnedIndexIff(n: nat, k: nat)
    requires 1 <= n < k && 1 <= BoundNode(n, k)
    ensures LowerBoundIndex(n, k) == BoundNode(n, k) <==> BoundNode(n, k) == n - 1
    ensures UpperBoundIndex(k) != BoundNode(n, k)
  {
    ShiftStopsBelowBound(k);
    ShiftStopsBelowBound(n + 1);
    LastLeftTurnHalf(n + 1);
    LastLeftTurnHalf(k);
  }
}
