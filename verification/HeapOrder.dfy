/** Heap order on an implicit binary tree, and what one step of sifting does to it. */
module HeapOrder {
  import opened Compare
  import opened Rearrange
  import opened SortSpec

  /** The parent of node j; negative for the root. */
  function Parent(j: nat): int {
    if j == 0 then -1 else (j - 1) / 2
  }

  /** No child among the first n nodes exceeds its parent, for all parents from start on. */
  ghost predicate HeapFrom(s: seq<int>, start: nat, n: nat)
    requires n <= |s|
  {
    forall j :: 1 <= j < n && Parent(j) >= start ==> s[j] <= s[Parent(j)]
  }

  ghost predicate IsHeap(s: seq<int>, n: nat)
    requires n <= |s|
  {
    HeapFrom(s, 0, n)
  }

  /** Heap order except that node pos may be smaller than its children: those children still
      respect the parent of pos. */
  ghost predicate HoleDown(s: seq<int>, start: nat, pos: nat, n: nat)
    requires n <= |s|
  {
    && (forall j :: 1 <= j < n && Parent(j) >= start && Parent(j) != pos ==> s[j] <= s[Parent(j)])
    && (forall j :: 1 <= j < n && Parent(j) == pos && Parent(pos) >= start && pos < n ==> s[j] <= s[Parent(pos)])
  }

  /** Heap order except that node pos may exceed its parent. */
  ghost predicate HoleUp(s: seq<int>, pos: nat, n: nat)
    requires n <= |s|
  {
    && (forall j :: 1 <= j < n && j != pos ==> s[j] <= s[Parent(j)])
    && (forall j :: 1 <= j < n && Parent(j) == pos && 1 <= pos < n ==> s[j] <= s[Parent(pos)])
  }

  /** c is the larger child of pos, and larger than pos. */
  ghost predicate LargerChild(s: seq<int>, pos: nat, c: nat, n: nat)
    requires n <= |s|
  {
    && pos < c < n && Parent(c) == pos && s[pos] < s[c]
    && forall j :: 1 <= j < n && Parent(j) == pos ==> s[j] <= s[c]
  }

  lemma HoleDownStart(s: seq<int>, pos: nat, n: nat)
    requires n <= |s| && HeapFrom(s, pos + 1, n)
    ensures HoleDown(s, pos, pos, n)
  {
  }

  lemma HoleDownStep(s: seq<int>, start: nat, pos: nat, c: nat, n: nat)
    requires n <= |s| && start <= pos && HoleDown(s, start, pos, n) && LargerChild(s, pos, c, n)
    ensures HoleDown(Swapped(s, pos, c), start, c, n)
  {
  }

  lemma HoleDownDone(s: seq<int>, start: nat, pos: nat, n: nat)
    requires n <= |s| && HoleDown(s, start, pos, n)
    requires forall j :: 1 <= j < n && Parent(j) == pos ==> s[j] <= s[pos]
    ensures HeapFrom(s, start, n)
  {
  }

  lemma HoleUpStart(s: seq<int>, n: nat)
    requires 1 <= n <= |s| && IsHeap(s, n - 1)
    ensures HoleUp(s, n - 1, n)
  {
  }

  lemma HoleUpStep(s: seq<int>, pos: nat, n: nat)
    requires 1 <= pos < n <= |s| && HoleUp(s, pos, n) && s[Parent(pos)] < s[pos]
    ensures HoleUp(Swapped(s, Parent(pos), pos), Parent(pos), n)
  {
  }

  lemma HoleUpDone(s: seq<int>, pos: nat, n: nat)
    requires pos < n <= |s| && HoleUp(s, pos, n) && (pos == 0 || s[pos] <= s[Parent(pos)])
    ensures IsHeap(s, n)
  {
  }

  /** The root of a heap is a maximum. */
  lemma {:induction false} HeapTop(s: seq<int>, n: nat, j: nat)
    requires j < n <= |s| && IsHeap(s, n)
    ensures s[j] <= s[0]
  {
    if j != 0 {
      HeapTop(s, n, Parent(j));
    }
  }

  /** The length of the longest path down from node j of n, counting nodes from 1. */
  function Height(j: nat, n: nat): nat
    requires 1 <= j
    decreases n - j
  {
    if 2 * j <= n then 1 + Height(2 * j, n) else 0
  }

  /** The heights of the first i nodes added up. */
  function SumHeights(i: nat, n: nat): nat {
    if i == 0 then 0 else SumHeights(i - 1, n) + Height(i, n)
  }

  lemma {:induction false} HeightMonotone(j: nat, k: nat, n: nat)
    requires 1 <= j <= k
    ensures Height(k, n) <= Height(j, n)
    decreases n - j
  {
    if 2 * k <= n {
      HeightMonotone(2 * j, 2 * k, n);
    }
  }

  /** A node has the height its left child would have in a tree twice as large. */
  lemma {:induction false} HeightHalves(j: nat, n: nat)
    requires 1 <= j
    ensures Height(2 * j, n) == Height(j, n / 2)
    decreases n - j
  {
    if 4 * j <= n {
      HeightHalves(2 * j, n);
    }
  }

  lemma {:induction false} SumHeightsHalves(i: nat, n: nat)
    requires 2 * i <= n
    ensures SumHeights(i, n) == i + SumHeights(i, n / 2)
  {
    if i != 0 {
      SumHeightsHalves(i - 1, n);
      HeightHalves(i, n);
    }
  }

  lemma {:induction false} LeavesHaveNoHeight(i: nat, n: nat)
    requires n / 2 <= i
    ensures SumHeights(i, n) == SumHeights(n / 2, n)
  {
    if n / 2 < i {
      LeavesHaveNoHeight(i - 1, n);
    }
  }

  /** All node heights of a tree with n nodes add up to less than n, not to n log n. */
  lemma {:induction false} SumHeightsLinear(n: nat)
    requires 1 <= n
    ensures SumHeights(n, n) <= n - 1
  {
    LeavesHaveNoHeight(n, n);
    if 2 <= n {
      SumHeightsHalves(n / 2, n);
      SumHeightsLinear(n / 2);
    }
  }

  lemma ParentOf(j: nat)
    requires 1 <= j
    ensures Parent(j) == (j - 1) / 2 && 0 <= Parent(j) < j
  {
  }

  lemma NoLargerChild(s: seq<int>, pos: nat, n: nat)
    requires n <= |s|
    requires 2 * pos + 1 < n ==> s[2 * pos + 1] <= s[pos]
    requires 2 * pos + 2 < n ==> s[2 * pos + 2] <= s[pos]
    ensures forall j :: 1 <= j < n && Parent(j) == pos ==> s[j] <= s[pos]
  {
  }

  lemma PickedLargerChild(s: seq<int>, pos: nat, c: nat, n: nat)
    requires c < n <= |s| && (c == 2 * pos + 1 || c == 2 * pos + 2) && s[pos] < s[c]
    requires s[2 * pos + 1] <= s[c] && (2 * pos + 2 < n ==> s[2 * pos + 2] <= s[c])
    ensures LargerChild(s, pos, c, n)
  {
  }

  /** Following a child uses up one unit of height. */
  lemma HeightDrops(pos: nat, c: nat, n: nat)
    requires c < n && (c == 2 * pos + 1 || c == 2 * pos + 2)
    ensures 1 + Height(c + 1, n) <= Height(pos + 1, n)
  {
    HeightMonotone(2 * pos + 2, c + 1, n);
  }

  /** More nodes do not make a node lower. */
  lemma {:induction false} HeightGrows(j: nat, m: nat, n: nat)
    requires 1 <= j && m <= n
    ensures Height(j, m) <= Height(j, n)
    decreases n - j
  {
    if 2 * j <= m {
      HeightGrows(2 * j, m, n);
    }
  }

  /** Going up from node pos uses up one unit of the height of the tree that ends with that node. */
  lemma DepthDrops(pos: nat)
    requires 1 <= pos
    ensures Height(1, pos + 1) == 1 + Height(1, (pos - 1) / 2 + 1)
  {
    HeightHalves(1, pos + 1);
  }

  lemma SumHeightsUnfold(i: nat, n: nat)
    requires 1 <= i
    ensures SumHeights(i, n) == SumHeights(i - 1, n) + Height(i, n)
  {
  }

  lemma OneMoreTurn(k: nat, c: nat)
    ensures (k + 1) * c == k * c + c
  {
  }

  lemma LeavesAreHeaps(s: seq<int>, n: nat)
    requires n <= |s|
    ensures HeapFrom(s, n / 2, n)
  {
  }

  lemma HeapFromRoot(s: seq<int>, n: nat)
    requires n <= |s|
    ensures HeapFrom(s, 0, n) == IsHeap(s, n)
  {
  }

  lemma HeapShrinks(s: seq<int>, n: nat)
    requires n <= |s| && IsHeap(s, n)
    ensures 1 <= n ==> IsHeap(s, n - 1)
  {
  }

  /** Moving the root to the end leaves heap order below the new root. */
  lemma RootToEnd(s: seq<int>, n: nat)
    requires 2 <= n <= |s| && IsHeap(s, n)
    ensures HeapFrom(Swapped(s, 0, n - 1), 1, n - 1)
  {
  }

  /** The state of a heap sort of the first n elements of s: the elements from k on are in their
      final, sorted place and none before k is larger. */
  ghost predicate Settled(s: seq<int>, t: seq<int>, k: nat, n: nat)
    requires n <= |s|
  {
    && k <= n
    && Rearranges(s, t, 0, n)
    && Cut(t, k, n)
    && Sorted(t[k..n])
  }

  lemma SettledStart(s: seq<int>, n: nat)
    requires n <= |s|
    ensures Settled(s, s, n, n)
  {
  }

  lemma SettledCut(t: seq<int>, i: nat, n: nat)
    requires 2 <= i <= n <= |t| && IsHeap(t, i) && Cut(t, i, n)
    ensures Cut(Swapped(t, 0, i - 1), i - 1, n)
  {
    hide IsHeap;
    var u := Swapped(t, 0, i - 1);
    forall j, k | 0 <= j < i - 1 <= k < n ensures u[j] <= u[k]
    {
      HeapTop(t, i, j);
      HeapTop(t, i, i - 1);
    }
  }

  lemma SettledSorted(u: seq<int>, k: nat, n: nat)
    requires k < n <= |u| && Cut(u, k + 1, n) && Sorted(u[k + 1..n])
    requires forall j :: k < j < n ==> u[k] <= u[j]
    ensures Sorted(u[k..n])
  {
    assert u[k..n] == [u[k]] + u[k + 1..n];
  }

  /** Moving the root of the heap behind it settles one more element. */
  lemma SettledStep(s: seq<int>, t: seq<int>, i: nat, n: nat)
    requires 2 <= i <= n <= |s| && Settled(s, t, i, n) && IsHeap(t, i)
    ensures Settled(s, Swapped(t, 0, i - 1), i - 1, n)
    ensures HeapFrom(Swapped(t, 0, i - 1), 1, i - 1)
  {
    hide IsHeap, HeapFrom, Permutes;
    var u := Swapped(t, 0, i - 1);
    SettledCut(t, i, n);
    RootToEnd(t, i);
    SwapRearranges(t, 0, i - 1, 0, n);
    RearrangesTrans(s, t, u, 0, n);
    assert u[i..n] == t[i..n];
    SettledSorted(u, i - 1, n);
  }

  /** What a pop leaves behind the shrunken heap: the old root, a maximum. */
  lemma SettledMax(s: seq<int>, r: seq<int>, n: nat)
    requires 2 <= n <= |s| && Settled(s, r, n - 1, n) && Rearranges(Swapped(s, 0, n - 1), r, 0, n - 1)
    ensures |r| == |s| && r[n - 1] == s[0]
    ensures forall k :: 0 <= k < n ==> r[k] <= r[n - 1]
    ensures Rearranges(s, r, 0, n)
  {
    var u := Swapped(s, 0, n - 1);
    assert r[n - 1] == r[n - 1..][0] == u[n - 1..][0];
  }

  /** Restoring the heap in front of the settled part does not disturb it. */
  lemma SettledKept(s: seq<int>, u: seq<int>, r: seq<int>, k: nat, n: nat)
    requires k <= n <= |s| && Settled(s, u, k, n) && Rearranges(u, r, 0, k)
    ensures Settled(s, r, k, n)
  {
    hide Permutes, Cut, Sorted, Rearranges;
    assert |u| == |s| by { RearrangesPermutes(s, u, 0, n); }
    RearrangesMore(s, u, r, 0, k, 0, n);
    CutKept(u, r, k, 0, k, n);
    RearrangesOutside(u, r, 0, k, k, n);
  }

  lemma SettledDone(s: seq<int>, t: seq<int>, k: nat, n: nat)
    requires n <= |s| && k <= 1 && Settled(s, t, k, n)
    ensures |t| == |s| && t[0..n] == SortOf(s[0..n]) && Rearranges(s, t, 0, n)
  {
    hide SortOf;
    if k == 1 {
      SettledSorted(t, 0, n);
    }
    SortOfUnique(s[0..n], t[0..n]);
  }
}
