/** sort.inl: sifting with an inclusive bound, and the three loops of partial_sort. */
module PartialSort {
  import opened Compare
  import opened HeapOrder
  import opened Rearrange
  import opened SortSpec
  import Sort

  /** Unlike Heap.SiftDown, the last node of the heap is end itself. */
  method SiftDown(a: array<int>, start: nat, end: nat, ghost tally: Tally)
    requires end < a.Length && HeapFrom(a[..], start + 1, end + 1)
    modifies a, tally
    ensures HeapFrom(a[..], start, end + 1)
    ensures Rearranges(old(a[..]), a[..], 0, end + 1)
    ensures old(tally.swaps) <= tally.swaps <= old(tally.swaps) + Height(start + 1, end + 1)
  {
    hide *;
    ghost var s, n := a[..], end + 1;
    var root := start;
    HoleDownStart(s, start, n);
    RearrangesSelf(s, 0, n);
    while root * 2 + 1 <= end
      invariant start <= root
      invariant HoleDown(a[..], start, root, n) && Rearranges(s, a[..], 0, n)
      invariant old(tally.swaps) <= tally.swaps
      invariant tally.swaps + Height(root + 1, n) <= old(tally.swaps) + Height(start + 1, n)
      decreases n - root
    {
      ghost var t := a[..];
      var child := root * 2 + 1;
      var swapIdx := root;
      if a[swapIdx] < a[child] {
        swapIdx := child;
      }
      if child + 1 <= end && a[swapIdx] < a[child + 1] {
        swapIdx := child + 1;
      }
      if swapIdx == root {
        NoLargerChild(t, root, n);
        HoleDownDone(t, start, root, n);
        return;
      }
      PickedLargerChild(t, root, swapIdx, n);
      Swap(a, root, swapIdx, tally);
      HoleDownStep(t, start, root, swapIdx, n);
      SwapRearranges(t, root, swapIdx, 0, n);
      RearrangesTrans(s, t, a[..], 0, n);
      HeightDrops(root, swapIdx, n);
      root := swapIdx;
    }
    NoLargerChild(a[..], root, n);
    HoleDownDone(a[..], start, root, n);
  }

  /** The second loop after looking at positions below i: the m smallest elements seen form a heap. */
  ghost predicate Selected(s: seq<int>, t: seq<int>, m: nat, i: nat, num: nat)
    requires num <= |s|
  {
    && 1 <= m <= i <= num
    && Rearranges(s, t, 0, num)
    && IsHeap(t, m)
    && forall k :: m <= k < i ==> t[0] <= t[k]
  }

  lemma SelectedStart(s: seq<int>, t: seq<int>, m: nat, num: nat)
    requires 1 <= m <= num <= |s| && Rearranges(s, t, 0, m) && IsHeap(t, m)
    ensures Selected(s, t, m, m, num)
  {
    hide IsHeap, Permutes;
    RearrangesWiden(s, t, 0, m, 0, num);
  }

  lemma SelectedSkip(s: seq<int>, t: seq<int>, m: nat, i: nat, num: nat)
    requires i < num <= |s| && Selected(s, t, m, i, num) && t[0] <= t[i]
    ensures Selected(s, t, m, i + 1, num)
  {
    hide IsHeap, Permutes;
  }

  lemma SelectedSwap(s: seq<int>, t: seq<int>, m: nat, i: nat, num: nat)
    requires i < num <= |s| && Selected(s, t, m, i, num)
    ensures HeapFrom(Swapped(t, 0, i), 1, m)
    ensures Rearranges(s, Swapped(t, 0, i), 0, num)
  {
    hide Permutes;
    SwapRearranges(t, 0, i, 0, num);
    RearrangesTrans(s, t, Swapped(t, 0, i), 0, num);
  }

  /** Replacing the root by a smaller element lowers the maximum of the heap. */
  lemma SelectedRoot(t: seq<int>, r: seq<int>, m: nat, i: nat)
    requires 1 <= m <= i < |t| && IsHeap(t, m) && t[i] < t[0]
    requires Rearranges(Swapped(t, 0, i), r, 0, m)
    ensures r[0] <= t[0]
  {
    hide IsHeap;
    var u := Swapped(t, 0, i);
    PermuteMember(r[0..m], u[0..m], 0);
    var j :| 0 <= j < m && u[0..m][j] == r[0];
    HeapTop(t, m, j);
  }

  lemma SelectedSifted(s: seq<int>, t: seq<int>, r: seq<int>, m: nat, i: nat, num: nat)
    requires i < num <= |s| && Selected(s, t, m, i, num) && t[i] < t[0]
    requires Rearranges(Swapped(t, 0, i), r, 0, m) && IsHeap(r, m)
    ensures Selected(s, r, m, i + 1, num)
  {
    hide IsHeap, Permutes;
    var u := Swapped(t, 0, i);
    SelectedSwap(s, t, m, i, num);
    SelectedRoot(t, r, m, i);
    RearrangesMore(s, u, r, 0, m, 0, num);
    forall k | m <= k <= i ensures r[0] <= r[k] {
      assert r[k] == r[m..][k - m] == u[m..][k - m] == u[k];
    }
  }

  lemma SelectedCut(s: seq<int>, t: seq<int>, m: nat, num: nat)
    requires num <= |s| && Selected(s, t, m, num, num)
    ensures |t| == |s| && Cut(t, m, num) && Rearranges(s, t, 0, num)
  {
    hide IsHeap;
    forall j, k | 0 <= j < m <= k < num ensures t[j] <= t[k] {
      HeapTop(t, m, j);
    }
  }

  lemma SelectedSorted(s: seq<int>, t: seq<int>, r: seq<int>, m: nat, num: nat)
    requires m <= num <= |s| && Rearranges(s, t, 0, num) && Cut(t, m, num)
    requires Rearranges(t, r, 0, m) && r[0..m] == SortOf(t[0..m])
    ensures Rearranges(s, r, 0, num) && Cut(r, m, num)
    ensures |SortOf(s[0..num])| == num && r[0..m] == SortOf(s[0..num])[..m]
  {
    hide *;
    RearrangesPermutes(s, t, 0, num);
    RearrangesMore(s, t, r, 0, m, 0, num);
    CutKept(t, r, m, 0, m, num);
    RearrangesSorted(s, t, 0, num);
    CutIsBelow(t, m, num);
    assert t[0..m] == t[..m] && t[0..num] == t[..m] + t[m..num];
    SortOfSplit(t[..m], t[m..num]);
    SortOfSorts(t[0..num]);
  }

  lemma SelectedHeap(s: seq<int>, t: seq<int>, m: nat, num: nat)
    requires num <= |s| && Selected(s, t, m, num, num)
    ensures m <= |t| && IsHeap(t, m)
  {
  }

  lemma HalfIsHeap(s: seq<int>, m: nat)
    requires 1 <= m <= |s|
    ensures HeapFrom(s, (m - 1) / 2 + 1, m)
  {
  }

  /** m == 0 with elements present is outside the contract: (m - 1) / 2 would wrap. */
  method PartialSort(a: array<int>, num: nat, m: nat, ghost tally: Tally)
    requires num <= a.Length
    requires 1 <= m || num <= m
    modifies a, tally
    ensures Rearranges(old(a[..]), a[..], 0, num)
    ensures |SortOf(old(a[..num]))| == num
    ensures m >= num ==> a[..num] == SortOf(old(a[..num]))
    ensures m < num ==> old(tally.swaps) <= tally.swaps <= old(tally.swaps) + m - 1 + (num - 1) * (1 + Height(1, m))
    ensures m < num ==> a[..m] == SortOf(old(a[..num]))[..m] && Cut(a[..], m, num)
  {
    hide *;
    ghost var s := a[..];
    assert s[..num] == s[0..num] == old(a[..num]);
    SortOfSorts(s[..num]);
    if m >= num {
      Sort.Sort(a, num, tally);
      return;
    }

    var i := (m - 1) / 2;
    HalfIsHeap(s, m);
    LeavesHaveNoHeight(i + 1, m);
    LeavesHaveNoHeight(m, m);
    SumHeightsLinear(m);
    RearrangesSelf(s, 0, m);
    while i != -1  // the all-ones size_t that decrementing 0 gives
      invariant -1 <= i < m
      invariant HeapFrom(a[..], i + 1, m) && Rearranges(s, a[..], 0, m)
      invariant old(tally.swaps) <= tally.swaps
      invariant tally.swaps + SumHeights(i + 1, m) <= old(tally.swaps) + m - 1
      decreases i
    {
      ghost var t := a[..];
      SiftDown(a, i, m - 1, tally);
      SumHeightsUnfold(i + 1, m);
      RearrangesTrans(s, t, a[..], 0, m);
      i := i - 1;
    }
    HeapFromRoot(a[..], m);
    SelectedStart(s, a[..], m, num);
    ghost var turn := 1 + Height(1, m);

    i := m;
    while i < num
      invariant m <= i <= num
      invariant Selected(s, a[..], m, i, num)
      invariant old(tally.swaps) <= tally.swaps <= old(tally.swaps) + m - 1 + (i - m) * turn
    {
      OneMoreTurn(i - m, turn);
      ghost var t := a[..];
      if a[i] < a[0] {
        Swap(a, 0, i, tally);
        SelectedSwap(s, t, m, i, num);
        SiftDown(a, 0, m - 1, tally);
        HeapFromRoot(a[..], m);
        SelectedSifted(s, t, a[..], m, i, num);
      } else {
        SelectedSkip(s, t, m, i, num);
      }
      i := i + 1;
    }
    SelectedCut(s, a[..], m, num);
    ghost var c := a[..];

    i := m - 1;
    SettledStart(c, m);
    SelectedHeap(s, c, m, num);
    while i > 0
      invariant 0 <= i < m
      invariant Settled(c, a[..], i + 1, m) && IsHeap(a[..], i + 1)
      invariant old(tally.swaps) <= tally.swaps <= old(tally.swaps) + m - 1 + (num - 1 - i) * turn
    {
      ghost var t := a[..];
      Swap(a, 0, i, tally);
      ghost var u := a[..];
      SettledStep(c, t, i + 1, m);
      SiftDown(a, 0, i - 1, tally);
      HeightGrows(1, i, m);
      OneMoreTurn(num - 1 - i, turn);
      HeapFromRoot(a[..], i);
      SettledKept(c, u, a[..], i, m);
      i := i - 1;
    }
    SettledDone(c, a[..], i + 1, m);
    SelectedSorted(s, c, a[..], m, num);
    assert a[..m] == a[..][0..m];
  }
}
