/** heap.inl: sifting with an exclusive bound, and the heap operations built on it. Each method says
    how many exchanges it adds to the tally at most. */
module Heap {
  import opened Compare
  import opened HeapOrder
  import opened Rearrange
  import opened SortSpec

  method SiftUp(a: array<int>, start: nat, ghost tally: Tally)
    requires start < a.Length && IsHeap(a[..], start)
    modifies a, tally
    ensures IsHeap(a[..], start + 1)
    ensures Rearranges(old(a[..]), a[..], 0, start + 1)
    ensures old(tally.swaps) <= tally.swaps <= old(tally.swaps) + Height(1, start + 1)
  {
    hide *;
    ghost var s, n := a[..], start + 1;
    var pos := start;
    HoleUpStart(s, n);
    RearrangesSelf(s, 0, n);
    while pos > 0
      invariant 0 <= pos < n <= a.Length
      invariant HoleUp(a[..], pos, n) && Rearranges(s, a[..], 0, n)
      invariant old(tally.swaps) <= tally.swaps
      invariant tally.swaps + Height(1, pos + 1) <= old(tally.swaps) + Height(1, n)
    {
      ghost var t := a[..];
      var parent := (pos - 1) / 2;
      ParentOf(pos);
      DepthDrops(pos);
      if a[parent] >= a[pos] {
        break;
      }
      Swap(a, parent, pos, tally);
      HoleUpStep(t, pos, n);
      SwapRearranges(t, parent, pos, 0, n);
      RearrangesTrans(s, t, a[..], 0, n);
      pos := parent;
    }
    HoleUpDone(a[..], pos, n);
  }

  method SiftDown(a: array<int>, start: nat, n: nat, ghost tally: Tally)
    requires n <= a.Length && HeapFrom(a[..], start + 1, n)
    modifies a, tally
    ensures HeapFrom(a[..], start, n)
    ensures Rearranges(old(a[..]), a[..], 0, n)
    ensures old(tally.swaps) <= tally.swaps <= old(tally.swaps) + Height(start + 1, n)
  {
    hide *;
    ghost var s := a[..];
    var pos := start;
    HoleDownStart(s, start, n);
    RearrangesSelf(s, 0, n);
    while true
      invariant start <= pos
      invariant HoleDown(a[..], start, pos, n) && Rearranges(s, a[..], 0, n)
      invariant old(tally.swaps) <= tally.swaps
      invariant tally.swaps + Height(pos + 1, n) <= old(tally.swaps) + Height(start + 1, n)
      decreases n - pos
    {
      ghost var t := a[..];
      var max := pos;
      var left := 2 * pos + 1;
      var right := 2 * pos + 2;
      if left < n && a[left] > a[max] {
        max := left;
      }
      if right < n && a[right] > a[max] {
        max := right;
      }
      if max == pos {
        NoLargerChild(t, pos, n);
        HoleDownDone(t, start, pos, n);
        break;
      }
      PickedLargerChild(t, pos, max, n);
      Swap(a, pos, max, tally);
      HoleDownStep(t, start, pos, max, n);
      SwapRearranges(t, pos, max, 0, n);
      RearrangesTrans(s, t, a[..], 0, n);
      HeightDrops(pos, max, n);
      pos := max;
    }
  }

  method MakeHeap(a: array<int>, n: nat, ghost tally: Tally)
    requires n <= a.Length
    modifies a, tally
    ensures IsHeap(a[..], n)
    ensures Rearranges(old(a[..]), a[..], 0, n)
    ensures 1 <= n ==> old(tally.swaps) <= tally.swaps <= old(tally.swaps) + n - 1
    ensures n == 0 ==> tally.swaps == old(tally.swaps)
  {
    hide *;
    ghost var s := a[..];
    var i := n / 2;
    LeavesAreHeaps(s, n);
    RearrangesSelf(s, 0, n);
    while i > 0
      invariant 0 <= i <= n / 2
      invariant HeapFrom(a[..], i, n) && Rearranges(s, a[..], 0, n)
      invariant old(tally.swaps) <= tally.swaps
      invariant tally.swaps + SumHeights(i, n) <= old(tally.swaps) + SumHeights(n / 2, n)
      invariant n == 0 ==> tally.swaps == old(tally.swaps)
    {
      ghost var t := a[..];
      SiftDown(a, i - 1, n, tally);
      RearrangesTrans(s, t, a[..], 0, n);
      SumHeightsUnfold(i, n);
      i := i - 1;
    }
    HeapFromRoot(a[..], n);
    if 1 <= n {
      LeavesHaveNoHeight(n, n);
      SumHeightsLinear(n);
    }
  }

  method PushHeap(a: array<int>, n: nat, ghost tally: Tally)
    requires 1 <= n <= a.Length && IsHeap(a[..], n - 1)
    modifies a, tally
    ensures IsHeap(a[..], n)
    ensures Rearranges(old(a[..]), a[..], 0, n)
    ensures old(tally.swaps) <= tally.swaps <= old(tally.swaps) + Height(1, n)
  {
    hide *;
    SiftUp(a, n - 1, tally);
  }

  method PopHeap(a: array<int>, n: nat, ghost tally: Tally)
    requires n <= a.Length && IsHeap(a[..], n)
    modifies a, tally
    ensures 1 <= n ==> IsHeap(a[..], n - 1)
    ensures 1 <= n ==> a[n - 1] == old(a[0]) && forall k :: 0 <= k < n ==> a[k] <= a[n - 1]
    ensures Rearranges(old(a[..]), a[..], 0, n)
    ensures old(tally.swaps) <= tally.swaps <= old(tally.swaps) + 1 + Height(1, n)
  {
    hide *;
    ghost var s := a[..];
    RearrangesSelf(s, 0, n);
    if n <= 1 {
      HeapShrinks(s, n);
      return;
    }
    Swap(a, 0, n - 1, tally);
    ghost var t := a[..];
    SettledStart(s, n);
    SettledStep(s, s, n, n);
    SiftDown(a, 0, n - 1, tally);
    HeightGrows(1, n - 1, n);
    SettledKept(s, t, a[..], n - 1, n);
    SettledMax(s, a[..], n);
    HeapFromRoot(a[..], n - 1);
  }

  method SortHeap(a: array<int>, n: nat, ghost tally: Tally)
    requires n <= a.Length && IsHeap(a[..], n)
    modifies a, tally
    ensures a[..n] == SortOf(old(a[..n]))
    ensures Rearranges(old(a[..]), a[..], 0, n)
    ensures 1 <= n ==> old(tally.swaps) <= tally.swaps <= old(tally.swaps) + (n - 1) * (1 + Height(1, n))
  {
    hide *;
    ghost var s := a[..];
    var i := n;
    SettledStart(s, n);
    while i > 1
      invariant 0 <= i <= n && (1 <= n ==> 1 <= i)
      invariant Settled(s, a[..], i, n) && IsHeap(a[..], i)
      invariant old(tally.swaps) <= tally.swaps <= old(tally.swaps) + (n - i) * (1 + Height(1, n))
    {
      ghost var t := a[..];
      Swap(a, 0, i - 1, tally);
      ghost var u := a[..];
      SettledStep(s, t, i, n);
      SiftDown(a, 0, i - 1, tally);
      HeightGrows(1, i - 1, n);
      OneMoreTurn(n - i, 1 + Height(1, n));
      SettledKept(s, u, a[..], i - 1, n);
      HeapFromRoot(a[..], i - 1);
      i := i - 1;
    }
    SettledDone(s, a[..], i, n);
    assert s[0..n] == old(a[..n]) && a[..][0..n] == a[..n];
  }

  lemma OneMoreEach(n: nat, h: nat)
    ensures 1 <= n ==> (n - 1) + (n - 1) * (1 + h) == (n - 1) * (2 + h)
  {
  }

  /** Heap construction followed by heap sort gives exactly what Sort gives. */
  method MakeThenSortHeap(a: array<int>, n: nat, ghost tally: Tally)
    requires n <= a.Length
    modifies a, tally
    ensures a[..n] == SortOf(old(a[..n]))
    ensures Rearranges(old(a[..]), a[..], 0, n)
    ensures 1 <= n ==> old(tally.swaps) <= tally.swaps <= old(tally.swaps) + (n - 1) * (2 + Height(1, n))
  {
    hide *;
    ghost var s := a[..];
    MakeHeap(a, n, tally);
    RearrangesSorted(s, a[..], 0, n);
    assert s[0..n] == old(a[..n]) && a[..][0..n] == a[..n];
    ghost var t := a[..];
    SortHeap(a, n, tally);
    OneMoreEach(n, Height(1, n));
    RearrangesTrans(s, t, a[..], 0, n);
  }
}
