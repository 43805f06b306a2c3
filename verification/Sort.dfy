/** sort.inl: Lomuto partition, quicksort and quickselect, in place on a stretch of an array.
    Each method also says how many comparisons it adds to the tally. */
module Sort {
  import opened Compare
  import opened Rearrange
  import opened SortSpec

  /** Position p separates lo..hi: nothing before it is larger, everything after it is larger. */
  ghost predicate SplitAt(s: seq<int>, lo: nat, p: nat, hi: nat)
    requires lo <= p < hi <= |s|
  {
    && (forall k :: lo <= k < p ==> s[k] <= s[p])
    && (forall k :: p < k < hi ==> s[p] < s[k])
  }

  /** The partition loop after looking at j elements, i of them small: t is the current state of s. */
  ghost predicate Scanned(s: seq<int>, t: seq<int>, lo: nat, n: nat, i: nat, j: nat)
    requires 1 <= n && lo + n <= |s|
  {
    && i <= j < n
    && Rearranges(s, t, lo, lo + n)
    && t[lo + n - 1] == s[lo + n - 1]
    && (forall k :: lo <= k < lo + i ==> t[k] <= t[lo + n - 1])
    && (forall k :: lo + i <= k < lo + j ==> t[lo + n - 1] < t[k])
    && (Sorted(s[lo..lo + n]) ==> i == j && t == s)
  }

  lemma ScanStart(s: seq<int>, lo: nat, n: nat)
    requires 1 <= n && lo + n <= |s|
    ensures Scanned(s, s, lo, n, 0, 0)
  {
  }

  lemma ScanSmall(s: seq<int>, t: seq<int>, lo: nat, n: nat, i: nat, j: nat)
    requires 1 <= n && lo + n <= |s| && Scanned(s, t, lo, n, i, j) && j + 1 < n
    requires t[lo + j] <= t[lo + n - 1]
    ensures Scanned(s, Swapped(t, lo + i, lo + j), lo, n, i + 1, j + 1)
    ensures Swapped(t, lo + i, lo + j)[lo + n - 1] == t[lo + n - 1]
  {
    hide Permutes;
    SwapRearranges(t, lo + i, lo + j, lo, lo + n);
    RearrangesTrans(s, t, Swapped(t, lo + i, lo + j), lo, lo + n);
  }

  lemma ScanLarge(s: seq<int>, t: seq<int>, lo: nat, n: nat, i: nat, j: nat)
    requires 1 <= n && lo + n <= |s| && Scanned(s, t, lo, n, i, j) && j + 1 < n
    requires t[lo + n - 1] < t[lo + j]
    ensures Scanned(s, t, lo, n, i, j + 1)
  {
    hide Permutes;
    var stretch := s[lo..lo + n];
    assert t == s ==> stretch[j] > stretch[n - 1];
  }

  lemma ScanDone(s: seq<int>, t: seq<int>, lo: nat, n: nat, i: nat)
    requires 1 <= n && lo + n <= |s| && Scanned(s, t, lo, n, i, n - 1)
    ensures i < n
    ensures var r := Swapped(t, lo + i, lo + n - 1);
            && Rearranges(s, r, lo, lo + n) && SplitAt(r, lo, lo + i, lo + n)
            && r[lo + i] == s[lo + n - 1]
            && (Sorted(s[lo..lo + n]) ==> i == n - 1 && r == s)
  {
    hide Permutes;
    SwapRearranges(t, lo + i, lo + n - 1, lo, lo + n);
    RearrangesTrans(s, t, Swapped(t, lo + i, lo + n - 1), lo, lo + n);
  }

  method Partition(a: array<int>, lo: nat, n: nat, ghost tally: Tally) returns (i: nat)
    requires 1 <= n && lo + n <= a.Length
    modifies a, tally
    ensures i < n
    ensures Rearranges(old(a[..]), a[..], lo, lo + n)
    ensures SplitAt(a[..], lo, lo + i, lo + n)
    ensures a[lo + i] == old(a[lo + n - 1])
    ensures Sorted(old(a[..])[lo..lo + n]) ==> i == n - 1 && a[..] == old(a[..])
    ensures tally.compares == old(tally.compares) + n - 1 && tally.swaps == old(tally.swaps) + i + 1
  {
    hide *;
    ghost var s := a[..];
    var pivot := a[lo + n - 1];
    i := 0;
    ScanStart(s, lo, n);
    for j := 0 to n - 1
      invariant i <= j && a[lo + n - 1] == pivot
      invariant tally.compares == old(tally.compares) + j && tally.swaps == old(tally.swaps) + i
      invariant Scanned(s, a[..], lo, n, i, j)
    {
      ghost var t := a[..];
      var small := AtMost(a[lo + j], pivot, tally);
      if small {
        Swap(a, lo + i, lo + j, tally);
        ScanSmall(s, t, lo, n, i, j);
        i := i + 1;
      } else {
        ScanLarge(s, t, lo, n, i, j);
      }
    }
    ScanDone(s, a[..], lo, n, i);
    Swap(a, lo + i, lo + n - 1, tally);
  }

  /** 0 + 1 + ... + (n - 1). */
  function Pairs(n: nat): nat {
    if n == 0 then 0 else Pairs(n - 1) + n - 1
  }

  lemma {:induction false} PairsClosedForm(n: nat)
    ensures Pairs(n) == n * (n - 1) / 2
  {
    if n != 0 {
      PairsClosedForm(n - 1);
      assert (n - 1) * (n - 2) + 2 * (n - 1) == n * (n - 1);
    }
  }

  lemma PairsUnfold(n: nat)
    ensures Pairs(n) == if n <= 1 then 0 else Pairs(n - 1) + n - 1
  {
  }

  lemma SortedShrink(s: seq<int>, lo: nat, n: nat)
    requires 1 <= n && lo + n <= |s| && Sorted(s[lo..lo + n])
    ensures Sorted(s[lo..lo + n - 1])
  {
    assert s[lo..lo + n - 1] == s[lo..lo + n][..n - 1];
  }

  lemma SortedNothing(s: seq<int>, k: nat)
    requires k <= |s|
    ensures Sorted(s[k..k])
  {
  }

  /** Splitting never costs more than peeling off one element. */
  lemma {:induction false} PairsSplit(p: nat, q: nat)
    ensures Pairs(p) + Pairs(q) + p + q <= Pairs(p + q + 1)
  {
    if p != 0 {
      PairsSplit(p - 1, q);
    }
  }

  lemma {:induction false} PairsMonotone(m: nat, n: nat)
    requires m <= n
    ensures Pairs(m) <= Pairs(n)
  {
    if m < n {
      PairsMonotone(m, n - 1);
    }
  }

  lemma SplitBelow(s: seq<int>, lo: nat, p: nat, hi: nat)
    requires lo <= p < hi <= |s| && SplitAt(s, lo, p, hi)
    ensures Below([s[p]], s[p + 1..hi])
    ensures Below(s[lo..p], s[p..hi])
  {
  }

  /** Sorting both sides of a split position sorts the whole stretch. */
  lemma SplitThenSorted(s: seq<int>, r: seq<int>, lo: nat, p: nat, hi: nat)
    requires lo <= p < hi <= |s| && SplitAt(s, lo, p, hi)
    requires |r| == |s| && r[p] == s[p]
    requires r[lo..p] == SortOf(s[lo..p]) && r[p + 1..hi] == SortOf(s[p + 1..hi])
    ensures r[lo..hi] == SortOf(s[lo..hi])
  {
    hide *;
    SplitBelow(s, lo, p, hi);
    SortOfSplit([s[p]], s[p + 1..hi]);
    SortOfShort([s[p]]);
    assert s[p..hi] == [s[p]] + s[p + 1..hi];
    SortOfSplit(s[lo..p], s[p..hi]);
    assert s[lo..hi] == s[lo..p] + s[p..hi];
    assert r[lo..hi] == r[lo..p] + ([r[p]] + r[p + 1..hi]);
  }

  /** One quicksort call from its parts: s is split into t, whose left side is sorted into u and
      whose right side is then sorted into r. */
  lemma QuickSortStep(s: seq<int>, t: seq<int>, u: seq<int>, r: seq<int>, lo: nat, p: nat, hi: nat)
    requires lo <= p < hi <= |t| && SplitAt(t, lo, p, hi)
    requires |s| == |t| && Rearranges(s, t, lo, hi)
    requires Rearranges(t, u, lo, p) && u[lo..p] == SortOf(t[lo..p])
    requires Rearranges(u, r, p + 1, hi) && r[p + 1..hi] == SortOf(u[p + 1..hi])
    ensures r[lo..hi] == SortOf(s[lo..hi])
    ensures Rearranges(s, r, lo, hi)
  {
    hide *;
    RearrangesMore(s, t, u, lo, p, lo, hi);
    RearrangesMore(s, u, r, p + 1, hi, lo, hi);
    RearrangesOutside(t, u, lo, p, p, hi);
    RearrangesOutside(u, r, p + 1, hi, lo, p + 1);
    assert u[p..hi] == t[p..hi] && r[lo..p + 1] == u[lo..p + 1];
    assert u[p + 1..hi] == u[p..hi][1..] && t[p + 1..hi] == t[p..hi][1..];
    assert r[lo..p] == r[lo..p + 1][..p - lo] && u[lo..p] == u[lo..p + 1][..p - lo];
    assert t[p] == t[p..hi][0] == u[p..hi][0] == u[lo..p + 1][p - lo] == r[lo..p + 1][p - lo] == r[p];
    SplitThenSorted(t, r, lo, p, hi);
    RearrangesSorted(s, t, lo, hi);
  }

  method QuickSort(a: array<int>, lo: nat, n: nat, ghost tally: Tally)
    requires lo + n <= a.Length
    modifies a, tally
    ensures Rearranges(old(a[..]), a[..], lo, lo + n)
    ensures a[..][lo..lo + n] == SortOf(old(a[..])[lo..lo + n])
    ensures old(tally.compares) <= tally.compares <= old(tally.compares) + Pairs(n)
    ensures Sorted(old(a[..])[lo..lo + n]) ==> tally.compares == old(tally.compares) + Pairs(n)
    decreases n
  {
    hide *;
    ghost var s := a[..];
    if n <= 1 {
      SortOfShort(s[lo..lo + n]);
      RearrangesSelf(s, lo, lo + n);
      PairsUnfold(n);
      return;
    }
    var p := Partition(a, lo, n, tally);
    ghost var t := a[..];
    QuickSort(a, lo, p, tally);
    ghost var u := a[..];
    QuickSort(a, lo + p + 1, n - p - 1, tally);
    QuickSortStep(s, t, u, a[..], lo, lo + p, lo + n);
    PairsSplit(p, n - p - 1);
    if Sorted(s[lo..lo + n]) {
      SortedShrink(s, lo, n);
      SortedNothing(u, lo + n);
      PairsUnfold(n);
      PairsUnfold(0);
    }
  }

  method Sort(a: array<int>, num: nat, ghost tally: Tally)
    requires num <= a.Length
    modifies a, tally
    ensures a[..num] == SortOf(old(a[..num]))
    ensures Rearranges(old(a[..]), a[..], 0, num)
    ensures old(tally.compares) <= tally.compares <= old(tally.compares) + num * (num - 1) / 2
    ensures Sorted(old(a[..num])) ==> tally.compares == old(tally.compares) + num * (num - 1) / 2
  {
    hide *;
    ghost var s := a[..];
    assert s[..num] == s[0..num] == old(a[..num]);
    QuickSort(a, 0, num, tally);
    PairsClosedForm(num);
    assert a[..num] == a[..][0..num];
  }
}
