/** sort.inl: quickselect. */
module NthElement {
  import opened Compare
  import opened Rearrange
  import opened Sort
  import opened SortSpec

  /** The quickselect loop: t rearranges s, and the stretch left..right holds nth and is cut off
      from the rest of the first num elements. */
  ghost predicate Narrowed(s: seq<int>, t: seq<int>, num: nat, nth: nat, left: nat, right: nat)
    requires num <= |s|
  {
    && left <= nth <= right < num
    && Rearranges(s, t, 0, num)
    && Cut(t, left, num)
    && Cut(t, right + 1, num)
  }

  lemma NarrowedStart(s: seq<int>, num: nat, nth: nat)
    requires nth < num <= |s|
    ensures Narrowed(s, s, num, nth, 0, num - 1)
  {
  }

  lemma SplitCuts(u: seq<int>, num: nat, left: nat, p: nat, right: nat)
    requires left <= p <= right < num <= |u|
    requires Cut(u, left, num) && Cut(u, right + 1, num) && SplitAt(u, left, p, right + 1)
    ensures Cut(u, p, num) && Cut(u, p + 1, num)
  {
    forall i, j | 0 <= i <= p <= j < num && (i < p || p < j) ensures u[i] <= u[j] {
      assert i < left || u[i] <= u[p];
      assert j > right || u[p] <= u[j];
    }
  }

  /** One partition of the stretch: it either finds nth or narrows the stretch to the side of nth. */
  lemma NarrowedStep(s: seq<int>, t: seq<int>, u: seq<int>, num: nat, nth: nat, left: nat, p: nat, right: nat)
    requires num <= |s| && Narrowed(s, t, num, nth, left, right)
    requires left <= p <= right && right + 1 <= |t| && Rearranges(t, u, left, right + 1)
    requires SplitAt(u, left, p, right + 1)
    ensures Rearranges(s, u, 0, num) && |u| == |s|
    ensures Cut(u, p, num) && Cut(u, p + 1, num)
    ensures p < nth ==> Narrowed(s, u, num, nth, p + 1, right)
    ensures p > nth ==> Narrowed(s, u, num, nth, left, p - 1)
  {
    hide Permutes, SplitAt, Cut;
    RearrangesMore(s, t, u, left, right + 1, 0, num);
    CutKept(t, u, left, left, right + 1, num);
    CutKept(t, u, right + 1, left, right + 1, num);
    SplitCuts(u, num, left, p, right);
  }

  lemma NarrowedDone(s: seq<int>, u: seq<int>, num: nat, nth: nat)
    requires nth < num <= |s| && Rearranges(s, u, 0, num)
    requires Cut(u, nth, num) && Cut(u, nth + 1, num)
    ensures |SortOf(s[..num])| == num && |u| == |s| && u[nth] == SortOf(s[..num])[nth]
    ensures forall k :: 0 <= k < nth ==> u[k] <= u[nth]
    ensures forall k :: nth <= k < num ==> u[nth] <= u[k]
  {
    hide Permutes, Below, SortOf;
    CutIsBelow(u, nth, num);
    CutIsBelow(u, nth + 1, num);
    assert s[0..num] == s[..num] && u[0..num] == u[..num];
    assert u[..num][..nth] == u[..nth] && u[..num][nth..] == u[nth..num];
    assert u[..num][..nth + 1] == u[..nth + 1] && u[..num][nth + 1..] == u[nth + 1..num];
    OrderStatistic(s[..num], u[..num], nth);
  }

  lemma NarrowedBounds(s: seq<int>, t: seq<int>, num: nat, nth: nat, left: nat, right: nat)
    requires num <= |s| && Narrowed(s, t, num, nth, left, right)
    ensures left <= nth <= right < num
  {
  }

  method NthElement(a: array<int>, num: nat, nth: nat, ghost tally: Tally)
    requires num <= a.Length
    modifies a, tally
    ensures nth >= num ==> a[..] == old(a[..]) && tally.compares == old(tally.compares)
    ensures Rearranges(old(a[..]), a[..], 0, num)
    ensures nth < num ==>
              && |SortOf(old(a[..num]))| == num
              && a[nth] == SortOf(old(a[..num]))[nth]
              && (forall k :: 0 <= k < nth ==> a[k] <= a[nth])
              && (forall k :: nth <= k < num ==> a[nth] <= a[k])
    ensures old(tally.compares) <= tally.compares <= old(tally.compares) + num * (num - 1) / 2
  {
    hide *;
    ghost var s := a[..];
    PairsClosedForm(num);
    RearrangesSelf(s, 0, num);
    if nth >= num {
      return;
    }
    var left := 0;
    var right := num - 1;
    NarrowedStart(s, num, nth);
    while true
      invariant 0 <= left <= right < num
      invariant Narrowed(s, a[..], num, nth, left, right)
      invariant old(tally.compares) <= tally.compares
      invariant tally.compares + Pairs(right - left + 1) <= old(tally.compares) + Pairs(num)
      decreases right - left
    {
      ghost var t := a[..];
      var p := Partition(a, left, right - left + 1, tally);
      PairsUnfold(right - left + 1);
      PairsMonotone(p, right - left);
      PairsMonotone(right - left - p, right - left);
      p := p + left;
      NarrowedStep(s, t, a[..], num, nth, left, p, right);
      if p == nth {
        NarrowedDone(s, a[..], num, nth);
        assert s[..num] == old(a[..num]);
        return;
      }
      if p < nth {
        NarrowedBounds(s, a[..], num, nth, p + 1, right);
        left := p + 1;
      } else {
        NarrowedBounds(s, a[..], num, nth, left, p - 1);
        right := p - 1;
      }
    }
  }
}
