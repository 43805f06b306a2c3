/** Rearranging one stretch of a sequence: what every in-place algorithm here may do. */
module Rearrange {
  import opened Compare
  import opened SortSpec

  /** r holds the elements of s, moved around only inside lo..hi. */
  ghost predicate Rearranges(s: seq<int>, r: seq<int>, lo: nat, hi: nat)
    requires lo <= hi <= |s|
  {
    && |r| == |s|
    && r[..lo] == s[..lo]
    && r[hi..] == s[hi..]
    && Permutes(r[lo..hi], s[lo..hi])
  }

  lemma SwapRearranges(s: seq<int>, i: nat, j: nat, lo: nat, hi: nat)
    requires lo <= i < hi <= |s| && lo <= j < hi
    ensures Rearranges(s, Swapped(s, i, j), lo, hi)
  {
    var t := s[lo..hi];
    assert Swapped(s, i, j)[lo..hi] == Swapped(t, i - lo, j - lo);
  }

  lemma RearrangesTrans(s: seq<int>, r: seq<int>, q: seq<int>, lo: nat, hi: nat)
    requires lo <= hi <= |s| && Rearranges(s, r, lo, hi) && Rearranges(r, q, lo, hi)
    ensures Rearranges(s, q, lo, hi)
  {
  }

  /** A rearrangement of a stretch rearranges every longer stretch. */
  lemma RearrangesWiden(s: seq<int>, r: seq<int>, lo: nat, hi: nat, lo': nat, hi': nat)
    requires lo' <= lo <= hi <= hi' <= |s| && Rearranges(s, r, lo, hi)
    ensures Rearranges(s, r, lo', hi')
  {
    assert s[lo'..hi'] == s[lo'..lo] + s[lo..hi] + s[hi..hi'];
    assert r[lo'..hi'] == r[lo'..lo] + r[lo..hi] + r[hi..hi'];
    assert r[lo'..lo] == r[..lo][lo'..] == s[..lo][lo'..] == s[lo'..lo];
    assert r[hi..hi'] == r[hi..][..hi' - hi] == s[hi..][..hi' - hi] == s[hi..hi'];
    assert r[..lo'] == r[..lo][..lo'] == s[..lo][..lo'] == s[..lo'];
    assert r[hi'..] == r[hi..][hi' - hi..] == s[hi..][hi' - hi..] == s[hi'..];
  }

  lemma RearrangesMore(s: seq<int>, r: seq<int>, q: seq<int>, lo: nat, hi: nat, lo': nat, hi': nat)
    requires lo' <= lo <= hi <= hi' <= |s|
    requires Rearranges(s, r, lo', hi') && Rearranges(r, q, lo, hi)
    ensures Rearranges(s, q, lo', hi')
  {
    RearrangesWiden(r, q, lo, hi, lo', hi');
    RearrangesTrans(s, r, q, lo', hi');
  }

  lemma RearrangesSelf(s: seq<int>, lo: nat, hi: nat)
    requires lo <= hi <= |s|
    ensures Rearranges(s, s, lo, hi)
  {
  }

  /** Stretches next to the rearranged one are untouched. */
  lemma RearrangesOutside(s: seq<int>, r: seq<int>, lo: nat, hi: nat, lo': nat, hi': nat)
    requires lo <= hi <= |s| && Rearranges(s, r, lo, hi)
    requires lo' <= hi' <= |s| && (hi' <= lo || hi <= lo')
    ensures |r| == |s| && r[lo'..hi'] == s[lo'..hi']
  {
    forall k | lo' <= k < hi' ensures r[k] == s[k] {
      if k < lo {
        assert r[..lo][k] == s[..lo][k];
      } else {
        assert r[hi..][k - hi] == s[hi..][k - hi];
      }
    }
  }

  lemma RearrangesSorted(s: seq<int>, r: seq<int>, lo: nat, hi: nat)
    requires lo <= hi <= |s| && Rearranges(s, r, lo, hi)
    ensures SortOf(r[lo..hi]) == SortOf(s[lo..hi])
  {
    SortOfPermuted(s[lo..hi], r[lo..hi]);
  }

  lemma RearrangesPermutes(s: seq<int>, r: seq<int>, lo: nat, hi: nat)
    requires lo <= hi <= |s| && Rearranges(s, r, lo, hi)
    ensures |r| == |s| && Permutes(s[lo..hi], r[lo..hi])
  {
  }

  /** Among the first num elements, everything before position k is at most everything from k on. */
  ghost predicate Cut(s: seq<int>, k: nat, num: nat)
    requires k <= num <= |s|
  {
    forall i, j :: 0 <= i < k <= j < num ==> s[i] <= s[j]
  }

  lemma CutIsBelow(s: seq<int>, k: nat, num: nat)
    requires k <= num <= |s|
    ensures Cut(s, k, num) <==> Below(s[..k], s[k..num])
  {
    if Below(s[..k], s[k..num]) {
      forall i, j | 0 <= i < k <= j < num ensures s[i] <= s[j] {
        assert s[..k][i] <= s[k..num][j - k];
      }
    }
  }

  /** Rearranging a stretch on one side of a cut keeps the cut. */
  lemma CutKept(s: seq<int>, r: seq<int>, k: nat, lo: nat, hi: nat, num: nat)
    requires lo <= hi <= num <= |s| && k <= num && Rearranges(s, r, lo, hi)
    requires hi <= k || k <= lo
    requires Cut(s, k, num)
    ensures |r| == |s| && Cut(r, k, num)
  {
    hide *;
    CutIsBelow(s, k, num);
    if hi <= k {
      RearrangesWiden(s, r, lo, hi, 0, k);
      RearrangesOutside(s, r, lo, hi, k, num);
      RearrangesPermutes(s, r, 0, k);
      assert r[0..k] == r[..k] && s[0..k] == s[..k];
      PermuteKeepsBounds(s[..k], r[..k], [], s[k..num]);
    } else {
      RearrangesWiden(s, r, lo, hi, k, num);
      RearrangesOutside(s, r, lo, hi, 0, k);
      RearrangesPermutes(s, r, k, num);
      assert r[0..k] == r[..k] && s[0..k] == s[..k];
      PermuteKeepsBounds(s[k..num], r[k..num], s[..k], []);
    }
    CutIsBelow(r, k, num);
  }
}
