/** What sorting means: an ordered permutation of the input, and the proof that it is unique. */
module SortSpec {

  ghost predicate Sorted(s: seq<int>) {
    forall i, j :: 0 <= i < j < |s| ==> s[i] <= s[j]
  }

  /** The same elements, each as many times. */
  ghost predicate Permutes(a: seq<int>, b: seq<int>) {
    multiset(a) == multiset(b)
  }

  /** Every element of a is at most every element of b. */
  ghost predicate Below(a: seq<int>, b: seq<int>) {
    forall i, j :: 0 <= i < |a| && 0 <= j < |b| ==> a[i] <= b[j]
  }

  function Insert(x: int, s: seq<int>): seq<int> {
    if s == [] || x <= s[0] then [x] + s else [s[0]] + Insert(x, s[1..])
  }

  /** The reference definition of sorting: insertion, one element at a time. */
  function SortOf(s: seq<int>): seq<int> {
    if s == [] then [] else Insert(s[0], SortOf(s[1..]))
  }

  lemma MemberByCount(s: seq<int>, i: nat)
    requires i < |s|
    ensures s[i] in multiset(s)
  {
  }

  /** Membership survives permutation. */
  lemma PermuteMember(a: seq<int>, b: seq<int>, i: nat)
    requires Permutes(a, b) && i < |a|
    ensures a[i] in b
  {
    MemberByCount(a, i);
  }

  lemma SortedCons(x: int, s: seq<int>)
    requires Sorted(s) && Below([x], s)
    ensures Sorted([x] + s)
  {
    assert forall j :: 0 <= j < |s| ==> [x][0] <= s[j];
  }

  lemma {:induction false} InsertPermutes(x: int, s: seq<int>)
    ensures Permutes(Insert(x, s), [x] + s)
  {
    if s != [] && s[0] < x {
      InsertPermutes(x, s[1..]);
      assert s == [s[0]] + s[1..];
    }
  }

  lemma {:induction false} InsertSorts(x: int, s: seq<int>)
    requires Sorted(s)
    ensures Sorted(Insert(x, s))
  {
    if s == [] {
    } else if x <= s[0] {
      SortedCons(x, s);
    } else {
      var r := Insert(x, s[1..]);
      InsertSorts(x, s[1..]);
      InsertPermutes(x, s[1..]);
      forall k | 0 <= k < |r| ensures s[0] <= r[k] {
        PermuteMember(r, [x] + s[1..], k);
      }
      SortedCons(s[0], r);
    }
  }

  lemma {:induction false} SortOfSorts(s: seq<int>)
    ensures Sorted(SortOf(s)) && Permutes(SortOf(s), s) && |SortOf(s)| == |s|
  {
    if s == [] {
    } else {
      SortOfSorts(s[1..]);
      InsertSorts(s[0], SortOf(s[1..]));
      InsertPermutes(s[0], SortOf(s[1..]));
      assert s == [s[0]] + s[1..];
      assert |multiset(SortOf(s))| == |multiset(s)|;
    }
  }

  lemma SortedHead(a: seq<int>, b: seq<int>)
    requires Sorted(a) && Permutes(a, b) && a != [] && b != []
    ensures a[0] <= b[0]
  {
    PermuteMember(b, a, 0);
  }

  lemma PermuteTail(a: seq<int>, b: seq<int>)
    requires Permutes(a, b) && a != [] && b != [] && a[0] == b[0]
    ensures Permutes(a[1..], b[1..])
  {
    assert a == [a[0]] + a[1..] && b == [b[0]] + b[1..];
    assert multiset(a[1..]) == multiset(a) - multiset{a[0]};
    assert multiset(b[1..]) == multiset(b) - multiset{b[0]};
  }

  /** At most one ordered sequence holds given elements. */
  lemma {:induction false} SortedUnique(a: seq<int>, b: seq<int>)
    requires Sorted(a) && Sorted(b) && Permutes(a, b)
    ensures a == b
  {
    assert |a| == |multiset(a)| == |multiset(b)| == |b|;
    if a != [] {
      SortedHead(a, b);
      SortedHead(b, a);
      PermuteTail(a, b);
      SortedUnique(a[1..], b[1..]);
      assert a == [a[0]] + a[1..] && b == [b[0]] + b[1..];
    }
  }

  /** A sequence is the result of sorting s exactly when it is ordered and permutes s. */
  lemma SortOfUnique(s: seq<int>, r: seq<int>)
    ensures r == SortOf(s) <==> Sorted(r) && Permutes(r, s)
  {
    SortOfSorts(s);
    if Sorted(r) && Permutes(r, s) {
      SortedUnique(r, SortOf(s));
    }
  }

  lemma PermuteKeepsBounds(a: seq<int>, b: seq<int>, lo: seq<int>, hi: seq<int>)
    requires Permutes(a, b)
    ensures Below(lo, a) <==> Below(lo, b)
    ensures Below(a, hi) <==> Below(b, hi)
    ensures |a| == |b|
  {
    assert |a| == |multiset(a)| == |multiset(b)| == |b|;
    forall i | 0 <= i < |a| ensures exists j :: 0 <= j < |b| && b[j] == a[i] {
      assert a[i] in multiset(b);
    }
    forall i | 0 <= i < |b| ensures exists j :: 0 <= j < |a| && a[j] == b[i] {
      assert b[i] in multiset(a);
    }
  }

  lemma SortOfShort(s: seq<int>)
    requires |s| <= 1
    ensures SortOf(s) == s
  {
    assert s == [] || (s == [s[0]] && s[1..] == []);
  }

  /** Sorting can be done separately on both sides of a cut that already separates small from large. */
  lemma SortOfSplit(a: seq<int>, b: seq<int>)
    requires Below(a, b)
    ensures SortOf(a + b) == SortOf(a) + SortOf(b)
    ensures |SortOf(a)| == |a|
  {
    SortOfSorts(a);
    SortOfSorts(b);
    PermuteKeepsBounds(SortOf(a), a, [], b);
    PermuteKeepsBounds(SortOf(b), b, SortOf(a), []);
    SortOfUnique(a + b, SortOf(a) + SortOf(b));
  }

  lemma SortOfPermuted(a: seq<int>, b: seq<int>)
    requires Permutes(a, b)
    ensures SortOf(a) == SortOf(b)
  {
    SortOfSorts(a);
    SortOfUnique(b, SortOf(a));
  }

  /** The order statistic: whatever rearrangement of s separates around position k, the value
      there is the one sorting s puts there. */
  lemma OrderStatistic(s: seq<int>, r: seq<int>, k: nat)
    requires Permutes(r, s) && k < |r|
    requires Below(r[..k], r[k..]) && Below(r[..k + 1], r[k + 1..])
    ensures |SortOf(s)| == |s| == |r| && r[k] == SortOf(s)[k]
  {
    var x := [r[k]];
    assert r[..k + 1] == r[..k] + x && r == r[..k + 1] + r[k + 1..];
    assert Below(r[..k], x);
    SortOfSorts(s);
    SortOfPermuted(r, s);
    SortOfSplit(r[..k + 1], r[k + 1..]);
    SortOfSplit(r[..k], x);
    assert |r| == |multiset(r)| == |multiset(s)| == |s|;
    assert SortOf(x) == x;
  }
}
