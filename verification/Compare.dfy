/** compare.inl: exchanging two elements in place, and lexicographic comparison. */
module Compare {

  /** What has been done to elements so far: exchanges and comparisons enter themselves here. */
  class Tally {
    ghost var swaps: nat
    ghost var compares: nat
  }

  method Less(x: int, y: int, ghost tally: Tally) returns (less: bool)
    modifies tally
    ensures less == (x < y)
    ensures tally.compares == old(tally.compares) + 1 && tally.swaps == old(tally.swaps)
  {
    tally.compares := tally.compares + 1;
    less := x < y;
  }

  method AtMost(x: int, y: int, ghost tally: Tally) returns (atMost: bool)
    modifies tally
    ensures atMost == (x <= y)
    ensures tally.compares == old(tally.compares) + 1 && tally.swaps == old(tally.swaps)
  {
    tally.compares := tally.compares + 1;
    atMost := x <= y;
  }

  /** s with the elements at i and j exchanged. */
  function Swapped<T>(s: seq<T>, i: nat, j: nat): (r: seq<T>)
    requires i < |s| && j < |s|
    ensures |r| == |s|
  {
    s[i := s[j]][j := s[i]]
  }

  method Swap<T>(a: array<T>, i: nat, j: nat, ghost tally: Tally)
    requires i < a.Length && j < a.Length
    modifies a, tally
    ensures a[..] == Swapped(old(a[..]), i, j)
    ensures tally.swaps == old(tally.swaps) + 1 && tally.compares == old(tally.compares)
  {
    tally.swaps := tally.swaps + 1;
    var tmp := a[i];
    a[i] := a[j];
    a[j] := tmp;
  }

  /** a comes before b: it is smaller at the first difference, or a proper prefix of b. */
  ghost predicate Precedes(a: seq<int>, b: seq<int>) {
    || a < b
    || exists k: nat :: DiffersFirstAt(a, b, k) && a[k] < b[k]
  }

  ghost predicate DiffersFirstAt(a: seq<int>, b: seq<int>, k: nat) {
    k < |a| && k < |b| && a[..k] == b[..k] && a[k] != b[k]
  }

  predicate LexLess(a: seq<int>, b: seq<int>) {
    b != [] && (a == [] || a[0] < b[0] || (a[0] == b[0] && LexLess(a[1..], b[1..])))
  }

  lemma {:induction false} LexLessSkip(a: seq<int>, b: seq<int>, k: nat)
    requires k <= |a| && k <= |b| && a[..k] == b[..k]
    ensures LexLess(a, b) <==> LexLess(a[k..], b[k..])
  {
    if k == 0 {
      assert a[0..] == a && b[0..] == b;
    } else {
      assert a[0] == a[..k][0] == b[..k][0] == b[0];
      assert a[1..][..k - 1] == a[..k][1..] == b[..k][1..] == b[1..][..k - 1];
      LexLessSkip(a[1..], b[1..], k - 1);
      assert a[1..][k - 1..] == a[k..] && b[1..][k - 1..] == b[k..];
    }
  }

  /** Two sequences are equal, one is a proper prefix of the other, or they differ somewhere first. */
  lemma {:induction false} FirstDifference(a: seq<int>, b: seq<int>) returns (k: nat)
    ensures k <= |a| && k <= |b| && a[..k] == b[..k]
    ensures k == |a| || k == |b| || DiffersFirstAt(a, b, k)
  {
    if a == [] || b == [] || a[0] != b[0] {
      k := 0;
    } else {
      k := FirstDifference(a[1..], b[1..]);
      assert a[..k + 1] == [a[0]] + a[1..][..k] && b[..k + 1] == [b[0]] + b[1..][..k];
      k := k + 1;
    }
  }

  lemma LexLessIsPrecedes(a: seq<int>, b: seq<int>)
    ensures LexLess(a, b) <==> Precedes(a, b)
  {
    var k := FirstDifference(a, b);
    LexLessSkip(a, b, k);
    if a < b {
      assert a[..|a|] == b[..|a|];
      LexLessSkip(a, b, |a|);
    } else if Precedes(a, b) {
      var j: nat :| DiffersFirstAt(a, b, j) && a[j] < b[j];
      LexLessSkip(a, b, j);
    }
  }

  /** The order is strict and total. */
  lemma {:induction false} LexLessTotal(a: seq<int>, b: seq<int>)
    ensures !(LexLess(a, b) && LexLess(b, a))
    ensures LexLess(a, b) || a == b || LexLess(b, a)
    ensures !LexLess(a, a)
  {
    if a != [] && b != [] {
      LexLessTotal(a[1..], b[1..]);
      assert a == [a[0]] + a[1..] && b == [b[0]] + b[1..];
    }
    LexLessSkip(a, a, |a|);
  }

  lemma {:induction false} LexLessTransitive(a: seq<int>, b: seq<int>, c: seq<int>)
    requires LexLess(a, b) && LexLess(b, c)
    ensures LexLess(a, c)
  {
    if a != [] && a[0] == b[0] == c[0] {
      LexLessTransitive(a[1..], b[1..], c[1..]);
    }
  }

  method LexicographicalCompare(t1: array<int>, n1: nat, t2: array<int>, n2: nat) returns (less: bool)
    requires n1 <= t1.Length && n2 <= t2.Length
    ensures less == LexLess(t1[..n1], t2[..n2])
  {
    ghost var a, b := t1[..n1], t2[..n2];
    var n := if n2 < n1 then n2 else n1;
    for i := 0 to n
      invariant a[..i] == b[..i]
    {
      LexLessSkip(a, b, i);
      if t1[i] < t2[i] {
        return true;
      }
      if t2[i] < t1[i] {
        return false;
      }
    }
    LexLessSkip(a, b, n);
    return n1 < n2;
  }
}
