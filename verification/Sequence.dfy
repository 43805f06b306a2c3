/** sequence.inl: overlap-safe copying, reversal, and rotation by three reversals. */
module Sequence {
  import opened Block
  import opened Compare

  method Copy<T>(t: array<T>, src: nat, dest: nat, n: nat)
    requires src + n <= t.Length && dest + n <= t.Length
    modifies t
    ensures t[..] == Moved(old(t[..]), dest, src, n)
  {
    hide *;
    ghost var m := t[..];
    if dest > src && dest < src + n {
      var i := n;
      MovedNothing(m, dest + n, src + n);
      while i > 0
        invariant 0 <= i <= n
        invariant t[..] == Moved(m, dest + i, src + i, n - i)
      {
        BackwardOne(m, t[..], dest, src, n, dest + i, src + i);
        t[dest + (i - 1)] := t[src + (i - 1)];
        i := i - 1;
      }
    } else {
      ForwardSafeIff(dest, src, n);
      MovedNothing(m, dest, src);
      for i := 0 to n
        invariant t[..] == Moved(m, dest, src, i)
      {
        ForwardOne(m, t[..], dest, src, n, i);
        t[dest + i] := t[src + i];
      }
    }
  }

  function Reversed<T>(s: seq<T>): (r: seq<T>)
    ensures |r| == |s|
  {
    if s == [] then [] else Reversed(s[1..]) + [s[0]]
  }

  /** m with the stretch lo..hi reversed. */
  function ReversedIn<T>(m: seq<T>, lo: nat, hi: nat): seq<T>
    requires lo <= hi <= |m|
    ensures |ReversedIn(m, lo, hi)| == |m|
  {
    Patched(m, lo, Reversed(m[lo..hi]))
  }

  lemma {:induction false} ReversedAt<T>(s: seq<T>, k: nat)
    requires k < |s|
    ensures Reversed(s)[k] == s[|s| - 1 - k]
  {
    if k < |s| - 1 {
      ReversedAt(s[1..], k);
    }
  }

  /** s with its first i and last i elements already exchanged. */
  ghost predicate ReversedEnds<T>(s: seq<T>, t: seq<T>, i: nat)
    requires |t| == |s|
  {
    && (forall k :: 0 <= k < |s| && (k < i || |s| - i <= k) ==> t[k] == s[|s| - 1 - k])
    && (forall k :: i <= k < |s| - i ==> t[k] == s[k])
  }

  lemma ReversedEndsStep<T>(s: seq<T>, t: seq<T>, i: nat)
    requires |t| == |s| && i < |s| / 2 && ReversedEnds(s, t, i)
    ensures ReversedEnds(s, Swapped(t, i, |s| - 1 - i), i + 1)
  {
  }

  lemma ReversedEndsDone<T>(s: seq<T>, t: seq<T>)
    requires |t| == |s| && ReversedEnds(s, t, |s| / 2)
    ensures t == Reversed(s)
  {
    forall k | 0 <= k < |s| ensures t[k] == Reversed(s)[k] {
      ReversedAt(s, k);
    }
  }

  lemma ReversedEndsStart<T>(s: seq<T>)
    ensures ReversedEnds(s, s, 0)
  {
  }

  method Reverse<T>(t: array<T>, lo: nat, n: nat, ghost tally: Tally)
    requires lo + n <= t.Length
    modifies t, tally
    ensures t[..] == ReversedIn(old(t[..]), lo, lo + n)
    ensures tally.swaps == old(tally.swaps) + n / 2
  {
    hide *;
    ghost var m := t[..];
    ghost var s := m[lo..lo + n];
    ghost var r := s;
    ReversedEndsStart(s);
    PatchedSelf(m, lo, n);
    for i := 0 to n / 2
      invariant |r| == n && ReversedEnds(s, r, i)
      invariant t[..] == Patched(m, lo, r)
      invariant tally.swaps == old(tally.swaps) + i
    {
      Swap(t, lo + i, lo + (n - 1 - i), tally);
      SwapInPatch(m, lo, r, i, n - 1 - i);
      ReversedEndsStep(s, r, i);
      r := Swapped(r, i, n - 1 - i);
    }
    ReversedEndsDone(s, r);
    ReversedInIs(m, lo, lo + n);
  }

  /** The two parts of s around mid, exchanged. */
  function Rotated<T>(s: seq<T>, mid: nat): (r: seq<T>)
    requires mid <= |s|
    ensures |r| == |s|
  {
    s[mid..] + s[..mid]
  }

  lemma ReversedPair<T>(a: seq<T>, b: seq<T>)
    ensures Reversed(a + b) == Reversed(b) + Reversed(a)
  {
    forall k | 0 <= k < |a| + |b| ensures Reversed(a + b)[k] == (Reversed(b) + Reversed(a))[k] {
      ReversedAt(a + b, k);
      if k < |b| {
        ReversedAt(b, k);
      } else {
        ReversedAt(a, k - |b|);
      }
    }
  }

  lemma ReversedTwice<T>(s: seq<T>)
    ensures Reversed(Reversed(s)) == s
  {
    forall k | 0 <= k < |s| ensures Reversed(Reversed(s))[k] == s[k] {
      ReversedAt(Reversed(s), k);
      ReversedAt(s, |s| - 1 - k);
    }
  }

  /** Reversing both parts and then the whole exchanges the parts. */
  lemma ThreeReversals<T>(a: seq<T>, b: seq<T>)
    ensures Reversed(Reversed(a) + Reversed(b)) == b + a
  {
    ReversedPair(Reversed(a), Reversed(b));
    ReversedTwice(a);
    ReversedTwice(b);
  }

  lemma PatchMiddle<T>(m: seq<T>, a: seq<T>, b: seq<T>, rest: seq<T>, c: seq<T>)
    requires m == a + b + rest && |c| == |b|
    ensures m[|a|..|a| + |b|] == b
    ensures Patched(m, |a|, c) == a + c + rest
  {
    assert m[..|a|] == a;
    assert m[|a| + |b|..] == rest;
  }

  lemma RotateSteps<T>(m: seq<T>, n: nat, mid: nat)
    requires mid <= n <= |m|
    ensures ReversedIn(ReversedIn(ReversedIn(m, 0, mid), mid, n), 0, n) == Rotated(m[..n], mid) + m[n..]
  {
    hide Reversed, Patched;
    var a, b, rest := m[..mid], m[mid..n], m[n..];
    PatchMiddle(m, [], a, b + rest, Reversed(a));
    var m1 := ReversedIn(m, 0, mid);
    assert m1 == Reversed(a) + b + rest;
    PatchMiddle(m1, Reversed(a), b, rest, Reversed(b));
    var m2 := ReversedIn(m1, mid, n);
    PatchMiddle(m2, [], Reversed(a) + Reversed(b), rest, Reversed(Reversed(a) + Reversed(b)));
    ThreeReversals(a, b);
    assert m[..n][mid..] == b && m[..n][..mid] == a;
  }

  lemma RotateNothing<T>(m: seq<T>, n: nat, mid: nat)
    requires n <= |m| && (mid == 0 || mid == n)
    ensures Rotated(m[..n], mid) + m[n..] == m
  {
  }

  method Rotate<T>(t: array<T>, n: nat, mid: nat, ghost tally: Tally)
    requires mid <= n <= t.Length
    modifies t, tally
    ensures t[..] == Rotated(old(t[..n]), mid) + old(t[n..])
    ensures old(tally.swaps) <= tally.swaps <= old(tally.swaps) + n
  {
    hide *;
    ghost var m := t[..];
    assert t[..n] == m[..n] && t[n..] == m[n..];
    if mid == 0 || mid == n {
      RotateNothing(m, n, mid);
      return;
    }
    RotateSteps(m, n, mid);
    Reverse(t, 0, mid, tally);
    Reverse(t, mid, n - mid, tally);
    Reverse(t, 0, n, tally);
  }

  /** Element k of a rotation comes from mid places further on, going around at the end. */
  function From(k: nat, mid: nat, n: nat): nat
    requires k < n && mid <= n
    ensures From(k, mid, n) < n
  {
    if k + mid < n then k + mid else k + mid - n
  }

  lemma RotatedAt<T>(s: seq<T>, mid: nat, k: nat)
    requires k < |s| && mid <= |s|
    ensures Rotated(s, mid)[k] == s[From(k, mid, |s|)]
  {
  }

  lemma FromTwice(k: nat, i: nat, j: nat, n: nat)
    requires k < n && i <= n && j <= n
    ensures (i + j) % n < n
    ensures From(From(k, j, n), i, n) == From(k, (i + j) % n, n)
  {
    SmallRemainder(i + j, n);
  }

  lemma SmallRemainder(x: nat, n: nat)
    requires 1 <= n && x <= 2 * n
    ensures x % n == if x < n then x else if x < 2 * n then x - n else 0
  {
    if x == 2 * n {
      assert x % n == (x - n) % n;
    }
  }

  /** Rotating by i and then by j is rotating once, by their sum modulo the length. */
  lemma RotatedTwice<T>(s: seq<T>, i: nat, j: nat)
    requires s != [] && i <= |s| && j <= |s|
    ensures (i + j) % |s| < |s|
    ensures Rotated(Rotated(s, i), j) == Rotated(s, (i + j) % |s|)
  {
    hide *;
    var n, r, q := |s|, Rotated(s, i), Rotated(Rotated(s, i), j);
    FromTwice(0, i, j, n);
    forall k | 0 <= k < n ensures q[k] == Rotated(s, (i + j) % n)[k] {
      FromTwice(k, i, j, n);
      RotatedAt(r, j, k);
      RotatedAt(s, i, From(k, j, n));
      RotatedAt(s, (i + j) % n, k);
    }
  }

  lemma ReversedInIs<T>(m: seq<T>, lo: nat, hi: nat)
    requires lo <= hi <= |m|
    ensures ReversedIn(m, lo, hi) == Patched(m, lo, Reversed(m[lo..hi]))
  {
  }

  lemma PatchedSelf<T>(m: seq<T>, lo: nat, n: nat)
    requires lo + n <= |m|
    ensures Patched(m, lo, m[lo..lo + n]) == m
  {
  }

  lemma SwapInPatch<T>(m: seq<T>, lo: nat, r: seq<T>, i: nat, j: nat)
    requires lo + |r| <= |m| && i < |r| && j < |r|
    ensures Swapped(Patched(m, lo, r), lo + i, lo + j) == Patched(m, lo, Swapped(r, i, j))
  {
  }
}
