/** Moving a block inside a sequence: the common specification of all copying, and why copying
    piece by piece in the right direction never reads what it has already overwritten. */
module Block {

  /** m with the stretch starting at at replaced by block. */
  function Patched<T>(m: seq<T>, at: nat, block: seq<T>): (r: seq<T>)
    requires at + |block| <= |m|
    ensures |r| == |m|
  {
    m[..at] + block + m[at + |block|..]
  }

  /** m after n elements at s have been moved to d, all at once. */
  function Moved<T>(m: seq<T>, d: nat, s: nat, n: nat): (r: seq<T>)
    requires d + n <= |m| && s + n <= |m|
    ensures |r| == |m|
  {
    Patched(m, d, m[s..s + n])
  }

  /** Copying upwards may overwrite source elements only after they have been read. */
  predicate ForwardSafe(d: nat, s: nat, n: nat) {
    !(s < d < s + n)
  }

  lemma SameInside<T>(t: seq<T>, m: seq<T>, lo: nat, hi: nat, lo': nat, hi': nat)
    requires lo <= lo' <= hi' <= hi && hi <= |t| && hi <= |m| && t[lo..hi] == m[lo..hi]
    ensures t[lo'..hi'] == m[lo'..hi']
  {
    forall k | lo' <= k < hi' ensures t[k] == m[k] {
      assert t[lo..hi][k - lo] == m[lo..hi][k - lo];
    }
  }

  /** t is m with the first i elements moved; the elements still to be read are those of m. */
  lemma ForwardUnread<T>(m: seq<T>, t: seq<T>, d: nat, s: nat, n: nat, i: nat)
    requires d + n <= |m| && s + n <= |m| && i <= n && ForwardSafe(d, s, n)
    requires t == Moved(m, d, s, i)
    ensures t[s + i..s + n] == m[s + i..s + n]
  {
    forall k | s + i <= k < s + n ensures t[k] == m[k] {
      MovedAt(m, d, s, i, k);
    }
  }

  /** Moving the next k elements in one piece, overlapping or not. */
  lemma ForwardStep<T>(m: seq<T>, t: seq<T>, d: nat, s: nat, n: nat, i: nat, k: nat)
    requires d + n <= |m| && s + n <= |m| && i + k <= n && ForwardSafe(d, s, n)
    requires t == Moved(m, d, s, i)
    ensures Moved(t, d + i, s + i, k) == Moved(m, d, s, i + k)
  {
    ForwardUnread(m, t, d, s, n, i);
    SameInside(t, m, s + i, s + n, s + i, s + i + k);
    assert m[s..s + i + k] == m[s..s + i] + m[s + i..s + i + k];
    assert t[..d + i] == m[..d] + m[s..s + i];
    assert t[d + i + k..] == m[d + i + k..];
  }

  /** t is m with the elements from i on moved; those still to be read are those of m. */
  lemma BackwardUnread<T>(m: seq<T>, t: seq<T>, d: nat, s: nat, n: nat, i: nat)
    requires d + n <= |m| && s + n <= |m| && i <= n && s < d
    requires t == Moved(m, d + i, s + i, n - i)
    ensures t[s..s + i] == m[s..s + i]
  {
    forall k | s <= k < s + i ensures t[k] == m[k] {
      MovedAt(m, d + i, s + i, n - i, k);
    }
  }

  lemma BackwardStep<T>(m: seq<T>, t: seq<T>, d: nat, s: nat, n: nat, i: nat, k: nat)
    requires d + n <= |m| && s + n <= |m| && k <= i <= n && s < d
    requires t == Moved(m, d + i, s + i, n - i)
    ensures Moved(t, d + i - k, s + i - k, k) == Moved(m, d + i - k, s + i - k, n - i + k)
  {
    BackwardUnread(m, t, d, s, n, i);
    SameInside(t, m, s, s + i, s + i - k, s + i);
    assert m[s + i - k..s + n] == m[s + i - k..s + i] + m[s + i..s + n];
    assert t[..d + i - k] == m[..d + i - k];
    assert t[d + i..] == m[s + i..s + n] + m[d + n..];
  }

  lemma MovedNothing<T>(m: seq<T>, d: nat, s: nat)
    requires d <= |m| && s <= |m|
    ensures Moved(m, d, s, 0) == m
  {
  }

  lemma MovedToItself<T>(m: seq<T>, d: nat, n: nat)
    requires d + n <= |m|
    ensures Moved(m, d, d, n) == m
  {
  }

  /** What a move means, element by element. */
  lemma MovedAt<T>(m: seq<T>, d: nat, s: nat, n: nat, k: nat)
    requires d + n <= |m| && s + n <= |m| && k < |m|
    ensures Moved(m, d, s, n)[k] == if d <= k < d + n then m[s + k - d] else m[k]
  {
  }

  lemma MovedOne<T>(m: seq<T>, d: nat, s: nat)
    requires d < |m| && s < |m|
    ensures Moved(m, d, s, 1) == m[d := m[s]]
  {
  }

  /** One assignment of an upward copying loop. */
  lemma ForwardOne<T>(m: seq<T>, t: seq<T>, d: nat, s: nat, n: nat, i: nat)
    requires d + n <= |m| && s + n <= |m| && i < n && ForwardSafe(d, s, n)
    requires t == Moved(m, d, s, i)
    ensures t[d + i := t[s + i]] == Moved(m, d, s, i + 1)
  {
    hide *;
    MovedOne(t, d + i, s + i);
    ForwardStep(m, t, d, s, n, i, 1);
  }

  /** One assignment of a downward copying loop that has come down to e in the destination and to
      f in the source. */
  lemma BackwardOne<T>(m: seq<T>, t: seq<T>, d: nat, s: nat, n: nat, e: nat, f: nat)
    requires d + n <= |m| && s + n <= |m| && d < e <= d + n && f - s == e - d && s < d
    requires t == Moved(m, e, f, d + n - e)
    ensures t[e - 1 := t[f - 1]] == Moved(m, e - 1, f - 1, d + n - (e - 1))
  {
    hide *;
    MovedOne(t, e - 1, f - 1);
    BackwardStep(m, t, d, s, n, e - d, 1);
  }

  lemma ForwardSafeIff(d: nat, s: nat, n: nat)
    ensures ForwardSafe(d, s, n) <==> !(d > s && d < s + n)
  {
  }

  lemma SliceFront<T>(m: seq<T>, lo: nat, n: nat, i: nat)
    requires i <= n && lo + n <= |m|
    ensures m[lo..lo + n][..i] == m[lo..lo + i]
  {
    var whole, front := m[lo..lo + n], m[lo..lo + i];
    assert forall k :: 0 <= k < i ==> whole[k] == front[k];
  }

  lemma SamePrefix<T>(a: seq<T>, b: seq<T>, c: seq<T>)
    ensures a + b == a + c <==> b == c
  {
    if a + b == a + c {
      assert (a + b)[|a|..] == b && (a + c)[|a|..] == c;
    }
  }
}
