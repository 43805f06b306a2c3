/** NUL-terminated strings in memory, and what comparing and searching them means. */
module CString {
  import opened Basics
  import opened Block
  import opened Compare
  import opened MemOp
  import opened Word

  /** The bytes from p up to the first zero byte, or to the end of memory. */
  function Str(m: seq<byte>, p: nat): seq<byte>
    decreases |m| - p
  {
    if p < |m| && m[p] != 0 then [m[p]] + Str(m, p + 1) else []
  }

  /** A zero byte ends the string at p. */
  predicate Terminated(m: seq<byte>, p: nat) {
    p + |Str(m, p)| < |m|
  }

  /** The aligned word that holds the terminator is in memory: the only bytes after the string that
      a word-wise scan may touch. */
  predicate WordReadable(m: seq<byte>, p: nat) {
    Terminated(m, p) && (p + |Str(m, p)|) / WORD * WORD + WORD <= |m|
  }

  lemma {:induction false} StrAt(m: seq<byte>, p: nat, i: nat)
    requires i <= |Str(m, p)|
    ensures i < |Str(m, p)| ==> p + i < |m| && m[p + i] == Str(m, p)[i] != 0
    ensures i == |Str(m, p)| ==> p + i >= |m| || m[p + i] == 0
    decreases i
  {
    if i != 0 {
      StrAt(m, p + 1, i - 1);
    }
  }

  /** The string is the memory it occupies. */
  lemma StrSlice(m: seq<byte>, p: nat)
    requires Terminated(m, p)
    ensures m[p..p + |Str(m, p)|] == Str(m, p)
    ensures 0 !in Str(m, p) && m[p + |Str(m, p)|] == 0
  {
    var n := |Str(m, p)|;
    forall i | 0 <= i < n ensures m[p + i] == Str(m, p)[i] != 0 {
      StrAt(m, p, i);
    }
    StrAt(m, p, n);
  }

  /** Whatever stretch without zero bytes ends in a zero byte is the string. */
  lemma {:induction false} StrUnique(m: seq<byte>, p: nat, n: nat)
    requires p + n < |m| && 0 !in m[p..p + n] && m[p + n] == 0
    ensures Str(m, p) == m[p..p + n] && Terminated(m, p)
    decreases n
  {
    if n != 0 {
      assert m[p..p + n] == [m[p]] + m[p + 1..p + n];
      StrUnique(m, p + 1, n - 1);
    }
  }

  /** A scan that has seen no zero among the next k bytes is still inside the string. */
  lemma {:induction false} StrNoZero(m: seq<byte>, p: nat, i: nat, k: nat)
    requires i <= |Str(m, p)| && p + i + k <= |m| && 0 !in m[p + i..p + i + k]
    ensures i + k <= |Str(m, p)|
    decreases k
  {
    if k != 0 {
      StrAt(m, p, i);
      assert m[p + i..p + i + k] == [m[p + i]] + m[p + i + 1..p + i + k];
      StrNoZero(m, p, i + 1, k - 1);
    }
  }

  /** An aligned word inside or at the end of a readable string can be loaded. */
  lemma AlignedWordInMemory(m: seq<byte>, p: nat, i: nat)
    requires WordReadable(m, p) && i <= |Str(m, p)| && Aligned(p + i)
    ensures p + i + WORD <= |m|
  {
    hide Str;
    var e := p + |Str(m, p)|;
    assert (p + i) / WORD <= e / WORD;
  }

  /** Character i of a string, its terminator included. */
  function Char(s: seq<byte>, i: nat): byte {
    if i < |s| then s[i] else 0
  }

  /** What comparing at most n characters of two strings means: the difference of the characters at
      the first difference, 0 if a terminator or the limit comes first. */
  function StrNCompared(a: seq<byte>, b: seq<byte>, n: nat): int {
    if n == 0 then 0
    else if Char(a, 0) != Char(b, 0) then ByteDiff(Char(a, 0), Char(b, 0))
    else if a == [] || b == [] then 0
    else StrNCompared(a[1..], b[1..], n - 1)
  }

  function StrCompared(a: seq<byte>, b: seq<byte>): int {
    StrNCompared(a, b, |a| + 1)
  }

  lemma {:induction false} StrNComparedSkip(a: seq<byte>, b: seq<byte>, n: nat, k: nat)
    requires k <= |a| && k <= |b| && k <= n && a[..k] == b[..k]
    ensures StrNCompared(a, b, n) == StrNCompared(a[k..], b[k..], n - k)
  {
    if k == 0 {
      assert a[0..] == a && b[0..] == b;
    } else {
      assert a[0] == a[..k][0] == b[..k][0] == b[0];
      assert a[1..][..k - 1] == a[..k][1..] == b[..k][1..] == b[1..][..k - 1];
      StrNComparedSkip(a[1..], b[1..], n - 1, k - 1);
      assert a[1..][k - 1..] == a[k..] && b[1..][k - 1..] == b[k..];
    }
  }

  /** The comparison is the difference at the first characters that differ, a terminator counting as 0. */
  lemma StrNComparedAt(a: seq<byte>, b: seq<byte>, n: nat, k: nat)
    requires k < n && k <= |a| && k <= |b| && a[..k] == b[..k]
    requires Char(a, k) != Char(b, k)
    ensures StrNCompared(a, b, n) ==
              (if k < |a| then a[k] as int else 0) - (if k < |b| then b[k] as int else 0)
  {
    StrNComparedSkip(a, b, n, k);
  }

  /** It is 0 if the limit comes before a difference, or the ends of both strings. */
  lemma StrNComparedNone(a: seq<byte>, b: seq<byte>, n: nat)
    requires a == b || (n <= |a| && n <= |b| && a[..n] == b[..n])
    ensures StrNCompared(a, b, n) == 0
  {
    var k := if n <= |a| then n else |a|;
    StrNComparedSkip(a, b, n, k);
  }

  lemma EmptyCompared(a: seq<byte>, b: seq<byte>)
    requires 0 !in a && 0 !in b && (a == [] || b == [])
    ensures StrCompared(a, b) < 0 <==> LexLess(Unsigned(a), Unsigned(b))
    ensures StrCompared(a, b) == 0 <==> a == b
  {
    assert a != [] ==> a[0] in a;
    assert b != [] ==> b[0] in b;
    ByteSign(Char(a, 0));
    ByteSign(Char(b, 0));
  }

  /** The comparison looks past equal first characters only. */
  lemma FirstCompared(a: seq<byte>, b: seq<byte>)
    requires a != [] && b != []
    ensures StrCompared(a, b) == if a[0] != b[0] then a[0] as int - b[0] as int else StrCompared(a[1..], b[1..])
  {
  }

  /** So does the order. */
  lemma FirstPrecedes(a: seq<byte>, b: seq<byte>)
    requires a != [] && b != []
    ensures a[0] as int == b[0] as int <==> a[0] == b[0]
    ensures LexLess(Unsigned(a), Unsigned(b)) <==>
              a[0] as int < b[0] as int || (a[0] == b[0] && LexLess(Unsigned(a[1..]), Unsigned(b[1..])))
    ensures a == b <==> a[0] == b[0] && a[1..] == b[1..]
  {
    ByteOrder(a[0], b[0]);
    assert Unsigned(a)[1..] == Unsigned(a[1..]) && Unsigned(b)[1..] == Unsigned(b[1..]);
    assert a == [a[0]] + a[1..] && b == [b[0]] + b[1..];
  }

  /** Comparing strings gives the order of lexicographical_compare, and 0 only for equal strings. */
  lemma {:induction false} StrComparedIsLexicographic(a: seq<byte>, b: seq<byte>)
    requires 0 !in a && 0 !in b
    ensures StrCompared(a, b) < 0 <==> LexLess(Unsigned(a), Unsigned(b))
    ensures StrCompared(a, b) == 0 <==> a == b
  {
    hide StrCompared, LexLess, Unsigned;
    if a == [] || b == [] {
      EmptyCompared(a, b);
    } else {
      FirstCompared(a, b);
      FirstPrecedes(a, b);
      assert 0 !in a[1..] && 0 !in b[1..];
      StrComparedIsLexicographic(a[1..], b[1..]);
    }
  }

  lemma ByteSign(x: byte)
    ensures 0 <= x as int && (x as int == 0 <==> x == 0)
  {
  }

  /** A limited comparison with a needle of that length succeeds exactly on a match. */
  lemma {:induction false} StrNComparedMatches(a: seq<byte>, b: seq<byte>)
    requires 0 !in b
    ensures StrNCompared(a, b, |b|) == 0 <==> b <= a
  {
    if b != [] {
      assert b[0] in b;
      if a != [] {
        ByteOrder(a[0], b[0]);
        StrNComparedMatches(a[1..], b[1..]);
        assert a == [a[0]] + a[1..] && b == [b[0]] + b[1..];
      } else {
        ByteSign(b[0]);
        ByteSign(0);
      }
    }
  }

  predicate MatchAt(h: seq<byte>, n: seq<byte>, i: nat) {
    i + |n| <= |h| && h[i..i + |n|] == n
  }

  /** The least index from i on at which n occurs in h. */
  function MatchFrom(h: seq<byte>, n: seq<byte>, i: nat): Option<nat>
    decreases |h| - i
  {
    if MatchAt(h, n, i) then Some(i) else if i >= |h| then None else MatchFrom(h, n, i + 1)
  }

  lemma {:induction false} MatchFromIsFirst(h: seq<byte>, n: seq<byte>, i: nat)
    ensures match MatchFrom(h, n, i)
            case Some(k) => i <= k && MatchAt(h, n, k) && forall j :: i <= j < k ==> !MatchAt(h, n, j)
            case None => forall j :: i <= j ==> !MatchAt(h, n, j)
    decreases |h| - i
  {
    if !MatchAt(h, n, i) && i < |h| {
      MatchFromIsFirst(h, n, i + 1);
    }
  }
}
