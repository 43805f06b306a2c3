/** string.cpp: bounded comparison and the two substring searches. */
module StringSearch {
  import opened Basics
  import opened Block
  import opened CString
  import opened MemOp
  import opened StringOps
  import opened Word

  /** The first n characters at p, or all up to a terminator, are in memory. */
  predicate InReach(m: seq<byte>, p: nat, n: nat) {
    p + n <= |m| || Terminated(m, p)
  }

  method StrNCmp(mem: array<byte>, s1: nat, s2: nat, count: nat) returns (r: int)
    requires InReach(mem[..], s1, count) && InReach(mem[..], s2, count)
    ensures r == StrNCompared(Str(mem[..], s1), Str(mem[..], s2), count)
  {
    hide *;
    ghost var m := mem[..];
    CommonStart(m, s1, s2);
    for i := 0 to count
      invariant Common(m, s1, s2, i)
    {
      NCommonByte(m, s1, s2, i, count);
      var c1 := mem[s1 + i];
      var c2 := mem[s2 + i];
      if c1 != c2 {
        return ByteDiff(c1, c2);
      }
      if c1 == 0 {
        return 0;
      }
    }
    NCommonAll(m, s1, s2, count);
    return 0;
  }

  lemma NCommonByte(m: seq<byte>, s1: nat, s2: nat, i: nat, n: nat)
    requires InReach(m, s1, n) && InReach(m, s2, n) && Common(m, s1, s2, i) && i < n
    ensures s1 + i < |m| && s2 + i < |m|
    ensures m[s1 + i] == m[s2 + i] != 0 ==> Common(m, s1, s2, i + 1)
    ensures m[s1 + i] != m[s2 + i] ==>
              StrNCompared(Str(m, s1), Str(m, s2), n) == ByteDiff(m[s1 + i], m[s2 + i])
    ensures m[s1 + i] == m[s2 + i] == 0 ==> StrNCompared(Str(m, s1), Str(m, s2), n) == 0
  {
    hide Str, ByteDiff;
    var a, b := Str(m, s1), Str(m, s2);
    ReachByte(m, s1, i, n);
    ReachByte(m, s2, i, n);
    StrNComparedSkip(a, b, n, i);
    if m[s1 + i] == m[s2 + i] != 0 {
      assert a[..i + 1] == a[..i] + [a[i]] && b[..i + 1] == b[..i] + [b[i]];
    }
  }

  lemma ReachByte(m: seq<byte>, p: nat, i: nat, n: nat)
    requires InReach(m, p, n) && i < n && i <= |Str(m, p)|
    ensures p + i < |m| && m[p + i] == Char(Str(m, p), i)
    ensures m[p + i] == 0 <==> i == |Str(m, p)|
  {
    hide Str;
    StrAt(m, p, i);
  }

  lemma NCommonAll(m: seq<byte>, s1: nat, s2: nat, n: nat)
    requires Common(m, s1, s2, n)
    ensures StrNCompared(Str(m, s1), Str(m, s2), n) == 0
  {
    hide Str;
    StrNComparedSkip(Str(m, s1), Str(m, s2), n, n);
  }

  /** Searches exactly len bytes: unlike some implementations it does not stop at a terminator of s1. */
  method StrNStr(mem: array<byte>, s1: nat, s2: nat, len: nat) returns (r: Option<nat>)
    requires WordReadable(mem[..], s2) && s1 + len <= mem.Length
    ensures r == MatchFrom(mem[..][s1..s1 + len], Str(mem[..], s2), 0)
  {
    hide *;
    ghost var m := mem[..];
    ghost var h, n := m[s1..s1 + len], Str(m, s2);
    ScanStart(m, s2);
    var l2 := StrLen(mem, s2);
    if l2 == 0 {
      EmptyMatches(h, n);
      return Some(0);
    }
    var i := 0;
    while len - i >= l2
      invariant i <= len && MatchFrom(h, n, i) == MatchFrom(h, n, 0)
      decreases len - i
    {
      ReachOf(m, s1, len, s2, i);
      MatchStep(h, n, i);
      PrefixIsMatch(m, s1, len, s2, i);
      var c := StrNCmp(mem, s1 + i, s2, l2);
      if c == 0 {
        return Some(i);
      }
      i := i + 1;
    }
    NoRoom(h, n, i);
    return None;
  }

  lemma EmptyMatches(h: seq<byte>, n: seq<byte>)
    requires |n| == 0
    ensures MatchFrom(h, n, 0) == Some(0)
  {
  }

  lemma MatchStep(h: seq<byte>, n: seq<byte>, i: nat)
    ensures MatchFrom(h, n, i) ==
              if MatchAt(h, n, i) then Some(i) else if i >= |h| then None else MatchFrom(h, n, i + 1)
  {
  }

  lemma NoRoom(h: seq<byte>, n: seq<byte>, i: nat)
    requires |h| < i + |n|
    ensures MatchFrom(h, n, i) == None
  {
    MatchFromIsFirst(h, n, i);
  }

  lemma ReachOf(m: seq<byte>, s1: nat, len: nat, s2: nat, i: nat)
    requires s1 + len <= |m| && Terminated(m, s2) && i + |Str(m, s2)| <= len
    ensures InReach(m, s1 + i, |Str(m, s2)|) && InReach(m, s2, |Str(m, s2)|)
  {
  }

  /** Comparing as many characters as the needle has finds out whether it occurs here. */
  lemma PrefixIsMatch(m: seq<byte>, s1: nat, len: nat, s2: nat, i: nat)
    requires s1 + len <= |m| && Terminated(m, s2) && i + |Str(m, s2)| <= len
    ensures StrNCompared(Str(m, s1 + i), Str(m, s2), |Str(m, s2)|) == 0
            <==> MatchAt(m[s1..s1 + len], Str(m, s2), i)
  {
    hide Str, StrNCompared;
    var a, n, p := Str(m, s1 + i), Str(m, s2), s1 + i;
    StrSlice(m, s2);
    StrNComparedMatches(a, n);
    assert m[s1..s1 + len][i..i + |n|] == m[p..p + |n|] by {
      SliceMiddle(m, s1, len, i, i + |n|);
    }
    if n <= a {
      forall k | 0 <= k < |n| ensures m[p..p + |n|][k] == n[k] {
        StrAt(m, p, k);
      }
    }
    if m[p..p + |n|] == n {
      StrNoZero(m, p, 0, |n|);
      forall k | 0 <= k < |n| ensures a[k] == n[k] {
        StrAt(m, p, k);
        assert m[p..p + |n|][k] == m[p + k];
      }
    }
  }

  lemma SliceMiddle(m: seq<byte>, lo: nat, len: nat, i: nat, j: nat)
    requires lo + len <= |m| && i <= j <= len
    ensures m[lo..lo + len][i..j] == m[lo + i..lo + j]
  {
    var x, y := m[lo..lo + len][i..j], m[lo + i..lo + j];
    assert forall k :: 0 <= k < j - i ==> x[k] == y[k];
  }

  method StrStr(mem: array<byte>, haystack: nat, needle: nat) returns (r: Option<nat>)
    requires Terminated(mem[..], haystack) && Terminated(mem[..], needle)
    ensures r == MatchFrom(Str(mem[..], haystack), Str(mem[..], needle), 0)
  {
    hide *;
    ghost var m := mem[..];
    ghost var h, n := Str(m, haystack), Str(m, needle);
    ScanByte(m, needle, 0);
    var first := mem[needle];
    if first == 0 {
      EmptyMatches(h, n);
      return Some(0);
    }
    var i := 0;
    ScanByte(m, haystack, 0);
    while mem[haystack + i] != 0
      invariant i <= |h| && haystack + i < mem.Length
      invariant mem[haystack + i] == 0 <==> i == |h|
      invariant MatchFrom(h, n, i) == MatchFrom(h, n, 0)
      decreases |h| - i
    {
      MatchStep(h, n, i);
      FirstChar(m, haystack, needle, i);
      if mem[haystack + i] == first {
        var found := MatchesHere(mem, haystack, needle, i);
        if found {
          return Some(i);
        }
      }
      i := i + 1;
      ScanByte(m, haystack, i);
    }
    NoRoom(h, n, i);
    return None;
  }

  lemma FirstChar(m: seq<byte>, h: nat, n: nat, i: nat)
    requires Terminated(m, h) && Terminated(m, n) && i < |Str(m, h)| && 1 <= |Str(m, n)|
    ensures h + i < |m| && n < |m|
    ensures m[h + i] != m[n] ==> !MatchAt(Str(m, h), Str(m, n), i)
    ensures m[h + i] == m[n] ==> Matched(m, h, n, i, 1)
  {
    hide Str;
    StrAt(m, h, i);
    StrAt(m, n, 0);
    if MatchAt(Str(m, h), Str(m, n), i) {
      assert Str(m, h)[i..i + |Str(m, n)|][0] == Str(m, h)[i];
    }
  }

  /** The first j characters of the needle occur at offset i of the haystack. */
  ghost predicate Matched(m: seq<byte>, h: nat, n: nat, i: nat, j: nat) {
    j <= |Str(m, n)| && i + j <= |Str(m, h)| && Str(m, h)[i..i + j] == Str(m, n)[..j]
  }

  lemma MatchedChar(m: seq<byte>, h: nat, n: nat, i: nat, j: nat)
    requires Terminated(m, h) && Terminated(m, n) && Matched(m, h, n, i, j)
    ensures h + i + j < |m| && n + j < |m| && j <= |Str(m, n)|
    ensures m[n + j] == 0 ==> MatchAt(Str(m, h), Str(m, n), i)
    ensures m[n + j] == m[h + i + j] != 0 ==> Matched(m, h, n, i, j + 1)
    ensures m[n + j] != 0 && m[h + i + j] != m[n + j] ==> !MatchAt(Str(m, h), Str(m, n), i)
  {
    hide Str;
    var a, b := Str(m, h), Str(m, n);
    StrAt(m, h, i + j);
    StrAt(m, n, j);
    if MatchAt(a, b, i) && j < |b| {
      assert a[i..i + |b|][j] == a[i + j];
    }
  }

  lemma MatchedBound(m: seq<byte>, h: nat, n: nat, i: nat, j: nat)
    requires Matched(m, h, n, i, j)
    ensures j <= |Str(m, n)|
  {
  }

  /** The inner loop of strstr, entered after the first character has matched. */
  method MatchesHere(mem: array<byte>, haystack: nat, needle: nat, i: nat) returns (found: bool)
    requires Terminated(mem[..], haystack) && Terminated(mem[..], needle)
    requires Matched(mem[..], haystack, needle, i, 1)
    ensures found <==> MatchAt(Str(mem[..], haystack), Str(mem[..], needle), i)
  {
    hide *;
    ghost var m := mem[..];
    var j := 1;
    MatchedChar(m, haystack, needle, i, j);
    while mem[needle + j] != 0 && mem[haystack + i + j] == mem[needle + j]
      invariant Matched(m, haystack, needle, i, j)
      invariant needle + j < mem.Length && haystack + i + j < mem.Length && j <= |Str(m, needle)|
      decreases |Str(m, needle)| - j
    {
      MatchedChar(m, haystack, needle, i, j);
      j := j + 1;
      MatchedBound(m, haystack, needle, i, j);
      MatchedChar(m, haystack, needle, i, j);
    }
    MatchedChar(m, haystack, needle, i, j);
    found := mem[needle + j] == 0;
  }

  /** The nested byte scan and the search by strlen and strncmp find the same place, which is the
      first occurrence of the needle. */
  method FindBothWays(mem: array<byte>, haystack: nat, needle: nat)
    returns (scanned: Option<nat>, compared: Option<nat>)
    requires WordReadable(mem[..], haystack) && WordReadable(mem[..], needle)
    ensures scanned == compared
    ensures match scanned
            case Some(k) => && MatchAt(Str(mem[..], haystack), Str(mem[..], needle), k)
                            && forall j :: 0 <= j < k ==> !MatchAt(Str(mem[..], haystack), Str(mem[..], needle), j)
            case None => forall j :: 0 <= j ==> !MatchAt(Str(mem[..], haystack), Str(mem[..], needle), j)
  {
    hide *;
    ScanStart(mem[..], haystack);
    ScanStart(mem[..], needle);
    TerminatedRoom(mem[..], haystack);
    scanned := StrStr(mem, haystack, needle);
    var len := StrLen(mem, haystack);
    compared := StrNStr(mem, haystack, needle, len);
    StrSlice(mem[..], haystack);
    MatchFromIsFirst(Str(mem[..], haystack), Str(mem[..], needle), 0);
  }

  lemma MatchInFront(h: seq<byte>, n: seq<byte>, c: nat, i: nat)
    requires c <= |h|
    ensures MatchAt(h[..c], n, i) <==> i + |n| <= c && MatchAt(h, n, i)
  {
    if i + |n| <= c {
      assert h[..c][i..i + |n|] == h[i..i + |n|];
    }
  }

  /** Cutting the searched text to its first c bytes changes the result exactly if the first match
      reaches beyond them. */
  lemma MatchCutIff(h: seq<byte>, n: seq<byte>, c: nat)
    requires c <= |h|
    ensures MatchFrom(h[..c], n, 0) == MatchFrom(h, n, 0)
       <==> MatchFrom(h, n, 0).None? || MatchFrom(h, n, 0).value + |n| <= c
  {
    hide MatchAt, MatchFrom;
    MatchFromIsFirst(h, n, 0);
    MatchFromIsFirst(h[..c], n, 0);
    forall i: nat ensures MatchAt(h[..c], n, i) <==> i + |n| <= c && MatchAt(h, n, i) {
      MatchInFront(h, n, c, i);
    }
  }

  lemma FoundInside(h: seq<byte>, n: seq<byte>)
    ensures MatchFrom(h, n, 0).Some? ==> MatchFrom(h, n, 0).value + |n| <= |h|
  {
    MatchFromIsFirst(h, n, 0);
  }

  /** That strnstr does not look for the terminator of s1 shows exactly if len goes beyond it and the
      first match does not end before it; up to the length of s1 it searches the string. */
  lemma StrNStrSeesStringIff(m: seq<byte>, s1: nat, n: seq<byte>, len: nat)
    requires Terminated(m, s1) && s1 + len <= |m|
    ensures var found := MatchFrom(m[s1..s1 + len], n, 0);
            var searched := Str(m, s1)[..Min(len, |Str(m, s1)|)];
            && (found == MatchFrom(searched, n, 0) <==> found.None? || found.value + |n| <= |Str(m, s1)|)
            && (len <= |Str(m, s1)| ==> found == MatchFrom(searched, n, 0))
  {
    hide MatchFrom, Str, Terminated;
    var c, block := Min(len, |Str(m, s1)|), m[s1..s1 + len];
    StrSlice(m, s1);
    TerminatedRoom(m, s1);
    SliceFront(m, s1, len, c);
    SliceFront(m, s1, |Str(m, s1)|, c);
    MatchCutIff(block, n, c);
    FoundInside(block, n);
    assert block[..|block|] == block;
  }
}
