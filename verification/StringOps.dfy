/** string.cpp: the word-wise and byte-wise string routines. A char* is an index into memory. */
module StringOps {
  import opened Basics
  import opened Block
  import opened CString
  import opened MemOp
  import opened Word

  method StrLen(mem: array<byte>, s: nat) returns (n: nat)
    requires WordReadable(mem[..], s)
    ensures n == |Str(mem[..], s)|
  {
    hide *;
    WordSize();
    ghost var m := mem[..];
    ScanStart(m, s);
    n := 0;
    while (s + n) % WORD != 0
      invariant n <= |Str(m, s)|
      decreases |Str(m, s)| - n
    {
      ScanByte(m, s, n);
      if mem[s + n] == 0 {
        return;
      }
      n := n + 1;
    }
    AlignedIff(s + n);
    while true
      invariant n <= |Str(m, s)| && Aligned(s + n)
      decreases |Str(m, s)| - n
    {
      AlignedWordInMemory(m, s, n);
      var w := LoadAligned(mem, s + n);
      if HasZero(w) {
        break;
      }
      ScanWord(m, s, n, w);
      AlignedNext(s + n);
      n := n + WORD;
    }
    n := ScanToEnd(mem, s, n);
  }

  /** The byte loop that finishes a word-wise scan. */
  method ScanToEnd(mem: array<byte>, s: nat, from: nat) returns (n: nat)
    requires Terminated(mem[..], s) && from <= |Str(mem[..], s)|
    ensures n == |Str(mem[..], s)|
  {
    hide *;
    n := from;
    ScanByte(mem[..], s, n);
    while mem[s + n] != 0
      invariant n <= |Str(mem[..], s)| && s + n < mem.Length
      invariant mem[s + n] == 0 <==> n == |Str(mem[..], s)|
      decreases |Str(mem[..], s)| - n
    {
      n := n + 1;
      ScanByte(mem[..], s, n);
    }
  }

  lemma ScanStart(m: seq<byte>, s: nat)
    requires WordReadable(m, s)
    ensures Terminated(m, s)
  {
  }

  lemma ScanByte(m: seq<byte>, s: nat, i: nat)
    requires Terminated(m, s) && i <= |Str(m, s)|
    ensures s + i < |m| && (m[s + i] == 0 <==> i == |Str(m, s)|)
  {
    StrAt(m, s, i);
  }

  lemma ScanWord(m: seq<byte>, s: nat, i: nat, w: bv64)
    requires i <= |Str(m, s)| && s + i + WORD <= |m|
    requires Bytes(w) == m[s + i..s + i + WORD] && !HasZero(w)
    ensures i + WORD <= |Str(m, s)|
  {
    hide *;
    HasZeroIff(w);
    StrNoZero(m, s, i, WORD);
  }

  lemma AlignedIff(p: nat)
    ensures WORD == 8 && (Aligned(p) <==> p % WORD == 0)
  {
  }

  method StrCpy(mem: array<byte>, dest: nat, src: nat)
    requires WordReadable(mem[..], src)
    requires dest + |Str(mem[..], src)| + 1 <= mem.Length
    requires ForwardSafe(dest, src, |Str(mem[..], src)| + 1)
    modifies mem
    ensures mem[..] == Patched(old(mem[..]), dest, Str(old(mem[..]), src) + [0])
  {
    hide *;
    WordSize();
    ghost var m := mem[..];
    ghost var n := |Str(m, src)| + 1;
    ScanStart(m, src);
    TerminatedRoom(m, src);
    MovedNothing(m, dest, src);
    StringMoved(m, dest, src);
    var i := 0;
    while (src + i) % WORD != 0
      invariant i < n && mem[..] == Moved(m, dest, src, i)
      decreases n - i
    {
      CopiedByte(m, mem[..], dest, src, i);
      mem[dest + i] := mem[src + i];
      if mem[dest + i] == 0 {
        return;
      }
      i := i + 1;
    }
    AlignedIff(src + i);
    while true
      invariant i < n && mem[..] == Moved(m, dest, src, i) && Aligned(src + i)
      decreases n - i
    {
      AlignedWordInMemory(m, src, i);
      var w := LoadAligned(mem, src + i);
      if HasZero(w) {
        break;
      }
      CopiedWord(m, mem[..], dest, src, i, w);
      Store(mem, dest + i, w);
      AlignedNext(src + i);
      i := i + WORD;
    }
    while true
      invariant i < n && mem[..] == Moved(m, dest, src, i)
      decreases n - i
    {
      CopiedByte(m, mem[..], dest, src, i);
      mem[dest + i] := mem[src + i];
      if mem[dest + i] == 0 {
        break;
      }
      i := i + 1;
    }
  }

  lemma TerminatedRoom(m: seq<byte>, s: nat)
    requires Terminated(m, s)
    ensures s + |Str(m, s)| + 1 <= |m|
  {
  }

  /** Moving a string with its terminator writes the string and a zero byte. */
  lemma StringMoved(m: seq<byte>, d: nat, s: nat)
    requires Terminated(m, s) && d + |Str(m, s)| + 1 <= |m|
    ensures Moved(m, d, s, |Str(m, s)| + 1) == Patched(m, d, Str(m, s) + [0])
  {
    hide Str;
    StrSlice(m, s);
    assert m[s..s + |Str(m, s)| + 1] == m[s..s + |Str(m, s)|] + [m[s + |Str(m, s)|]];
  }

  /** While copying upwards, the next source byte is still that of the string. */
  lemma CopiedByte(m: seq<byte>, t: seq<byte>, d: nat, s: nat, i: nat)
    requires Terminated(m, s) && i <= |Str(m, s)| && d + |Str(m, s)| + 1 <= |m|
    requires ForwardSafe(d, s, |Str(m, s)| + 1)
    requires t == Moved(m, d, s, i)
    ensures |t| == |m| && s + i < |m| && t[s + i] == m[s + i]
    ensures t[s + i] == 0 <==> i == |Str(m, s)|
    ensures t[d + i := t[s + i]] == Moved(m, d, s, i + 1)
  {
    hide *;
    var n := |Str(m, s)| + 1;
    TerminatedRoom(m, s);
    ForwardOne(m, t, d, s, n, i);
    ForwardUnread(m, t, d, s, n, i);
    StrAt(m, s, i);
    assert t[s + i] == t[s + i..s + n][0] == m[s + i..s + n][0];
  }

  lemma CopiedWord(m: seq<byte>, t: seq<byte>, d: nat, s: nat, i: nat, w: bv64)
    requires Terminated(m, s) && i <= |Str(m, s)| && d + |Str(m, s)| + 1 <= |m|
    requires ForwardSafe(d, s, |Str(m, s)| + 1)
    requires t == Moved(m, d, s, i)
    requires s + i + WORD <= |t| && Bytes(w) == t[s + i..s + i + WORD] && !HasZero(w)
    ensures i + WORD <= |Str(m, s)|
    ensures Patched(t, d + i, Bytes(w)) == Moved(m, d, s, i + WORD)
  {
    hide *;
    var n := |Str(m, s)|;
    HasZeroIff(w);
    TerminatedRoom(m, s);
    CopiedByte(m, t, d, s, i);
    ForwardUnread(m, t, d, s, n + 1, i);
    StrAt(m, s, n);
    assert t[s + n] == t[s + i..s + n + 1][n - i] == m[s + i..s + n + 1][n - i] == 0;
    ZeroInside(t, s + i, WORD, s + n);
    ForwardWord(m, t, d, s, n + 1, i);
  }

  lemma ZeroInside(t: seq<byte>, lo: nat, k: nat, p: nat)
    requires lo <= p < |t| && lo + k <= |t| && t[p] == 0
    ensures p < lo + k ==> 0 in t[lo..lo + k]
  {
    if p < lo + k {
      assert t[lo..lo + k][p - lo] == 0;
    }
  }

  function Min(x: nat, y: nat): (z: nat)
    ensures z <= x && z <= y && (z == x || z == y)
  {
    if x < y then x else y
  }

  /** The part of a string that fits a buffer of size bytes next to a terminator. */
  function Fitting(s: seq<byte>, size: nat): (r: seq<byte>)
    requires 1 <= size
    ensures |r| <= |s| && |r| < size
  {
    s[..Min(|s|, size - 1)]
  }

  /** No byte written below size reaches the string at src, its terminator included. */
  predicate Apart(m: seq<byte>, dest: nat, size: nat, src: nat) {
    dest + size <= src || src + |Str(m, src)| + 1 <= dest
  }

  method StrLCpy(mem: array<byte>, dest: nat, src: nat, size: nat) returns (r: nat)
    requires Terminated(mem[..], src) && dest + size <= mem.Length && Apart(mem[..], dest, size, src)
    modifies mem
    ensures r == |Str(old(mem[..]), src)|
    ensures size == 0 ==> mem[..] == old(mem[..])
    ensures 1 <= size ==> mem[..] == Patched(old(mem[..]), dest, Fitting(Str(old(mem[..]), src), size) + [0])
  {
    hide *;
    ghost var m := mem[..];
    ghost var a := Str(m, src);
    PatchedNothing(m, dest, a);
    var d: nat, s: nat, n: nat := dest, src, size;
    if n != 0 {
      n := n - 1;
      while n != 0
        invariant d - dest == s - src <= |a| && n + (d - dest) == size - 1
        invariant mem[..] == Patched(m, dest, a[..d - dest])
      {
        CopiedChar(m, mem[..], dest, size, src, d - dest);
        mem[d] := mem[s];
        d, s := d + 1, s + 1;
        if mem[d - 1] == 0 {
          FittingWhole(a, size);
          return s - src - 1;
        }
        n := n - 1;
      }
    }
    if size != 0 {
      CutChar(m, mem[..], dest, size, a);
      mem[d] := 0;
    }
    PatchedOutside(m, mem[..], dest, size, a);
    r := CountRest(mem, m, dest, size, src, s - src);
    r := r - 1;
  }

  /** The loop that runs past the terminator of the source, from offset from on. */
  method CountRest(mem: array<byte>, ghost m: seq<byte>, ghost dest: nat, ghost size: nat, src: nat, from: nat)
    returns (i: nat)
    requires |m| == mem.Length && Terminated(m, src) && from <= |Str(m, src)|
    requires dest + size <= |m| && Apart(m, dest, size, src) && SameOutside(m, mem[..], dest, size)
    ensures i == |Str(m, src)| + 1
  {
    hide *;
    i := from;
    SourceChar(m, mem[..], dest, size, src, i);
    while mem[src + i] != 0
      invariant i <= |Str(m, src)| && src + i < mem.Length
      invariant mem[src + i] == 0 <==> i == |Str(m, src)|
      decreases |Str(m, src)| - i
    {
      i := i + 1;
      SourceChar(m, mem[..], dest, size, src, i);
    }
    i := i + 1;
  }

  /** t is m with changes only in the size bytes from dest on. */
  predicate SameOutside(m: seq<byte>, t: seq<byte>, dest: nat, size: nat)
    requires dest + size <= |m|
  {
    |t| == |m| && t[..dest] == m[..dest] && t[dest + size..] == m[dest + size..]
  }

  lemma SourceChar(m: seq<byte>, t: seq<byte>, dest: nat, size: nat, src: nat, i: nat)
    requires Terminated(m, src) && i <= |Str(m, src)|
    requires dest + size <= |m| && Apart(m, dest, size, src) && SameOutside(m, t, dest, size)
    ensures |t| == |m| && src + i < |m| && t[src + i] == m[src + i]
    ensures t[src + i] == 0 <==> i == |Str(m, src)|
    ensures i < |Str(m, src)| ==> t[src + i] == Str(m, src)[i]
  {
    StrAt(m, src, i);
    SourceByte(m, t, dest, size, src + i);
  }

  lemma PatchedNothing(m: seq<byte>, d: nat, a: seq<byte>)
    requires d <= |m|
    ensures Patched(m, d, a[..0]) == m
  {
  }

  /** Copying the next character of a string, which may be its terminator. */
  lemma CopiedChar(m: seq<byte>, t: seq<byte>, dest: nat, size: nat, src: nat, i: nat)
    requires Terminated(m, src) && i <= |Str(m, src)|
    requires i < size && dest + size <= |m| && Apart(m, dest, size, src)
    requires t == Patched(m, dest, Str(m, src)[..i])
    ensures |t| == |m| && src + i < |m|
    ensures t[src + i] == 0 <==> i == |Str(m, src)|
    ensures t[src + i] != 0 ==> t[dest + i := t[src + i]] == Patched(m, dest, Str(m, src)[..i + 1])
    ensures t[src + i] == 0 ==> t[dest + i := t[src + i]] == Patched(m, dest, Str(m, src) + [0])
  {
    hide Str, Apart;
    var a := Str(m, src);
    PatchedOutsideOf(m, dest, a[..i], size);
    SourceChar(m, t, dest, size, src, i);
    PatchedLonger(m, dest, a[..i], t[src + i]);
    if i < |a| {
      assert a[..i + 1] == a[..i] + [a[i]];
    } else {
      assert a[..i] == a;
    }
  }

  lemma PatchedLonger(m: seq<byte>, d: nat, a: seq<byte>, c: byte)
    requires d + |a| + 1 <= |m|
    ensures Patched(m, d, a)[d + |a| := c] == Patched(m, d, a + [c])
  {
  }

  lemma PatchedOutsideOf(m: seq<byte>, d: nat, a: seq<byte>, size: nat)
    requires |a| <= size && d + size <= |m|
    ensures SameOutside(m, Patched(m, d, a), d, size)
  {
  }

  lemma FittingWhole(a: seq<byte>, size: nat)
    requires |a| < size
    ensures Fitting(a, size) == a
  {
  }

  lemma CutChar(m: seq<byte>, t: seq<byte>, dest: nat, size: nat, a: seq<byte>)
    requires 1 <= size && size - 1 <= |a| && dest + size <= |m|
    requires t == Patched(m, dest, a[..size - 1])
    ensures t[dest + size - 1 := 0] == Patched(m, dest, Fitting(a, size) + [0])
  {
    PatchedLonger(m, dest, a[..size - 1], 0);
  }

  lemma PatchedOutside(m: seq<byte>, t: seq<byte>, dest: nat, size: nat, a: seq<byte>)
    requires dest + size <= |m|
    requires (size == 0 && t == m) || (1 <= size && t == Patched(m, dest, Fitting(a, size) + [0]))
    ensures SameOutside(m, t, dest, size)
  {
    if 1 <= size {
      PatchedOutsideOf(m, dest, Fitting(a, size) + [0], size);
    }
  }

  /** The length strlcat sees at dest: it looks at no more than size characters. */
  function SeenLength(m: seq<byte>, dest: nat, size: nat): (n: nat)
    ensures n <= size && n <= |Str(m, dest)|
  {
    Min(|Str(m, dest)|, size)
  }

  method StrLCat(mem: array<byte>, dest: nat, src: nat, size: nat) returns (r: nat)
    requires Terminated(mem[..], src) && dest + size <= mem.Length && Apart(mem[..], dest, size, src)
    requires SeenLength(mem[..], dest, size) == size ==> WordReadable(mem[..], src)
    modifies mem
    ensures var m := old(mem[..]);
            var dlen := SeenLength(m, dest, size);
            && r == dlen + |Str(m, src)|
            && (dlen == size ==> mem[..] == m)
            && (dlen < size ==> mem[..] == Patched(m, dest + dlen, Fitting(Str(m, src), size - dlen) + [0]))
  {
    hide *;
    ghost var m := mem[..];
    var d: nat, n: nat := dest, size;
    SeenStart(m, dest, size);
    while n != 0 && mem[d] != 0
      invariant d + n == dest + size && mem[..] == m
      invariant d - dest <= SeenLength(m, dest, size)
    {
      SeenMore(m, dest, size, d - dest);
      d, n := d + 1, n - 1;
    }
    SeenDone(m, dest, size, d - dest);
    var dlen := d - dest;
    if n == 0 {
      var l := StrLen(mem, src);
      return dlen + l;
    }
    ApartLater(m, dest, size, src, dlen);
    r := Append(mem, d, n, src);
    r := dlen + r;
  }

  /** The copying loop of strlcat after i source characters, j of them copied. */
  ghost predicate Appending(m: seq<byte>, t: seq<byte>, at: nat, room: nat, src: nat, j: nat, i: nat) {
    && Terminated(m, src) && 1 <= room && at + room <= |m| && Apart(m, at, room, src)
    && i <= |Str(m, src)| && j == Min(i, room - 1)
    && t == Patched(m, at, Str(m, src)[..j])
  }

  lemma AppendingStart(m: seq<byte>, at: nat, room: nat, src: nat)
    requires Terminated(m, src) && 1 <= room && at + room <= |m| && Apart(m, at, room, src)
    ensures Appending(m, m, at, room, src, 0, 0)
  {
    PatchedNothing(m, at, Str(m, src));
  }

  lemma AppendingChar(m: seq<byte>, t: seq<byte>, at: nat, room: nat, src: nat, j: nat, i: nat)
    requires Appending(m, t, at, room, src, j, i)
    ensures |t| == |m| && src + i < |m| && i <= |Str(m, src)| && j == Min(i, room - 1)
    ensures t[src + i] == 0 <==> i == |Str(m, src)|
    ensures t == Patched(m, at, Str(m, src)[..j])
  {
    hide Str, Apart, Terminated;
    PatchedOutsideOf(m, at, Str(m, src)[..j], room);
    SourceChar(m, t, at, room, src, i);
  }

  lemma AppendingStep(m: seq<byte>, t: seq<byte>, at: nat, room: nat, src: nat, j: nat, i: nat)
    requires Appending(m, t, at, room, src, j, i) && i < |Str(m, src)|
    ensures |t| == |m| && src + i < |m|
    ensures j < room - 1 ==> Appending(m, t[at + j := t[src + i]], at, room, src, j + 1, i + 1)
    ensures j == room - 1 ==> Appending(m, t, at, room, src, j, i + 1)
  {
    hide Str, Apart, Terminated, Patched;
    AppendingChar(m, t, at, room, src, j, i);
    if j < room - 1 {
      CopiedChar(m, t, at, room, src, i);
    }
  }

  /** The copying loop of strlcat: as much of the source as fits room bytes, and a terminator. */
  method Append(mem: array<byte>, at: nat, room: nat, src: nat) returns (l: nat)
    requires Terminated(mem[..], src) && 1 <= room && at + room <= mem.Length && Apart(mem[..], at, room, src)
    modifies mem
    ensures l == |Str(old(mem[..]), src)|
    ensures mem[..] == Patched(old(mem[..]), at, Fitting(Str(old(mem[..]), src), room) + [0])
  {
    hide *;
    ghost var m := mem[..];
    ghost var b := Str(m, src);
    var d: nat, s: nat, n: nat := at, src, room;
    PatchedNothing(m, at, b);
    AppendingStart(m, at, room, src);
    AppendingChar(m, m, at, room, src, 0, 0);
    while mem[s] != 0
      invariant at <= d && src <= s < mem.Length && 1 <= n && d + n == at + room
      invariant mem[s] == 0 <==> s - src == |b|
      invariant s - src <= |b|
      invariant Appending(m, mem[..], at, room, src, d - at, s - src)
      decreases |b| - (s - src)
    {
      AppendingStep(m, mem[..], at, room, src, d - at, s - src);
      if n != 1 {
        mem[d] := mem[s];
        d, n := d + 1, n - 1;
      }
      s := s + 1;
      AppendingChar(m, mem[..], at, room, src, d - at, s - src);
    }
    AppendingChar(m, mem[..], at, room, src, d - at, s - src);
    PatchedLonger(m, at, b[..d - at], 0);
    mem[d] := 0;
    FittingIs(b, room);
    l := s - src;
  }

  lemma SeenStart(m: seq<byte>, dest: nat, size: nat)
    ensures 0 <= SeenLength(m, dest, size)
  {
  }

  lemma SeenMore(m: seq<byte>, dest: nat, size: nat, i: nat)
    requires dest + size <= |m| && i < size && i <= SeenLength(m, dest, size) && m[dest + i] != 0
    ensures i + 1 <= SeenLength(m, dest, size)
  {
    StrAt(m, dest, i);
  }

  lemma SeenDone(m: seq<byte>, dest: nat, size: nat, i: nat)
    requires dest + size <= |m| && i <= SeenLength(m, dest, size)
    requires i == size || m[dest + i] == 0
    ensures i == SeenLength(m, dest, size)
  {
    StrAt(m, dest, i);
  }

  lemma ApartLater(m: seq<byte>, dest: nat, size: nat, src: nat, k: nat)
    requires k <= size && dest + size <= |m| && Apart(m, dest, size, src)
    ensures Apart(m, dest + k, size - k, src)
    ensures SameOutside(m, m, dest + k, size - k)
  {
  }

  lemma FittingIs(a: seq<byte>, size: nat)
    requires 1 <= size
    ensures Fitting(a, size) == a[..Min(|a|, size - 1)]
  {
  }

  /** Writing apart from a string leaves it as it was. */
  lemma StrElsewhere(m: seq<byte>, t: seq<byte>, dest: nat, size: nat, src: nat)
    requires Terminated(m, src) && dest + size <= |m| && Apart(m, dest, size, src) && SameOutside(m, t, dest, size)
    ensures Str(t, src) == Str(m, src) && Terminated(t, src) && Apart(t, dest, size, src)
  {
    hide Str;
    var n := |Str(m, src)|;
    StrSlice(m, src);
    SameElsewhere(m, t, dest, size, src, src + n);
    SourceByte(m, t, dest, size, src + n);
    StrUnique(t, src, n);
  }

  lemma SourceByte(m: seq<byte>, t: seq<byte>, dest: nat, size: nat, p: nat)
    requires dest + size <= |m| && SameOutside(m, t, dest, size)
    requires p < |m| && (p < dest || dest + size <= p)
    ensures |t| == |m| && t[p] == m[p]
  {
    if p < dest {
      assert t[p] == t[..dest][p] == m[..dest][p];
    } else {
      assert t[p] == t[dest + size..][p - dest - size] == m[dest + size..][p - dest - size];
    }
  }

  lemma SameElsewhere(m: seq<byte>, t: seq<byte>, dest: nat, size: nat, lo: nat, hi: nat)
    requires dest + size <= |m| && SameOutside(m, t, dest, size)
    requires lo <= hi <= |m| && (hi <= dest || dest + size <= lo)
    ensures |t| == |m| && t[lo..hi] == m[lo..hi]
  {
    forall k | lo <= k < hi ensures t[k] == m[k] {
      SourceByte(m, t, dest, size, k);
    }
  }

  /** A string just written is read back. */
  lemma StrWritten(m: seq<byte>, d: nat, a: seq<byte>)
    requires 0 !in a && d + |a| + 1 <= |m|
    ensures Str(Patched(m, d, a + [0]), d) == a && Terminated(Patched(m, d, a + [0]), d)
  {
    var t := Patched(m, d, a + [0]);
    assert t[d..d + |a|] == a && t[d + |a|] == 0;
    StrUnique(t, d, |a|);
  }

  lemma FittingTwice(a: seq<byte>, b: seq<byte>, size: nat)
    requires 1 <= size
    ensures Fitting(a + b, size) == Fitting(a, size) + Fitting(b, size - |Fitting(a, size)|)
  {
    if |a| < size - 1 {
      assert (a + b)[..Min(|a| + |b|, size - 1)] == a + b[..Min(|b|, size - 1 - |a|)];
    } else {
      assert (a + b)[..size - 1] == a[..size - 1];
    }
  }

  lemma PatchedTwice(m: seq<byte>, d: nat, a: seq<byte>, c: seq<byte>)
    requires d + |a| + 1 <= |m| && d + |a| + |c| <= |m| && 1 <= |c|
    ensures Patched(Patched(m, d, a + [0]), d + |a|, c) == Patched(m, d, a + c)
  {
  }

  /** What strlcpy followed by strlcat leaves in a buffer of size bytes: as much of the
      concatenation as fits. A returned length of at least size tells that the call cut something. */
  method CopyThenConcat(mem: array<byte>, dest: nat, first: nat, second: nat, size: nat)
    returns (copied: nat, joined: nat)
    requires 1 <= size && dest + size <= mem.Length
    requires Terminated(mem[..], first) && Apart(mem[..], dest, size, first)
    requires Terminated(mem[..], second) && Apart(mem[..], dest, size, second)
    modifies mem
    ensures var a, b := Str(old(mem[..]), first), Str(old(mem[..]), second);
            && mem[..] == Patched(old(mem[..]), dest, Fitting(a + b, size) + [0])
            && (copied >= size <==> Fitting(a, size) != a)
            && (joined >= size <==> Fitting(a, size) + b != Fitting(a + b, size))
  {
    hide *;
    ghost var m := mem[..];
    ghost var a, b := Str(m, first), Str(m, second);
    ghost var f := Fitting(a, size);
    copied := StrLCpy(mem, dest, first, size);
    ghost var t := mem[..];
    StrSlice(m, first);
    FittingClean(a, size);
    StrWritten(m, dest, f);
    PatchedOutsideOf(m, dest, f + [0], size);
    StrElsewhere(m, t, dest, size, second);
    SeenAll(t, dest, size);
    joined := StrLCat(mem, dest, second, size);
    FittingTwice(a, b, size);
    PatchedTwice(m, dest, f, Fitting(b, size - |f|) + [0]);
    assert f + (Fitting(b, size - |f|) + [0]) == f + Fitting(b, size - |f|) + [0];
    FittingCuts(a, size);
    FittingCuts(b, size - |f|);
    SamePrefix(f, b, Fitting(b, size - |f|));
  }

  lemma SeenAll(t: seq<byte>, d: nat, size: nat)
    requires |Str(t, d)| < size
    ensures SeenLength(t, d, size) == |Str(t, d)| < size
  {
  }

  lemma FittingClean(a: seq<byte>, size: nat)
    requires 1 <= size && 0 !in a
    ensures 0 !in Fitting(a, size)
  {
  }

  lemma FittingCuts(a: seq<byte>, size: nat)
    requires 1 <= size
    ensures |a| >= size <==> Fitting(a, size) != a
    ensures |Fitting(a, size)| == Min(|a|, size - 1)
  {
  }

  /** The second operand of strcmp need not be aligned: it can be loaded wherever the first one still
      has a whole word and both agree so far. */
  ghost predicate SecondReadable(m: seq<byte>, s1: nat, s2: nat) {
    forall i: nat :: i + WORD <= |Str(m, s1)| && Aligned(s1 + i) && Common(m, s1, s2, i) ==> s2 + i + WORD <= |m|
  }

  /** The first i characters of both strings are equal. */
  ghost predicate Common(m: seq<byte>, s1: nat, s2: nat, i: nat) {
    i <= |Str(m, s1)| && i <= |Str(m, s2)| && Str(m, s1)[..i] == Str(m, s2)[..i]
  }

  lemma CommonByte(m: seq<byte>, s1: nat, s2: nat, i: nat)
    requires Terminated(m, s1) && Terminated(m, s2) && Common(m, s1, s2, i)
    ensures s1 + i < |m| && s2 + i < |m|
    ensures m[s1 + i] == m[s2 + i] != 0 ==> Common(m, s1, s2, i + 1) && i < |Str(m, s1)|
    ensures m[s1 + i] != m[s2 + i] || m[s1 + i] == 0 ==>
              StrCompared(Str(m, s1), Str(m, s2)) == ByteDiff(m[s1 + i], m[s2 + i])
  {
    hide Str, ByteDiff;
    var a, b := Str(m, s1), Str(m, s2);
    StrAt(m, s1, i);
    StrAt(m, s2, i);
    StrNComparedSkip(a, b, |a| + 1, i);
    if m[s1 + i] == m[s2 + i] != 0 {
      assert a[..i + 1] == a[..i] + [a[i]] && b[..i + 1] == b[..i] + [b[i]];
    }
    SelfDiff(m[s1 + i]);
  }

  lemma SelfDiff(x: byte)
    ensures ByteDiff(x, x) == 0
  {
  }

  lemma CommonStart(m: seq<byte>, s1: nat, s2: nat)
    ensures Common(m, s1, s2, 0)
  {
  }

  lemma CommonWord(m: seq<byte>, s1: nat, s2: nat, i: nat, w: bv64)
    requires Terminated(m, s1) && Terminated(m, s2) && Common(m, s1, s2, i)
    requires s1 + i + WORD <= |m| && s2 + i + WORD <= |m| && !HasZero(w)
    requires Bytes(w) == m[s1 + i..s1 + i + WORD] == m[s2 + i..s2 + i + WORD]
    ensures Common(m, s1, s2, i + WORD)
  {
    hide Str, Bytes, HasZero;
    var a, b := Str(m, s1), Str(m, s2);
    ScanWord(m, s1, i, w);
    ScanWord(m, s2, i, w);
    StrSlice(m, s1);
    StrSlice(m, s2);
    SliceFront(m, s1, |a|, i);
    SliceFront(m, s2, |b|, i);
    SliceFront(m, s1, |a|, i + WORD);
    SliceFront(m, s2, |b|, i + WORD);
    assert m[s1..s1 + i + WORD] == m[s1..s1 + i] + m[s1 + i..s1 + i + WORD];
    assert m[s2..s2 + i + WORD] == m[s2..s2 + i] + m[s2 + i..s2 + i + WORD];
  }

  lemma SecondWord(m: seq<byte>, s1: nat, s2: nat, i: nat, w: bv64)
    requires SecondReadable(m, s1, s2) && Common(m, s1, s2, i) && Aligned(s1 + i)
    requires s1 + i + WORD <= |m| && Bytes(w) == m[s1 + i..s1 + i + WORD] && !HasZero(w)
    ensures s2 + i + WORD <= |m| && i + WORD <= |Str(m, s1)|
  {
    hide Str, Bytes, HasZero;
    ScanWord(m, s1, i, w);
  }

  lemma CommonBounds(m: seq<byte>, s1: nat, s2: nat, i: nat)
    requires Common(m, s1, s2, i)
    ensures i <= |Str(m, s1)|
  {
  }

  method StrCmp(mem: array<byte>, s1: nat, s2: nat) returns (r: int)
    requires WordReadable(mem[..], s1) && Terminated(mem[..], s2) && SecondReadable(mem[..], s1, s2)
    ensures r == StrCompared(Str(mem[..], s1), Str(mem[..], s2))
  {
    hide *;
    WordSize();
    ghost var m := mem[..];
    ScanStart(m, s1);
    CommonStart(m, s1, s2);
    var i := 0;
    while (s1 + i) % WORD != 0
      invariant Common(m, s1, s2, i) && i <= |Str(m, s1)|
      decreases |Str(m, s1)| - i
    {
      CommonByte(m, s1, s2, i);
      if mem[s1 + i] != mem[s2 + i] {
        return ByteDiff(mem[s1 + i], mem[s2 + i]);
      }
      if mem[s1 + i] == 0 {
        SelfDiff(0);
        return 0;
      }
      i := i + 1;
      CommonBounds(m, s1, s2, i);
    }
    AlignedIff(s1 + i);
    while true
      invariant Common(m, s1, s2, i) && i <= |Str(m, s1)| && Aligned(s1 + i)
      decreases |Str(m, s1)| - i
    {
      AlignedWordInMemory(m, s1, i);
      var w1 := LoadAligned(mem, s1 + i);
      if HasZero(w1) {
        break;
      }
      SecondWord(m, s1, s2, i, w1);
      var w2 := Load(mem, s2 + i);
      if w1 != w2 {
        break;
      }
      CommonWord(m, s1, s2, i, w1);
      AlignedNext(s1 + i);
      i := i + WORD;
      CommonBounds(m, s1, s2, i);
    }
    CommonByte(m, s1, s2, i);
    while mem[s1 + i] != 0 && mem[s1 + i] == mem[s2 + i]
      invariant Common(m, s1, s2, i) && i <= |Str(m, s1)|
      invariant s1 + i < mem.Length && s2 + i < mem.Length
      decreases |Str(m, s1)| - i
    {
      CommonByte(m, s1, s2, i);
      i := i + 1;
      CommonBounds(m, s1, s2, i);
      CommonByte(m, s1, s2, i);
    }
    CommonByte(m, s1, s2, i);
    r := ByteDiff(mem[s1 + i], mem[s2 + i]);
  }
}
