/** mem_op.cpp: memset, memcpy, memcmp and memmove over one byte-addressed memory. A pointer is an
    index, so alignment and overlap are those of the addresses. */
module MemOp {
  import opened Basics
  import opened Block
  import opened Compare
  import opened Word

  /** The bytes needed to bring p up to a word boundary: -p modulo 8. */
  function ToAlign(p: nat): (r: nat)
    ensures r < WORD && Aligned(p + r)
  {
    (-(p as int)) % WORD
  }

  /** The copying loops shared by memcpy and the upward half of memmove: bytes until d is aligned,
      then words, then the remaining bytes. */
  method CopyUp(mem: array<byte>, dest: nat, src: nat, n: nat)
    requires dest + n <= mem.Length && src + n <= mem.Length && ForwardSafe(dest, src, n)
    modifies mem
    ensures mem[..] == Moved(old(mem[..]), dest, src, n)
  {
    hide *;
    WordSize();
    ghost var m := mem[..];
    var d: nat, s: nat, count: nat := dest, src, n;
    MovedNothing(m, d, s);
    if count >= 8 {
      var align: nat := ToAlign(d);
      count := count - align;
      while align > 0
        invariant d + align + count == dest + n && s + align + count == src + n
        invariant Aligned(d + align)
        invariant mem[..] == Moved(m, dest, src, n - align - count)
      {
        ForwardOne(m, mem[..], dest, src, n, n - align - count);
        mem[d] := mem[s];
        align, d, s := align - 1, d + 1, s + 1;
      }
      while count >= WORD
        invariant d + count == dest + n && s + count == src + n
        invariant Aligned(d)
        invariant mem[..] == Moved(m, dest, src, n - count)
      {
        ForwardWord(m, mem[..], dest, src, n, n - count);
        var w := Load(mem, s);
        StoreAligned(mem, d, w);
        AlignedNext(d);
        d, s, count := d + WORD, s + WORD, count - WORD;
      }
    }
    while count > 0
      invariant d + count == dest + n && s + count == src + n
      invariant mem[..] == Moved(m, dest, src, n - count)
    {
      ForwardOne(m, mem[..], dest, src, n, n - count);
      mem[d] := mem[s];
      d, s, count := d + 1, s + 1, count - 1;
    }
  }

  /** The downward half of memmove: from the far end, bytes until d is aligned, words, bytes. */
  method CopyDown(mem: array<byte>, dest: nat, src: nat, n: nat)
    requires dest + n <= mem.Length && src + n <= mem.Length && src < dest
    modifies mem
    ensures mem[..] == Moved(old(mem[..]), dest, src, n)
  {
    hide *;
    WordSize();
    ghost var m := mem[..];
    var d: nat, s: nat, count: nat := dest + n, src + n, n;
    MovedNothing(m, d, s);
    if count >= 8 {
      var align: nat := d % WORD;
      AlignedDown(d);
      count := count - align;
      while align > 0
        invariant d == dest + count + align && s - src == d - dest && d <= dest + n
        invariant Aligned(d - align)
        invariant mem[..] == Moved(m, d, s, dest + n - d)
      {
        BackwardOne(m, mem[..], dest, src, n, d, s);
        align, d, s := align - 1, d - 1, s - 1;
        mem[d] := mem[s];
      }
      while count >= WORD
        invariant d == dest + count && s - src == d - dest && d <= dest + n
        invariant Aligned(d)
        invariant mem[..] == Moved(m, d, s, dest + n - d)
      {
        BackwardWord(m, mem[..], dest, src, n, d, s);
        AlignedPrevious(d);
        d, s, count := d - WORD, s - WORD, count - WORD;
        var w := Load(mem, s);
        StoreAligned(mem, d, w);
      }
    }
    while count > 0
      invariant d == dest + count && s - src == d - dest && d <= dest + n
      invariant mem[..] == Moved(m, d, s, dest + n - d)
    {
      BackwardOne(m, mem[..], dest, src, n, d, s);
      d, s, count := d - 1, s - 1, count - 1;
      mem[d] := mem[s];
    }
  }

  /** No condition on overlap or alignment. */
  method MemMove(mem: array<byte>, dest: nat, src: nat, count: nat)
    requires dest + count <= mem.Length && src + count <= mem.Length
    modifies mem
    ensures mem[..] == Moved(old(mem[..]), dest, src, count)
  {
    hide *;
    if dest == src || count == 0 {
      if dest == src {
        MovedToItself(mem[..], dest, count);
      } else {
        MovedNothing(mem[..], dest, src);
      }
      return;
    }
    if dest > src && dest < src + count {
      CopyDown(mem, dest, src, count);
    } else {
      ForwardSafeIff(dest, src, count);
      CopyUp(mem, dest, src, count);
    }
  }

  method MemCpy(mem: array<byte>, dest: nat, src: nat, count: nat)
    requires dest + count <= mem.Length && src + count <= mem.Length && ForwardSafe(dest, src, count)
    modifies mem
    ensures mem[..] == Moved(old(mem[..]), dest, src, count)
  {
    CopyUp(mem, dest, src, count);
  }

  lemma MovedWord(m: seq<byte>, d: nat, s: nat)
    requires d + WORD <= |m| && s + WORD <= |m|
    ensures Moved(m, d, s, WORD) == Patched(m, d, m[s..s + WORD])
  {
  }

  /** One word load and store of an upward copying loop; the word may overlap its own destination. */
  lemma ForwardWord(m: seq<byte>, t: seq<byte>, d: nat, s: nat, n: nat, i: nat)
    requires d + n <= |m| && s + n <= |m| && i + WORD <= n && ForwardSafe(d, s, n)
    requires t == Moved(m, d, s, i)
    ensures Patched(t, d + i, t[s + i..s + i + WORD]) == Moved(m, d, s, i + WORD)
  {
    hide *;
    MovedWord(t, d + i, s + i);
    ForwardStep(m, t, d, s, n, i, WORD);
  }

  lemma BackwardWord(m: seq<byte>, t: seq<byte>, d: nat, s: nat, n: nat, e: nat, f: nat)
    requires d + n <= |m| && s + n <= |m| && d + WORD <= e <= d + n && f - s == e - d && s < d
    requires t == Moved(m, e, f, d + n - e)
    ensures Patched(t, e - WORD, t[f - WORD..f]) == Moved(m, e - WORD, f - WORD, d + n - (e - WORD))
  {
    hide *;
    MovedWord(t, e - WORD, f - WORD);
    BackwardStep(m, t, d, s, n, e - d, WORD);
  }

  lemma AlignedNext(p: nat)
    requires Aligned(p)
    ensures Aligned(p + WORD)
  {
  }

  lemma AlignedPrevious(p: nat)
    requires Aligned(p) && WORD <= p
    ensures Aligned(p - WORD)
  {
  }

  lemma AlignedDown(p: nat)
    ensures p % WORD < WORD && p % WORD <= p && Aligned(p - p % WORD)
  {
  }

  /** n copies of b. */
  function Filled(n: nat, b: byte): (s: seq<byte>)
    ensures |s| == n
  {
    seq(n, _ => b)
  }

  /** b in all eight bytes of a word. */
  function Pattern(b: byte): bv64 {
    var low := ((b as bv64) << 24) | ((b as bv64) << 16) | ((b as bv64) << 8) | (b as bv64);
    (low << 32) | low
  }

  lemma PatternBytes(b: byte)
    ensures Bytes(Pattern(b)) == Filled(WORD, b)
  {
  }

  lemma FillMore(m: seq<byte>, s: nat, i: nat, k: nat, b: byte)
    requires s + i + k <= |m|
    ensures Patched(Patched(m, s, Filled(i, b)), s + i, Filled(k, b)) == Patched(m, s, Filled(i + k, b))
  {
  }

  lemma FillOne(m: seq<byte>, s: nat, i: nat, b: byte)
    requires s + i + 1 <= |m|
    ensures Patched(m, s, Filled(i, b))[s + i := b] == Patched(m, s, Filled(i + 1, b))
  {
  }

  lemma FillNothing(m: seq<byte>, s: nat, b: byte)
    requires s <= |m|
    ensures Patched(m, s, Filled(0, b)) == m
  {
  }

  /** The conversion of an int to an unsigned byte, modulo 256. */
  function ToByte(c: int): byte {
    (c % 256) as byte
  }

  lemma ToByteValue(c: int)
    ensures ToByte(c) as int == c % 256
  {
    ByteValue(c % 256);
  }

  lemma FilledBytes(m: seq<byte>, s: nat, n: nat, b: byte)
    requires s + n <= |m|
    ensures var t := Patched(m, s, Filled(n, b));
            && |t| == |m|
            && (forall i :: s <= i < s + n ==> t[i] == b)
            && (forall i :: 0 <= i < |m| && !(s <= i < s + n) ==> t[i] == m[i])
  {
  }

  method MemSet(mem: array<byte>, s: nat, c: int, n: nat)
    requires s + n <= mem.Length
    modifies mem
    ensures mem[..] == Patched(old(mem[..]), s, Filled(n, ToByte(c)))
    ensures forall i :: s <= i < s + n ==> mem[i] as int == c % 256
    ensures forall i :: 0 <= i < mem.Length && !(s <= i < s + n) ==> mem[i] == old(mem[i])
  {
    hide *;
    WordSize();
    ghost var m := mem[..];
    var xs: nat, count: nat := s, n;
    var b := ToByte(c);
    ToByteValue(c);
    FilledBytes(m, s, n, b);
    FillNothing(m, s, b);
    if count < 8 {
      while count > 0
        invariant xs + count == s + n
        invariant mem[..] == Patched(m, s, Filled(n - count, b))
      {
        FillOne(m, s, n - count, b);
        mem[xs] := b;
        count, xs := count - 1, xs + 1;
      }
      return;
    }
    var align: nat := ToAlign(xs);
    count := count - align;
    while align > 0
      invariant xs + align + count == s + n && Aligned(xs + align)
      invariant mem[..] == Patched(m, s, Filled(n - align - count, b))
    {
      FillOne(m, s, n - align - count, b);
      mem[xs] := b;
      align, xs := align - 1, xs + 1;
    }
    var pattern := Pattern(b);
    PatternBytes(b);
    while count >= WORD
      invariant xs + count == s + n && Aligned(xs)
      invariant mem[..] == Patched(m, s, Filled(n - count, b))
    {
      FillMore(m, s, n - count, WORD, b);
      StoreAligned(mem, xs, pattern);
      AlignedNext(xs);
      count, xs := count - WORD, xs + WORD;
    }
    while count > 0
      invariant xs + count == s + n
      invariant mem[..] == Patched(m, s, Filled(n - count, b))
    {
      FillOne(m, s, n - count, b);
      mem[xs] := b;
      count, xs := count - 1, xs + 1;
    }
  }

  /** The difference of two bytes as ints, from -255 to 255. */
  function ByteDiff(x: byte, y: byte): int {
    x as int - y as int
  }

  /** What comparing two byte blocks means: the difference at the first byte that differs. */
  function Compared(a: seq<byte>, b: seq<byte>): int
    requires |a| == |b|
  {
    if a == [] then 0
    else if a[0] != b[0] then ByteDiff(a[0], b[0])
    else Compared(a[1..], b[1..])
  }

  /** Equal bytes in front do not count. */
  lemma {:induction false} ComparedSkip(a: seq<byte>, b: seq<byte>, k: nat)
    requires |a| == |b| && k <= |a| && a[..k] == b[..k]
    ensures Compared(a, b) == Compared(a[k..], b[k..])
  {
    if k == 0 {
      assert a[0..] == a && b[0..] == b;
    } else {
      assert a[0] == a[..k][0] == b[..k][0] == b[0];
      assert a[1..][..k - 1] == a[..k][1..] == b[..k][1..] == b[1..][..k - 1];
      ComparedSkip(a[1..], b[1..], k - 1);
      assert a[1..][k - 1..] == a[k..] && b[1..][k - 1..] == b[k..];
    }
  }

  lemma ComparedAt(a: seq<byte>, b: seq<byte>, k: nat)
    requires |a| == |b| && k < |a| && a[..k] == b[..k] && a[k] != b[k]
    ensures Compared(a, b) == a[k] as int - b[k] as int
  {
    ComparedSkip(a, b, k);
  }

  lemma ComparedEqual(a: seq<byte>, b: seq<byte>)
    requires a == b
    ensures Compared(a, b) == 0
  {
    ComparedSkip(a, b, |a|);
    assert a[|a|..] == [];
  }

  /** The two blocks at s1 and s2 agree in their first i bytes. */
  predicate Agree(m: seq<byte>, s1: nat, s2: nat, i: nat) {
    s1 + i <= |m| && s2 + i <= |m| && m[s1..s1 + i] == m[s2..s2 + i]
  }

  lemma AgreeNothing(m: seq<byte>, s1: nat, s2: nat)
    requires s1 <= |m| && s2 <= |m|
    ensures Agree(m, s1, s2, 0)
  {
  }

  lemma AgreeMore(m: seq<byte>, s1: nat, s2: nat, i: nat, k: nat)
    requires Agree(m, s1, s2, i) && s1 + i + k <= |m| && s2 + i + k <= |m|
    requires m[s1 + i..s1 + i + k] == m[s2 + i..s2 + i + k]
    ensures Agree(m, s1, s2, i + k)
  {
    assert m[s1..s1 + i + k] == m[s1..s1 + i] + m[s1 + i..s1 + i + k];
    assert m[s2..s2 + i + k] == m[s2..s2 + i] + m[s2 + i..s2 + i + k];
  }

  lemma AgreeOne(m: seq<byte>, s1: nat, s2: nat, i: nat)
    requires Agree(m, s1, s2, i) && s1 + i < |m| && s2 + i < |m| && m[s1 + i] == m[s2 + i]
    ensures Agree(m, s1, s2, i + 1)
  {
    AgreeMore(m, s1, s2, i, 1);
  }

  lemma AgreeDiffers(m: seq<byte>, s1: nat, s2: nat, i: nat, n: nat)
    requires Agree(m, s1, s2, i) && i < n && s1 + n <= |m| && s2 + n <= |m| && m[s1 + i] != m[s2 + i]
    ensures Compared(m[s1..s1 + n], m[s2..s2 + n]) == ByteDiff(m[s1 + i], m[s2 + i])
  {
    SliceFront(m, s1, n, i);
    SliceFront(m, s2, n, i);
    hide Compared;
    ComparedAt(m[s1..s1 + n], m[s2..s2 + n], i);
  }

  /** The byte loop that memcmp runs before the words, inside a differing word and after the words:
      offsets from..to of the blocks. */
  method CompareBytes(mem: array<byte>, cs: nat, ct: nat, from: nat, to: nat, ghost n: nat)
    returns (found: bool, r: int)
    requires cs + n <= mem.Length && ct + n <= mem.Length && from <= to <= n
    requires Agree(mem[..], cs, ct, from)
    ensures found ==> r == Compared(mem[..][cs..cs + n], mem[..][ct..ct + n])
    ensures !found ==> Agree(mem[..], cs, ct, to)
  {
    hide *;
    for i := from to to
      invariant Agree(mem[..], cs, ct, i)
    {
      if mem[cs + i] != mem[ct + i] {
        AgreeDiffers(mem[..], cs, ct, i, n);
        return true, ByteDiff(mem[cs + i], mem[ct + i]);
      }
      AgreeOne(mem[..], cs, ct, i);
    }
    return false, 0;
  }

  method MemCmp(mem: array<byte>, cs: nat, ct: nat, n: nat) returns (r: int)
    requires cs + n <= mem.Length && ct + n <= mem.Length
    ensures r == Compared(mem[..][cs..cs + n], mem[..][ct..ct + n])
  {
    hide *;
    WordSize();
    ghost var m := mem[..];
    var found;
    AgreeNothing(m, cs, ct);
    if n < 8 {
      found, r := CompareBytes(mem, cs, ct, 0, n, n);
      if !found {
        AgreeIsEqual(m, cs, ct, n);
        r := 0;
      }
      return;
    }
    var done: nat := ToAlign(cs);
    found, r := CompareBytes(mem, cs, ct, 0, done, n);
    if found {
      return;
    }
    while n - done >= WORD
      invariant done <= n && Aligned(cs + done)
      invariant Agree(m, cs, ct, done)
    {
      var w1 := LoadAligned(mem, cs + done);
      var w2 := Load(mem, ct + done);
      if w1 != w2 {
        found, r := CompareBytes(mem, cs, ct, done, done + WORD, n);
        if found {
          return;
        }
      } else {
        AgreeMore(m, cs, ct, done, WORD);
      }
      AlignedNext(cs + done);
      done := done + WORD;
    }
    found, r := CompareBytes(mem, cs, ct, done, n, n);
    if !found {
      AgreeIsEqual(m, cs, ct, n);
      r := 0;
    }
  }

  lemma AgreeIsEqual(m: seq<byte>, s1: nat, s2: nat, n: nat)
    requires Agree(m, s1, s2, n)
    ensures Compared(m[s1..s1 + n], m[s2..s2 + n]) == 0
  {
    ComparedEqual(m[s1..s1 + n], m[s2..s2 + n]);
  }

  /** A block of bytes as the numbers a comparison of unsigned bytes sees. */
  function Unsigned(s: seq<byte>): (r: seq<int>)
    ensures |r| == |s|
  {
    seq(|s|, i requires 0 <= i < |s| => s[i] as int)
  }

  /** memcmp orders blocks of equal length as lexicographical_compare does, and is 0 only for equal ones. */
  lemma {:induction false} ComparedIsLexicographic(a: seq<byte>, b: seq<byte>)
    requires |a| == |b|
    ensures Compared(a, b) < 0 <==> LexLess(Unsigned(a), Unsigned(b))
    ensures Compared(a, b) > 0 <==> LexLess(Unsigned(b), Unsigned(a))
    ensures Compared(a, b) == 0 <==> a == b
  {
    if a != [] {
      ByteOrder(a[0], b[0]);
      assert Unsigned(a)[1..] == Unsigned(a[1..]) && Unsigned(b)[1..] == Unsigned(b[1..]);
      assert a == [a[0]] + a[1..] && b == [b[0]] + b[1..];
      ComparedIsLexicographic(a[1..], b[1..]);
    }
  }

  lemma ByteOrder(x: byte, y: byte)
    ensures x as int == y as int <==> x == y
  {
  }
}
