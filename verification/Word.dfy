/** Bytes and 64-bit words, and the zero-byte test of string.cpp. */
module Word {
  import opened Basics
  import opened Block

  const WORD: nat := 8
  const ONES: bv64 := 0xFFFF_FFFF_FFFF_FFFF / 0xFF
  const HIGHS: bv64 := ONES * 0x80

  lemma WordSize()
    ensures WORD == 8
  {
  }

  /** The bytes of a word in memory order, least significant first. */
  function Bytes(w: bv64): (s: seq<byte>)
    ensures |s| == WORD
  {
    [(w & 0xFF) as byte, ((w >> 8) & 0xFF) as byte, ((w >> 16) & 0xFF) as byte, ((w >> 24) & 0xFF) as byte,
     ((w >> 32) & 0xFF) as byte, ((w >> 40) & 0xFF) as byte, ((w >> 48) & 0xFF) as byte, (w >> 56) as byte]
  }

  function FromBytes(s: seq<byte>): bv64
    requires |s| == WORD
  {
    (s[0] as bv64) | ((s[1] as bv64) << 8) | ((s[2] as bv64) << 16) | ((s[3] as bv64) << 24)
    | ((s[4] as bv64) << 32) | ((s[5] as bv64) << 40) | ((s[6] as bv64) << 48) | ((s[7] as bv64) << 56)
  }

  predicate HasZero(x: bv64) {
    (x - ONES) & !x & HIGHS != 0
  }

  lemma BytesOfFrom(s: seq<byte>)
    requires |s| == WORD
    ensures Bytes(FromBytes(s)) == s
  {
  }

  lemma HasZeroIff(w: bv64)
    ensures HasZero(w) <==> 0 in Bytes(w)
  {
  }

  /** An address the processor can use for a word access without crossing a word boundary. */
  predicate Aligned(p: nat) {
    p % WORD == 0
  }

  method Load(mem: array<byte>, p: nat) returns (w: bv64)
    requires p + WORD <= mem.Length
    ensures Bytes(w) == mem[..][p..p + WORD]
  {
    w := FromBytes(mem[p..p + WORD]);
    BytesOfFrom(mem[p..p + WORD]);
    assert mem[p..p + WORD] == mem[..][p..p + WORD];
  }

  method LoadAligned(mem: array<byte>, p: nat) returns (w: bv64)
    requires Aligned(p) && p + WORD <= mem.Length
    ensures Bytes(w) == mem[..][p..p + WORD]
  {
    w := Load(mem, p);
  }

  method Store(mem: array<byte>, p: nat, w: bv64)
    requires p + WORD <= mem.Length
    modifies mem
    ensures mem[..] == Patched(old(mem[..]), p, Bytes(w))
  {
    hide Bytes;
    var s := Bytes(w);
    forall i | 0 <= i < WORD {
      mem[p + i] := s[i];
    }
  }

  method StoreAligned(mem: array<byte>, p: nat, w: bv64)
    requires Aligned(p) && p + WORD <= mem.Length
    modifies mem
    ensures mem[..] == Patched(old(mem[..]), p, Bytes(w))
  {
    Store(mem, p, w);
  }
}
