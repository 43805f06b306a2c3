/** Types shared by the memory, string and network modules. */
module Basics {
  type byte = bv8

  datatype Option<+T> = None | Some(value: T)

  lemma ByteSuccessor(b: byte)
    ensures (0 as byte) as int == 0
    ensures b == 255 ==> b as int == 255
    ensures b != 255 ==> (b + 1) as int == b as int + 1
  {
  }

  /** Every number below 256 is that of a byte. */
  lemma {:induction false} ByteWith(v: nat) returns (b: byte)
    requires v < 256
    ensures b as int == v
  {
    if v == 0 {
      b := 0;
      ByteSuccessor(b);
    } else {
      b := ByteWith(v - 1);
      ByteSuccessor(b);
      b := b + 1;
    }
  }

  lemma ByteValue(v: nat)
    requires v < 256
    ensures (v as byte) as int == v
  {
    var b := ByteWith(v);
    assert b as int as byte == b;
  }
}
