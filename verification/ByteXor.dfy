// Bytes and their exclusive or.

module ByteXor {

  newtype byte = x: int | 0 <= x < 256

  function XorByte(x: byte, y: byte): byte { ((x as bv8) ^ (y as bv8)) as byte }

  lemma Successor(y: bv8)
    requires y != 255
    ensures (y + 1) as byte == y as byte + 1
  {
  }

  lemma {:induction false} BitsExist(x: byte) returns (y: bv8)
    ensures y as byte == x
  {
    if x == 0 {
      y := 0;
    } else {
      var z := BitsExist(x - 1);
      assert z != 255;
      Successor(z);
      y := z + 1;
    }
  }

  lemma ByteOfBits(x: byte)
    ensures (x as bv8) as byte == x
  {
    var y := BitsExist(x);
    BitsOfByte(y);
  }

  lemma BitsOfByte(x: bv8)
    ensures (x as byte) as bv8 == x
  {
  }

  lemma BitsTwice(x: bv8, y: bv8)
    ensures x ^ (x ^ y) == y && x ^ y == y ^ x
  {
  }

  lemma XorByteTwice(x: byte, y: byte)
    ensures XorByte(x, XorByte(x, y)) == y
    ensures XorByte(x, y) == XorByte(y, x)
  {
    ByteOfBits(y);
    BitsOfByte((x as bv8) ^ (y as bv8));
    BitsTwice(x as bv8, y as bv8);
  }

  lemma XorOfBits(a: byte, b: byte, x: bv8, y: bv8)
    requires a as bv8 == x && b as bv8 == y
    ensures XorByte(a, b) == (x ^ y) as byte
  {
  }
}
