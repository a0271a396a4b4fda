/** Bytes as numbers and as bit vectors. */
module ByteBits {
  import opened ByteType

  lemma ByteTwice(b: byte)
    ensures (b as bv8) as int == b
  {
    // by the size of the byte
    if b < 16 {
    } else if b < 32 {
    } else if b < 64 {
    } else if b < 128 {
    } else if b < 192 {
    }
  }

  lemma BitTwice(x: bv8)
    ensures (x as int) as bv8 == x
  {
  }
}
