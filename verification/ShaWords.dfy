/** What the functions of words in crypto/src/sha.cpp mean, section 4.1 of FIPS 180-4: the number that the
    bytes of a word spell, in a block and in a digest, the bits that the choice and the majority have, and
    where the sums of rotated words send single bits. Code and specification share these functions, so that
    nothing else would tell a wrong one. */
module ShaWords {
  import opened ByteType
  import opened ByteXor
  import opened BigEndianBytes
  import opened ShaFunctions
  import opened ShaDigest
  import opened ModArith
  import M = Magnitude
  import Counter

  /** A word is the number its bytes spell, high byte first. */
  lemma Word32Is(s: Bytes, i: nat)
    requires 4 * i + 4 <= |s|
    ensures Word32(s, i) == (s[4 * i] as bv32) * 0x100_0000 + (s[4 * i + 1] as bv32) * 0x1_0000
      + (s[4 * i + 2] as bv32) * 0x100 + (s[4 * i + 3] as bv32)
  {
  }

  /** Four bytes of a word of 64 bits. */
  function Half(b0: bv64, b1: bv64, b2: bv64, b3: bv64): bv64 {
    b0 * 0x100_0000 + b1 * 0x1_0000 + b2 * 0x100 + b3
  }

  /** The number that eight bytes spell, high byte first. */
  function Spelled64(b0: bv64, b1: bv64, b2: bv64, b3: bv64, b4: bv64, b5: bv64, b6: bv64, b7: bv64): bv64 {
    Half(b0, b1, b2, b3) * 0x1_0000_0000 + Half(b4, b5, b6, b7)
  }

  predicate Octet(b: bv64) { b < 0x100 }

  lemma HalfIs(b0: bv64, b1: bv64, b2: bv64, b3: bv64)
    requires b0 < 0x100 && b1 < 0x100 && b2 < 0x100 && b3 < 0x100
    ensures Half(b0, b1, b2, b3) == (b0 << 24) | (b1 << 16) | (b2 << 8) | b3
  {
  }

  lemma HalvesAre(high: bv64, low: bv64)
    requires low < 0x1_0000_0000
    ensures high * 0x1_0000_0000 + low == (high << 32) | low
  {
  }

  lemma HalvesJoin(b0: bv64, b1: bv64, b2: bv64, b3: bv64, b4: bv64, b5: bv64, b6: bv64, b7: bv64)
    requires b4 < 0x100 && b5 < 0x100 && b6 < 0x100 && b7 < 0x100
    ensures (((b0 << 24) | (b1 << 16) | (b2 << 8) | b3) << 32) | ((b4 << 24) | (b5 << 16) | (b6 << 8) | b7)
      == (b0 << 56) | (b1 << 48) | (b2 << 40) | (b3 << 32) | (b4 << 24) | (b5 << 16) | (b6 << 8) | b7
    ensures (b4 << 24) | (b5 << 16) | (b6 << 8) | b7 < 0x1_0000_0000
  {
  }

  lemma BytesAre64(b0: bv64, b1: bv64, b2: bv64, b3: bv64, b4: bv64, b5: bv64, b6: bv64, b7: bv64)
    requires Octet(b0) && Octet(b1) && Octet(b2) && Octet(b3) && Octet(b4) && Octet(b5) && Octet(b6) && Octet(b7)
    ensures Packed64(b0, b1, b2, b3, b4, b5, b6, b7) == Spelled64(b0, b1, b2, b3, b4, b5, b6, b7)
  {
    HalfIs(b0, b1, b2, b3);
    HalfIs(b4, b5, b6, b7);
    HalvesJoin(b0, b1, b2, b3, b4, b5, b6, b7);
    hide Half;
    HalvesAre(Half(b0, b1, b2, b3), Half(b4, b5, b6, b7));
  }

  lemma WideSmall(b: byte)
    ensures Octet(Wide(b))
  {
  }

  lemma Word64Is(s: Bytes, i: nat)
    requires 8 * i + 8 <= |s|
    ensures Word64(s, i) == Spelled64(
      Wide(s[8 * i]), Wide(s[8 * i + 1]), Wide(s[8 * i + 2]), Wide(s[8 * i + 3]),
      Wide(s[8 * i + 4]), Wide(s[8 * i + 5]), Wide(s[8 * i + 6]), Wide(s[8 * i + 7]))
  {
    hide Spelled64, Packed64, Wide, Octet;
    WideSmall(s[8 * i]);
    WideSmall(s[8 * i + 1]);
    WideSmall(s[8 * i + 2]);
    WideSmall(s[8 * i + 3]);
    WideSmall(s[8 * i + 4]);
    WideSmall(s[8 * i + 5]);
    WideSmall(s[8 * i + 6]);
    WideSmall(s[8 * i + 7]);
    BytesAre64(Wide(s[8 * i]), Wide(s[8 * i + 1]), Wide(s[8 * i + 2]), Wide(s[8 * i + 3]),
               Wide(s[8 * i + 4]), Wide(s[8 * i + 5]), Wide(s[8 * i + 6]), Wide(s[8 * i + 7]));
  }

  /** Where x has a one, the bits of y, elsewhere those of z. */
  lemma ChIs(x: bv32, y: bv32, z: bv32)
    ensures x & Ch(x, y, z) == x & y && !x & Ch(x, y, z) == !x & z
  {
  }

  /** The bits that two of the words have. */
  lemma MajIs(x: bv32, y: bv32, z: bv32)
    ensures Maj(x, y, z) == (x & y) | (x & z) | (y & z)
  {
  }

  lemma Ch64Is(x: bv64, y: bv64, z: bv64)
    ensures x & Ch64(x, y, z) == x & y && !x & Ch64(x, y, z) == !x & z
  {
  }

  lemma Maj64Is(x: bv64, y: bv64, z: bv64)
    ensures Maj64(x, y, z) == (x & y) | (x & z) | (y & z)
  {
  }

  lemma Spelled(v: nat, n: nat, m: nat)
    requires v < m == M.Scale(1, n)
    ensures M.Value(BigEndian(v, n)) == v
  {
    hide M.Value, M.Scale, BigEndian;
    BigEndianValue(v, n);
    ModUnique(v, 0, v, m);
  }

  /** The bytes of a word in a digest spell it, high byte first. */
  lemma Bytes32Is(x: bv32)
    ensures M.Value(Bytes32(x)) == x as nat
  {
    hide M.Value, M.Scale, BigEndian;
    Counter.FourBytes();
    Spelled(x as nat, 4, 0x1_0000_0000);
  }

  lemma Bytes64Is(x: bv64)
    ensures M.Value(Bytes64(x)) == x as nat
  {
    hide M.Value, M.Scale, BigEndian;
    Counter.EightBytes();
    Spelled(x as nat, 8, 0x1_0000_0000_0000_0000);
  }

  // ----- The sums of rotated words, at single bits -----

  lemma BigSigma0Bits()
    ensures BigSigma0(0x0000_0001) == 0x4008_0400
    ensures BigSigma0(0x8000_0000) == 0x2004_0200
  {
  }

  lemma BigSigma1Bits()
    ensures BigSigma1(0x0000_0001) == 0x0420_0080
    ensures BigSigma1(0x8000_0000) == 0x0210_0040
  {
  }

  lemma SmallSigma0Bits()
    ensures SmallSigma0(0x0000_0001) == 0x0200_4000
    ensures SmallSigma0(0x8000_0000) == 0x1100_2000
    ensures SmallSigma0(0x0000_0008) == 0x1002_0001
  {
  }

  lemma SmallSigma1Bits()
    ensures SmallSigma1(0x0000_0001) == 0x0000_a000
    ensures SmallSigma1(0x8000_0000) == 0x0020_5000
    ensures SmallSigma1(0x0000_0400) == 0x0280_0001
  {
  }

  lemma BigSigma0x64Bits()
    ensures BigSigma0x64(0x0000_0000_0000_0001) == 0x0000_0010_4200_0000
    ensures BigSigma0x64(0x8000_0000_0000_0000) == 0x0000_0008_2100_0000
  {
  }

  lemma BigSigma1x64Bits()
    ensures BigSigma1x64(0x0000_0000_0000_0001) == 0x0004_4000_0080_0000
    ensures BigSigma1x64(0x8000_0000_0000_0000) == 0x0002_2000_0040_0000
  {
  }

  lemma SmallSigma0x64Bits()
    ensures SmallSigma0x64(0x0000_0000_0000_0001) == 0x8100_0000_0000_0000
    ensures SmallSigma0x64(0x8000_0000_0000_0000) == 0x4180_0000_0000_0000
    ensures SmallSigma0x64(0x0000_0000_0000_0080) == 0x8000_0000_0000_0041
  {
  }

  lemma SmallSigma1x64Bits()
    ensures SmallSigma1x64(0x0000_0000_0000_0001) == 0x0000_2000_0000_0008
    ensures SmallSigma1x64(0x8000_0000_0000_0000) == 0x0200_1000_0000_0004
    ensures SmallSigma1x64(0x0000_0000_0000_0040) == 0x0008_0000_0000_0201
  {
  }
}
