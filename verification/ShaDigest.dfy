/** The SHA digests of crypto/src/sha.cpp: constants, digests, and hashing a message in parts. */
module ShaDigest {
  import opened ByteType
  import opened ByteXor
  import opened BigEndianBytes
  import opened BlockFold
  import opened ShaFunctions
  import opened Sha

  // ----- Initial values -----

  function Iv1(): Work1 {
    Work1(
      0x67452301, 0xefcdab89, 0x98badcfe, 0x10325476,
      0xc3d2e1f0)
  }

  function Iv224(): Work2<bv32> {
    Work2(
      0xc1059ed8, 0x367cd507, 0x3070dd17, 0xf70e5939,
      0xffc00b31, 0x68581511, 0x64f98fa7, 0xbefa4fa4)
  }

  function Iv256(): Work2<bv32> {
    Work2(
      0x6a09e667, 0xbb67ae85, 0x3c6ef372, 0xa54ff53a,
      0x510e527f, 0x9b05688c, 0x1f83d9ab, 0x5be0cd19)
  }

  function Iv384(): Work2<bv64> {
    Work2(
      0xcbbb9d5dc1059ed8, 0x629a292a367cd507, 0x9159015a3070dd17, 0x152fecd8f70e5939,
      0x67332667ffc00b31, 0x8eb44a8768581511, 0xdb0c2e0d64f98fa7, 0x47b5481dbefa4fa4)
  }

  function Iv512(): Work2<bv64> {
    Work2(
      0x6a09e667f3bcc908, 0xbb67ae8584caa73b, 0x3c6ef372fe94f82b, 0xa54ff53a5f1d36f1,
      0x510e527fade682d1, 0x9b05688c2b3e6c1f, 0x1f83d9abfb41bd6b, 0x5be0cd19137e2179)
  }

  function Iv512x224(): Work2<bv64> {
    Work2(
      0x8c3d37c819544da2, 0x73e1996689dcd4d6, 0x1dfab7ae32ff9c82, 0x679dd514582f9fcf,
      0x0f6d2b697bd44da8, 0x77e36f7304c48942, 0x3f9d85a86a1d36c8, 0x1112e6ad91d692a1)
  }

  function Iv512x256(): Work2<bv64> {
    Work2(
      0x22312194fc2bf72c, 0x9f555fa3c84c64c2, 0x2393b86b6f53b151, 0x963877195940eabd,
      0x96283ee2a88effe3, 0xbe5e1e2553863992, 0x2b0199fc2c85b8aa, 0x0eb72ddc81c52ca2)
  }

  // ----- Digests -----

  function Bytes32(x: bv32): Bytes { BigEndian(x as nat, 4) }

  function Bytes64(x: bv64): Bytes { BigEndian(x as nat, 8) }

  function Digest1(h: Work1): Bytes {
    Bytes32(h.a) + Bytes32(h.b) + Bytes32(h.c) + Bytes32(h.d) + Bytes32(h.e)
  }

  /** The first bytes of the words. */
  function Digest2<W>(bytes: W -> Bytes, h: Work2<W>, size: nat): Bytes {
    var all := bytes(h.a) + bytes(h.b) + bytes(h.c) + bytes(h.d) + bytes(h.e) + bytes(h.f) + bytes(h.g) + bytes(h.h);
    if size <= |all| then all[..size] else all
  }

  /** All parts of a message in order. */
  function Joined(parts: seq<Bytes>): Bytes {
    if |parts| == 0 then [] else Joined(parts[..|parts| - 1]) + parts[|parts| - 1]
  }

  /** The state after a whole message: the blocks of its padded form, section 6 of FIPS 180-4. */
  function Hashed<H>(f: (H, Bytes) -> H, iv: H, blockSize: nat, lengthSize: nat, msg: Bytes): H
    requires Sizes(blockSize, lengthSize)
  {
    Fold(f, blockSize, iv, msg + Padding(|msg|, blockSize, lengthSize))
  }

  /** However a message is split, its hash is that of the whole. */
  method HashParts<H(!new)>(f: (H, Bytes) -> H, iv: H, blockSize: nat, lengthSize: nat, parts: seq<Bytes>) returns (h: H)
    requires Sizes(blockSize, lengthSize) && forall i :: 0 <= i < |parts| ==> 8 * |parts[i]| < WORD
    ensures h == Hashed(f, iv, blockSize, lengthSize, Joined(parts))
  {
    hide Fold, Padding, Hash.Valid;
    var hash := new Hash(f, iv, blockSize, lengthSize);
    for i := 0 to |parts|
      invariant hash.Valid() && fresh(hash) && fresh(hash.block) && hash.given == Joined(parts[..i])
    {
      hash.Update(parts[i]);
      assert parts[..i + 1][..i] == parts[..i];
    }
    assert parts[..|parts|] == parts;
    hash.Close();
    h := hash.h;
  }

  method Sha1Parts(parts: seq<Bytes>) returns (digest: Bytes)
    requires forall i :: 0 <= i < |parts| ==> 8 * |parts[i]| < WORD
    ensures digest == Digest1(Hashed(Sha1, Iv1(), 64, 8, Joined(parts)))
  {
    hide Sha1, Iv1, Digest1, Hashed;
    var h := HashParts(Sha1, Iv1(), 64, 8, parts);
    digest := Digest1(h);
  }

  /** SHA-224 and SHA-256. */
  function Iv2x32(bits: nat): Work2<bv32>
    requires bits == 224 || bits == 256
  {
    if bits == 224 then Iv224() else Iv256()
  }

  method Sha2x32Parts(bits: nat, parts: seq<Bytes>) returns (digest: Bytes)
    requires bits == 224 || bits == 256
    requires forall i :: 0 <= i < |parts| ==> 8 * |parts[i]| < WORD
    ensures digest == Digest2(Bytes32, Hashed(Block32, Iv2x32(bits), 64, 8, Joined(parts)), bits / 8)
    ensures |digest| == bits / 8
  {
    hide Block32, Iv2x32, Hashed;
    var h := HashParts(Block32, Iv2x32(bits), 64, 8, parts);
    DigestSize(Bytes32, h, 4, bits / 8);
    hide Digest2;
    digest := Digest2(Bytes32, h, bits / 8);
  }

  function Block32(h: Work2<bv32>, block: Bytes): Work2<bv32> { Sha2(Words2x32(), h, block) }

  /** SHA-384, SHA-512, SHA-512/224 and SHA-512/256. */
  function Iv2x64(bits: nat): Work2<bv64>
    requires bits == 224 || bits == 256 || bits == 384 || bits == 512
  {
    if bits == 224 then Iv512x224() else if bits == 256 then Iv512x256() else if bits == 384 then Iv384() else Iv512()
  }

  method Sha2x64Parts(bits: nat, parts: seq<Bytes>) returns (digest: Bytes)
    requires bits == 224 || bits == 256 || bits == 384 || bits == 512
    requires forall i :: 0 <= i < |parts| ==> 8 * |parts[i]| < WORD
    ensures digest == Digest2(Bytes64, Hashed(Block64, Iv2x64(bits), 128, 16, Joined(parts)), bits / 8)
    ensures |digest| == bits / 8
  {
    hide Block64, Iv2x64, Hashed;
    var h := HashParts(Block64, Iv2x64(bits), 128, 16, parts);
    DigestSize(Bytes64, h, 8, bits / 8);
    hide Digest2;
    digest := Digest2(Bytes64, h, bits / 8);
  }

  function Block64(h: Work2<bv64>, block: Bytes): Work2<bv64> { Sha2(Words2x64(), h, block) }

  lemma DigestSize<W(!new)>(bytes: W -> Bytes, h: Work2<W>, wordSize: nat, size: nat)
    requires (forall x {:trigger bytes(x)} :: |bytes(x)| == wordSize) && size <= 8 * wordSize
    ensures |Digest2(bytes, h, size)| == size
  {
  }
}
