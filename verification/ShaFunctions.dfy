/** The compression functions of SHA-1 and SHA-2 in crypto/src/sha.cpp; section 6 of FIPS 180-4. */
module ShaFunctions {
  import opened ByteType
  import opened ByteXor
  import opened MessageSchedule

  /** Words of a block, high byte first. */
  function Word32(s: Bytes, i: nat): bv32
    requires 4 * i + 4 <= |s|
  {
    ((s[4 * i] as bv32) << 24) | ((s[4 * i + 1] as bv32) << 16) | ((s[4 * i + 2] as bv32) << 8) | (s[4 * i + 3] as bv32)
  }

  function Words32(s: Bytes): (m: seq<bv32>)
    requires |s| == 64
    ensures |m| == 16
  {
    seq(16, i requires 0 <= i < 16 => Word32(s, i))
  }

  // ----- SHA-1 -----

  datatype Work1 = Work1(a: bv32, b: bv32, c: bv32, d: bv32, e: bv32)

  function Sha1Next(w: seq<bv32>): bv32 {
    if |w| == 16 then (w[13] ^ w[8] ^ w[2] ^ w[0]).RotateLeft(1) else 0
  }

  function Ch(x: bv32, y: bv32, z: bv32): bv32 { (x & y) ^ (!x & z) }

  function Parity(x: bv32, y: bv32, z: bv32): bv32 { x ^ y ^ z }

  function Maj(x: bv32, y: bv32, z: bv32): bv32 { (x & y) ^ (x & z) ^ (y & z) }

  function K1(t: nat): bv32 {
    if t <= 19 then 0x5a827999 else if t <= 39 then 0x6ed9eba1 else if t <= 59 then 0x8f1bbcdc else 0xca62c1d6
  }

  /** One of the eighty rounds. */
  function Sha1Round(s: Work1, t: nat, w: bv32): Work1 {
    var k := K1(t);
    var f := if t <= 19 then Ch(s.b, s.c, s.d) else if t <= 39 then Parity(s.b, s.c, s.d)
      else if t <= 59 then Maj(s.b, s.c, s.d) else Parity(s.b, s.c, s.d);
    Work1(s.a.RotateLeft(5) + f + s.e + k + w, s.a, s.b.RotateLeft(30), s.c, s.d)
  }

  function Sum1(x: Work1, y: Work1): Work1 {
    Work1(x.a + y.a, x.b + y.b, x.c + y.c, x.d + y.d, x.e + y.e)
  }

  function Sha1(h: Work1, block: Bytes): Work1 {
    if |block| != 64 then h
    else
      var s := Rounds(Sha1Round, Sha1Next, Words32(block), h, 80);
      Sum1(h, s)
  }

  /** The computation of a block as the code does it. */
  method Sha1Compute(h: Work1, block: Bytes) returns (r: Work1)
    requires |block| == 64
    ensures r == Sha1(h, block)
  {
    hide Words32, Sha1Round, Sha1Next, Rounds, Sum1;
    var s := Run(Sha1Round, Sha1Next, Words32(block), h, 80);
    r := Sum1(h, s);
  }

  // ----- SHA-2, for words of any size -----

  datatype Work2<W> = Work2(a: W, b: W, c: W, d: W, e: W, f: W, g: W, h: W)

  /** The operations that differ with the size of the words. */
  datatype Words<!W> = Words(
    add: (W, W) -> W,
    bigSigma0: W -> W,
    bigSigma1: W -> W,
    smallSigma0: W -> W,
    smallSigma1: W -> W,
    ch: (W, W, W) -> W,
    maj: (W, W, W) -> W,
    k: nat -> W,
    rounds: nat,
    load: Bytes -> seq<W>)

  /** The next word of the schedule. */
  function Sha2Next<W>(o: Words<W>, w: seq<W>): W
    requires |w| == 16
  {
    o.add(o.add(o.add(o.smallSigma1(w[14]), w[9]), o.smallSigma0(w[1])), w[0])
  }

  function Sha2Round<W>(o: Words<W>, s: Work2<W>, t: nat, w: W): Work2<W> {
    var t1 := o.add(o.add(o.add(o.add(s.h, o.bigSigma1(s.e)), o.ch(s.e, s.f, s.g)), o.k(t)), w);
    var t2 := o.add(o.bigSigma0(s.a), o.maj(s.a, s.b, s.c));
    Work2(o.add(t1, t2), s.a, s.b, s.c, o.add(s.d, t1), s.e, s.f, s.g)
  }

  function Sum<W>(o: Words<W>, x: Work2<W>, y: Work2<W>): Work2<W> {
    Work2(o.add(x.a, y.a), o.add(x.b, y.b), o.add(x.c, y.c), o.add(x.d, y.d),
          o.add(x.e, y.e), o.add(x.f, y.f), o.add(x.g, y.g), o.add(x.h, y.h))
  }

  function Sha2<W>(o: Words<W>, h: Work2<W>, block: Bytes): Work2<W> {
    if |o.load(block)| != 16 then h
    else
      var next := (w: seq<W>) => if |w| == 16 then Sha2Next(o, w) else h.a;
      Sum(o, h, Rounds((s, t, w) => Sha2Round(o, s, t, w), next, o.load(block), h, o.rounds))
  }

  /** The computation of a block as the code does it. */
  method Sha2Compute<W(0)>(o: Words<W>, h: Work2<W>, block: Bytes) returns (r: Work2<W>)
    requires |o.load(block)| == 16
    ensures r == Sha2(o, h, block)
  {
    hide Sha2Next, Sha2Round, Sum, Rounds;
    var next := (w: seq<W>) => if |w| == 16 then Sha2Next(o, w) else h.a;
    var s := Run((s, t, w) => Sha2Round(o, s, t, w), next, o.load(block), h, o.rounds);
    r := Sum(o, h, s);
  }

  // ----- Words of 32 bits -----

  /** Eight of the round constants. */
  function K32Row(i: nat): (r: seq<bv32>)
    ensures |r| == 8
  {
    if i == 0 then [0x428a2f98, 0x71374491, 0xb5c0fbcf, 0xe9b5dba5, 0x3956c25b, 0x59f111f1, 0x923f82a4, 0xab1c5ed5]
    else if i == 1 then [0xd807aa98, 0x12835b01, 0x243185be, 0x550c7dc3, 0x72be5d74, 0x80deb1fe, 0x9bdc06a7, 0xc19bf174]
    else if i == 2 then [0xe49b69c1, 0xefbe4786, 0x0fc19dc6, 0x240ca1cc, 0x2de92c6f, 0x4a7484aa, 0x5cb0a9dc, 0x76f988da]
    else if i == 3 then [0x983e5152, 0xa831c66d, 0xb00327c8, 0xbf597fc7, 0xc6e00bf3, 0xd5a79147, 0x06ca6351, 0x14292967]
    else if i == 4 then [0x27b70a85, 0x2e1b2138, 0x4d2c6dfc, 0x53380d13, 0x650a7354, 0x766a0abb, 0x81c2c92e, 0x92722c85]
    else if i == 5 then [0xa2bfe8a1, 0xa81a664b, 0xc24b8b70, 0xc76c51a3, 0xd192e819, 0xd6990624, 0xf40e3585, 0x106aa070]
    else if i == 6 then [0x19a4c116, 0x1e376c08, 0x2748774c, 0x34b0bcb5, 0x391c0cb3, 0x4ed8aa4a, 0x5b9cca4f, 0x682e6ff3]
    else [0x748f82ee, 0x78a5636f, 0x84c87814, 0x8cc70208, 0x90befffa, 0xa4506ceb, 0xbef9a3f7, 0xc67178f2]
  }

  function K32(t: nat): bv32
    requires t < 64
  {
    K32Row(t / 8)[t % 8]
  }

  function BigSigma0(x: bv32): bv32 { x.RotateRight(2) ^ x.RotateRight(13) ^ x.RotateRight(22) }

  function BigSigma1(x: bv32): bv32 { x.RotateRight(6) ^ x.RotateRight(11) ^ x.RotateRight(25) }

  function SmallSigma0(x: bv32): bv32 { x.RotateRight(7) ^ x.RotateRight(18) ^ (x >> 3) }

  function SmallSigma1(x: bv32): bv32 { x.RotateRight(17) ^ x.RotateRight(19) ^ (x >> 10) }

  function Words2x32(): Words<bv32> {
    Words(
      (x, y) => x + y,
      BigSigma0,
      BigSigma1,
      SmallSigma0,
      SmallSigma1,
      Ch,
      Maj,
      (t: nat) => if t < 64 then K32(t) else 0,
      64,
      s => if |s| == 64 then Words32(s) else [])
  }

  // ----- Words of 64 bits -----

  function Wide(b: byte): bv64 { b as bv64 }

  function Packed64(b0: bv64, b1: bv64, b2: bv64, b3: bv64, b4: bv64, b5: bv64, b6: bv64, b7: bv64): bv64 {
    (b0 << 56) | (b1 << 48) | (b2 << 40) | (b3 << 32) | (b4 << 24) | (b5 << 16) | (b6 << 8) | b7
  }

  function Word64(s: Bytes, i: nat): bv64
    requires 8 * i + 8 <= |s|
  {
    Packed64(Wide(s[8 * i]), Wide(s[8 * i + 1]), Wide(s[8 * i + 2]), Wide(s[8 * i + 3]),
             Wide(s[8 * i + 4]), Wide(s[8 * i + 5]), Wide(s[8 * i + 6]), Wide(s[8 * i + 7]))
  }

  function Words64(s: Bytes): (m: seq<bv64>)
    requires |s| == 128
    ensures |m| == 16
  {
    seq(16, i requires 0 <= i < 16 => Word64(s, i))
  }

  function Ch64(x: bv64, y: bv64, z: bv64): bv64 { (x & y) ^ (!x & z) }

  function Maj64(x: bv64, y: bv64, z: bv64): bv64 { (x & y) ^ (x & z) ^ (y & z) }

  /** Eight of the round constants. */
  function K64Row(i: nat): (r: seq<bv64>)
    ensures |r| == 8
  {
    if i == 0 then [
      0x428a2f98d728ae22, 0x7137449123ef65cd, 0xb5c0fbcfec4d3b2f, 0xe9b5dba58189dbbc,
      0x3956c25bf348b538, 0x59f111f1b605d019, 0x923f82a4af194f9b, 0xab1c5ed5da6d8118]
    else if i == 1 then [
      0xd807aa98a3030242, 0x12835b0145706fbe, 0x243185be4ee4b28c, 0x550c7dc3d5ffb4e2,
      0x72be5d74f27b896f, 0x80deb1fe3b1696b1, 0x9bdc06a725c71235, 0xc19bf174cf692694]
    else if i == 2 then [
      0xe49b69c19ef14ad2, 0xefbe4786384f25e3, 0x0fc19dc68b8cd5b5, 0x240ca1cc77ac9c65,
      0x2de92c6f592b0275, 0x4a7484aa6ea6e483, 0x5cb0a9dcbd41fbd4, 0x76f988da831153b5]
    else if i == 3 then [
      0x983e5152ee66dfab, 0xa831c66d2db43210, 0xb00327c898fb213f, 0xbf597fc7beef0ee4,
      0xc6e00bf33da88fc2, 0xd5a79147930aa725, 0x06ca6351e003826f, 0x142929670a0e6e70]
    else if i == 4 then [
      0x27b70a8546d22ffc, 0x2e1b21385c26c926, 0x4d2c6dfc5ac42aed, 0x53380d139d95b3df,
      0x650a73548baf63de, 0x766a0abb3c77b2a8, 0x81c2c92e47edaee6, 0x92722c851482353b]
    else if i == 5 then [
      0xa2bfe8a14cf10364, 0xa81a664bbc423001, 0xc24b8b70d0f89791, 0xc76c51a30654be30,
      0xd192e819d6ef5218, 0xd69906245565a910, 0xf40e35855771202a, 0x106aa07032bbd1b8]
    else if i == 6 then [
      0x19a4c116b8d2d0c8, 0x1e376c085141ab53, 0x2748774cdf8eeb99, 0x34b0bcb5e19b48a8,
      0x391c0cb3c5c95a63, 0x4ed8aa4ae3418acb, 0x5b9cca4f7763e373, 0x682e6ff3d6b2b8a3]
    else if i == 7 then [
      0x748f82ee5defb2fc, 0x78a5636f43172f60, 0x84c87814a1f0ab72, 0x8cc702081a6439ec,
      0x90befffa23631e28, 0xa4506cebde82bde9, 0xbef9a3f7b2c67915, 0xc67178f2e372532b]
    else if i == 8 then [
      0xca273eceea26619c, 0xd186b8c721c0c207, 0xeada7dd6cde0eb1e, 0xf57d4f7fee6ed178,
      0x06f067aa72176fba, 0x0a637dc5a2c898a6, 0x113f9804bef90dae, 0x1b710b35131c471b]
    else [
      0x28db77f523047d84, 0x32caab7b40c72493, 0x3c9ebe0a15c9bebc, 0x431d67c49c100d4c,
      0x4cc5d4becb3e42b6, 0x597f299cfc657e2a, 0x5fcb6fab3ad6faec, 0x6c44198c4a475817]
  }

  function K64(t: nat): bv64
    requires t < 80
  {
    K64Row(t / 8)[t % 8]
  }

  function BigSigma0x64(x: bv64): bv64 { x.RotateRight(28) ^ x.RotateRight(34) ^ x.RotateRight(39) }

  function BigSigma1x64(x: bv64): bv64 { x.RotateRight(14) ^ x.RotateRight(18) ^ x.RotateRight(41) }

  function SmallSigma0x64(x: bv64): bv64 { x.RotateRight(1) ^ x.RotateRight(8) ^ (x >> 7) }

  function SmallSigma1x64(x: bv64): bv64 { x.RotateRight(19) ^ x.RotateRight(61) ^ (x >> 6) }

  function Words2x64(): Words<bv64> {
    Words(
      (x, y) => x + y,
      BigSigma0x64,
      BigSigma1x64,
      SmallSigma0x64,
      SmallSigma1x64,
      Ch64,
      Maj64,
      (t: nat) => if t < 80 then K64(t) else 0,
      80,
      s => if |s| == 128 then Words64(s) else [])
  }
}
