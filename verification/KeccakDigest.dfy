/** The permutation on the bytes of the state, and hashing a message in parts. */
module KeccakDigest {
  import opened ByteType
  import opened ByteXor
  import opened ByteBits
  import opened BlockFold
  import opened KeccakPermutation
  import opened KeccakRounds
  import opened Keccak
  import ShaDigest

  function ToBits(b: byte): bv8 { b as bv8 }

  function ToByte(x: bv8): byte { x as int }

  /** Eight bytes as a word, low byte first. */
  function Join(b0: bv8, b1: bv8, b2: bv8, b3: bv8, b4: bv8, b5: bv8, b6: bv8, b7: bv8): bv64 {
    (b0 as bv64) | ((b1 as bv64) << 8) | ((b2 as bv64) << 16) | ((b3 as bv64) << 24)
    | ((b4 as bv64) << 32) | ((b5 as bv64) << 40) | ((b6 as bv64) << 48) | ((b7 as bv64) << 56)
  }

  /** A lane from its eight bytes. */
  function Lane(s: Wide, i: nat): bv64
    requires i < 25
  {
    Join(ToBits(s[8 * i]), ToBits(s[8 * i + 1]), ToBits(s[8 * i + 2]), ToBits(s[8 * i + 3]),
         ToBits(s[8 * i + 4]), ToBits(s[8 * i + 5]), ToBits(s[8 * i + 6]), ToBits(s[8 * i + 7]))
  }

  function LanesOf(s: Wide): Lanes {
    seq(25, i requires 0 <= i < 25 => Lane(s, i))
  }

  function LowByte(x: bv64): bv8 { (x & 0xff) as bv8 }

  /** The bytes of a word, low byte first. */
  function WordBytes(x: bv64): (r: Bytes)
    ensures |r| == 8
  {
    [ToByte(LowByte(x)), ToByte(LowByte(x >> 8)), ToByte(LowByte(x >> 16)), ToByte(LowByte(x >> 24)),
     ToByte(LowByte(x >> 32)), ToByte(LowByte(x >> 40)), ToByte(LowByte(x >> 48)), ToByte(LowByte(x >> 56))]
  }

  const LANES: nat := 25

  /** The bytes of the first n lanes. */
  function LaneBytes(a: Lanes, n: nat): (r: Bytes)
    requires n <= 25
    ensures |r| == 8 * n
  {
    if n == 0 then [] else LaneBytes(a, n - 1) + WordBytes(a[n - 1])
  }

  lemma JoinBytes(b0: bv8, b1: bv8, b2: bv8, b3: bv8, b4: bv8, b5: bv8, b6: bv8, b7: bv8)
    ensures
      var x := Join(b0, b1, b2, b3, b4, b5, b6, b7);
      && LowByte(x) == b0 && LowByte(x >> 8) == b1 && LowByte(x >> 16) == b2 && LowByte(x >> 24) == b3
      && LowByte(x >> 32) == b4 && LowByte(x >> 40) == b5 && LowByte(x >> 48) == b6 && LowByte(x >> 56) == b7
  {
  }

  lemma BitsTwice(b: byte)
    ensures ToByte(ToBits(b)) == b
  {
    ByteTwice(b);
  }

  lemma WordTwice(c0: byte, c1: byte, c2: byte, c3: byte, c4: byte, c5: byte, c6: byte, c7: byte)
    ensures WordBytes(Join(ToBits(c0), ToBits(c1), ToBits(c2), ToBits(c3), ToBits(c4), ToBits(c5), ToBits(c6), ToBits(c7)))
         == [c0, c1, c2, c3, c4, c5, c6, c7]
  {
    hide ToBits, ToByte, LowByte, Join;
    JoinBytes(ToBits(c0), ToBits(c1), ToBits(c2), ToBits(c3), ToBits(c4), ToBits(c5), ToBits(c6), ToBits(c7));
    BitsTwice(c0);
    BitsTwice(c1);
    BitsTwice(c2);
    BitsTwice(c3);
    BitsTwice(c4);
    BitsTwice(c5);
    BitsTwice(c6);
    BitsTwice(c7);
  }

  lemma LaneTwice(s: Wide, i: nat)
    requires i < 25
    ensures WordBytes(Lane(s, i)) == s[8 * i..8 * i + 8]
  {
    hide ToBits, ToByte, LowByte, Join, WordBytes;
    WordTwice(s[8 * i], s[8 * i + 1], s[8 * i + 2], s[8 * i + 3], s[8 * i + 4], s[8 * i + 5], s[8 * i + 6], s[8 * i + 7]);
  }

  /** The bytes of the lanes of a state are its bytes. */
  lemma {:induction false} LanesTwice(s: Wide, n: nat)
    requires n <= 25
    ensures LaneBytes(LanesOf(s), n) == s[..8 * n]
  {
    hide Lane, WordBytes;
    if n != 0 {
      LanesTwice(s, n - 1);
      LaneTwice(s, n - 1);
      assert s[..8 * n] == s[..8 * (n - 1)] + s[8 * (n - 1)..8 * (n - 1) + 8];
    }
  }

  /** Keccak-f on the bytes of the state, section 3.3 of FIPS 202. */
  function KeccakF(s: Wide): Wide {
    LaneBytes(Rounds(LanesOf(s), ROUNDS), LANES)
  }

  method Permutation(s: Wide) returns (r: Wide)
    ensures r == KeccakF(s)
  {
    hide Lane, Rounds, LaneBytes;
    var a := new bv64[25](i requires 0 <= i < 25 => Lane(s, i));
    assert a[..] == LanesOf(s);
    Permute(a);
    r := LaneBytes(a[..], LANES);
  }

  /** The digest of a whole message. */
  function Digest(f: Wide -> Wide, rate: nat, d: byte, size: nat, msg: Bytes): Bytes
    requires 1 <= rate <= 200
  {
    Squeezed(f, rate, Fold<Wide>(Step(f), rate, Start(), msg + Padding(|msg|, rate, d)), size)
  }

  /** However a message is split, its digest is that of the whole. */
  method HashParts(f: Wide -> Wide, rate: nat, d: byte, size: nat, parts: seq<Bytes>) returns (digest: Bytes)
    requires 1 <= rate <= 200
    ensures digest == Digest(f, rate, d, size, ShaDigest.Joined(parts))
  {
    hide Fold, Padding, Squeezed, Sponge.Valid;
    var sponge := new Sponge(f, rate, size, d);
    for i := 0 to |parts|
      invariant sponge.Valid() && fresh(sponge) && fresh(sponge.m) && sponge.given == ShaDigest.Joined(parts[..i])
    {
      sponge.Update(parts[i]);
      assert parts[..i + 1][..i] == parts[..i];
    }
    assert parts[..|parts|] == parts;
    sponge.Close();
    digest := sponge.hash;
  }

  /** SHA-3: twice the digest is capacity. */
  method Sha3Parts(bits: nat, parts: seq<Bytes>) returns (digest: Bytes)
    requires bits == 224 || bits == 256 || bits == 384 || bits == 512
    ensures digest == Digest(KeccakF, 200 - bits / 4, 0x06, bits / 8, ShaDigest.Joined(parts))
  {
    hide KeccakF, Digest;
    digest := HashParts(KeccakF, 200 - bits / 4, 0x06, bits / 8, parts);
  }
}
