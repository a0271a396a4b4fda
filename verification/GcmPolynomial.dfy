/** The hash and the tag of GCM as sums, beside the loops of crypto/src/block_cipher.cpp; sections 6.4 and
    7.1 of NIST SP 800-38D. */
module GcmPolynomial {
  import opened ByteType
  import opened ByteXor
  import opened GaloisField
  import opened GcmHash
  import opened BigEndianBytes
  import M = Magnitude
  import Counter

  /** A block multiplied k times by the hash key. */
  function Powered(b: Block, h: Block, k: nat): Block {
    if k == 0 then b else Times(Powered(b, h, k - 1), h)
  }

  /** The sum of the blocks, each multiplied by the key as often as there are blocks from it on. */
  function Polynomial(h: Block, s: Bytes): Block
    decreases |s|
  {
    if |s| < 16 then Zero() else XorBytes(Powered(s[..16], h, |s| / 16), Polynomial(h, s[16..]))
  }

  lemma {:induction false} PoweredSum(a: Block, b: Block, h: Block, k: nat)
    ensures Powered(XorBytes(a, b), h, k) == XorBytes(Powered(a, h, k), Powered(b, h, k))
  {
    hide Times, XorBytes;
    if k != 0 {
      PoweredSum(a, b, h, k - 1);
      TimesDistributes(h, Powered(a, h, k - 1), Powered(b, h, k - 1));
    }
  }

  lemma {:induction false} PoweredFirst(b: Block, h: Block, k: nat)
    ensures Powered(Times(b, h), h, k) == Powered(b, h, k + 1)
  {
    hide Times;
    if k != 0 {
      PoweredFirst(b, h, k - 1);
    }
  }

  lemma XorZero(b: Block)
    ensures XorBytes(Zero(), b) == b && XorBytes(b, b) == Zero()
  {
    forall i | 0 <= i < 16
      ensures XorByte(0, b[i]) == b[i] && XorByte(b[i], b[i]) == 0
    {
      XorByteLaws(b[i], 0, 0);
      XorByteLaws(0, b[i], 0);
    }
  }

  lemma XorRegroup(a: Block, b: Block, c: Block)
    ensures XorBytes(XorBytes(a, b), c) == XorBytes(b, XorBytes(a, c))
  {
    forall i | 0 <= i < 16
      ensures XorByte(XorByte(a[i], b[i]), c[i]) == XorByte(b[i], XorByte(a[i], c[i]))
    {
      XorByteLaws(a[i], b[i], c[i]);
      XorByteLaws(b[i], a[i], c[i]);
    }
  }

  lemma {:induction false} HashIs(h: Block, x: Block, s: Bytes)
    ensures Hash(h, x, s) == XorBytes(Powered(x, h, |s| / 16), Polynomial(h, s))
    decreases |s|
  {
    hide Times, XorBytes, Zero;
    if |s| < 16 {
      XorZero(x);
      XorBytesCommute(x, Zero());
    } else {
      var b: Block, rest := s[..16], s[16..];
      var n := |s| / 16;
      HashIs(h, Absorb(h, x, b), rest);
      PoweredFirst(XorBytes(b, x), h, n - 1);
      PoweredSum(b, x, h, n);
      XorRegroup(Powered(b, h, n), Powered(x, h, n), Polynomial(h, rest));
      hide Powered, Polynomial, Hash;
    }
  }

  lemma {:induction false} PoweredZero(h: Block, k: nat)
    ensures Powered(Zero(), h, k) == Zero()
  {
    hide Times, XorBytes, Zero;
    XorZero(Zero());
    PoweredSum(Zero(), Zero(), h, k);
    XorZero(Powered(Zero(), h, k));
  }

  /** The tag is the sum of the padded data, the padded text and the lengths, each block multiplied by its
      power of the hash key, and of the enciphered first counter block. */
  lemma TagIs(h: Block, first: Block, aad: Bytes, text: Bytes)
    ensures Tag(h, first, aad, text)
      == XorBytes(Polynomial(h, ZeroPadded(aad) + ZeroPadded(text) + Lengths(|aad|, |text|)), first)
  {
    hide Times, XorBytes, Zero, Polynomial, Powered, Lengths, Hash;
    var s := ZeroPadded(aad) + ZeroPadded(text) + Lengths(|aad|, |text|);
    HashIs(h, Zero(), s);
    PoweredZero(h, |s| / 16);
    XorZero(Polynomial(h, s));
  }

  /** The last block holds the bits of the data in its upper half, and those of the text in its lower half. */
  lemma LengthsAre(a: nat, c: nat)
    requires 8 * a < 0x1_0000_0000_0000_0000 && 8 * c < 0x1_0000_0000_0000_0000
    ensures M.Value(Lengths(a, c)) == 8 * a * 0x1_0000_0000_0000_0000 + 8 * c
  {
    hide M.Scale, M.Value, BigEndian;
    BigEndianValue(8 * a, 8);
    BigEndianValue(8 * c, 8);
    Counter.EightBytes();
    M.ValueConcat(BigEndian(8 * a, 8), BigEndian(8 * c, 8));
    M.ScaleTimes(8 * a, 8);
  }
}
