/** The hash of GCM in crypto/src/block_cipher.cpp; section 6.4 of NIST SP 800-38D. */
module GcmHash {
  import opened ByteType
  import opened ByteXor
  import opened GaloisField
  import opened BigEndianBytes
  import Counter

  /** Zero bytes up to the next whole block. */
  function ZeroPadded(s: Bytes): (r: Bytes)
    ensures |r| % 16 == 0 && |s| <= |r| < |s| + 16
  {
    if |s| % 16 == 0 then s else s + seq(16 - |s| % 16, _ => 0)
  }

  /** The block of the two lengths, in bits. */
  function Lengths(a: nat, c: nat): Block {
    BigEndian(8 * a, 8) + BigEndian(8 * c, 8)
  }

  /** One block into the hash. */
  function Absorb(h: Block, x: Block, b: Block): Block {
    Times(XorBytes(b, x), h)
  }

  /** The hash of whole blocks, from a starting value. */
  function Hash(h: Block, x: Block, s: Bytes): Block
    decreases |s|
  {
    if |s| < 16 then x else Hash(h, Absorb(h, x, s[..16]), s[16..])
  }

  lemma {:induction false} HashConcat(h: Block, x: Block, s: Bytes, t: Bytes)
    requires |s| % 16 == 0
    ensures Hash(h, x, s + t) == Hash(h, Hash(h, x, s), t)
    decreases |s|
  {
    hide Absorb;
    if |s| == 0 {
      assert s + t == t;
    } else {
      assert (s + t)[..16] == s[..16] && (s + t)[16..] == s[16..] + t;
      HashConcat(h, Absorb(h, x, s[..16]), s[16..], t);
    }
  }

  /** One more block. */
  lemma HashBlock(h: Block, x: Block, s: Bytes, b: Block)
    requires |s| % 16 == 0
    ensures Hash(h, x, s + b) == Times(XorBytes(b, Hash(h, x, s)), h)
  {
    hide Times;
    HashConcat(h, x, s, b);
    assert b[..16] == b && b[16..] == [];
  }

  lemma XorBytesCommute(s: Bytes, t: Bytes)
    requires |s| == |t|
    ensures XorBytes(s, t) == XorBytes(t, s)
  {
    forall i | 0 <= i < |s|
      ensures XorBytes(s, t)[i] == XorBytes(t, s)[i]
    {
      XorByteLaws(s[i], t[i], 0);
    }
  }

  /** Hashes the blocks of one string, the last one padded. */
  method HashString(h: Block, x0: Block, a: Bytes) returns (x: Block)
    ensures x == Hash(h, x0, ZeroPadded(a))
  {
    hide Times, Hash;
    x := x0;
    HashNothing(h, x0);
    assert a[..0] == [];
    for m := 0 to |a| / 16
      invariant x == Hash(h, x0, a[..16 * m])
    {
      var b := a[16 * m..16 * m + 16];
      HashBlock(h, x0, a[..16 * m], b);
      XorBytesCommute(x, b);
      assert a[..16 * m + 16] == a[..16 * m] + b;
      x := Mult(XorBytes(x, b), h);
    }
    var v := |a| % 16;
    ghost var whole := a[..|a| - v];
    if v != 0 {
      var b := a[|a| - v..] + seq(16 - v, _ => 0);
      HashBlock(h, x0, whole, b);
      XorBytesCommute(x, b);
      assert ZeroPadded(a) == whole + b;
      x := Mult(XorBytes(x, b), h);
    } else {
      assert whole == a;
    }
  }

  lemma HashNothing(h: Block, x: Block)
    ensures Hash(h, x, []) == x
  {
  }

  /** The hash over two strings, each padded. */
  method Ghash(h: Block, x0: Block, a: Bytes, c: Bytes) returns (x: Block)
    ensures x == Hash(h, x0, ZeroPadded(a) + ZeroPadded(c))
  {
    x := HashString(h, x0, a);
    x := HashString(h, x, c);
    HashConcat(h, x0, ZeroPadded(a), ZeroPadded(c));
  }

  /** Hashing further text when all before it was in whole blocks. */
  lemma HashFurther(h: Block, a: Bytes, c: Bytes, b: Bytes)
    requires |a| % 16 == 0 && |c| % 16 == 0 && 0 < |b| <= 16
    ensures |ZeroPadded(b)| == 16
    ensures Hash(h, Zero(), a + ZeroPadded(c + b)) == Times(XorBytes(ZeroPadded(b), Hash(h, Zero(), a + ZeroPadded(c))), h)
  {
    hide Times, Hash;
    assert ZeroPadded(c + b) == c + ZeroPadded(b);
    assert a + (c + ZeroPadded(b)) == (a + c) + ZeroPadded(b);
    HashBlock(h, Zero(), a + c, ZeroPadded(b));
  }

  // ----- The tag, section 7.1 of NIST SP 800-38D -----

  /** The block the counter starts from. */
  function PreCounter(h: Block, iv: Bytes): Block {
    if |iv| == 12 then iv + [0, 0, 0, 1]
    else Hash(h, Zero(), ZeroPadded(iv) + Lengths(0, |iv|))
  }

  /** The tag of a cipher text: the hash of the padded data, the padded text and the lengths,
      enciphered with the first counter block. */
  function Tag(h: Block, first: Block, aad: Bytes, text: Bytes): Bytes {
    hide Times, Hash;
    XorBytes(Hash(h, Zero(), ZeroPadded(aad) + ZeroPadded(text) + Lengths(|aad|, |text|)), first)
  }

  method Start(h: Block, iv: Bytes) returns (y: Block)
    ensures y == PreCounter(h, iv)
  {
    hide Hash;
    if |iv| == 12 {
      y := iv + [0, 0, 0, 0];
      y := Counter.Next(y);
      FirstCounter(iv);
    } else {
      y := Ghash(h, Zero(), [], iv);
      assert ZeroPadded([]) + ZeroPadded(iv) == ZeroPadded(iv);
      var len := BigEndian(0, 8) + BigEndian(8 * |iv|, 8);
      HashBlock(h, Zero(), ZeroPadded(iv), len);
      XorBytesCommute(y, len);
      y := Mult(XorBytes(y, len), h);
    }
  }

  lemma FirstCounter(iv: Bytes)
    requires |iv| == 12
    ensures Counter.Next(iv + [0, 0, 0, 0]) == iv + [0, 0, 0, 1]
  {
    var y: Bytes := iv + [0, 0, 0, 0];
    assert y[..15] + [1] == iv + [0, 0, 0, 1];
  }

  /** The code counts over eight bytes, the standard over four: the same unless all four are full. */
  lemma CounterIsStandard(y: Block)
    ensures Counter.Next(y) == Counter.Successor(y, 4)
      <==> !(y[12] == 255 && y[13] == 255 && y[14] == 255 && y[15] == 255)
  {
    SuccessorAgrees(y, 4, 8);
  }

  /** The first n bytes from the end of which one is not full. */
  lemma {:induction false} SuccessorAgrees(c: Bytes, n: nat, n': nat)
    requires n < n' && n < |c|
    ensures Counter.Successor(c, n') == Counter.Successor(c, n) <==> exists i :: |c| - n <= i < |c| && c[i] != 255
    decreases n
  {
    if n != 0 {
      var last := |c| - 1;
      var high := c[..last];
      SuccessorAgrees(high, n - 1, n' - 1);
      if c[last] == 255 {
        var s, t := Counter.Successor(high, n - 1), Counter.Successor(high, n' - 1);
        assert Counter.Successor(c, n) == s + [0] && Counter.Successor(c, n') == t + [0];
        assert (s + [0])[..last] == s && (t + [0])[..last] == t;
        hide Counter.Successor;
        assert forall i :: 0 <= i < last ==> high[i] == c[i];
      }
    }
  }
}
