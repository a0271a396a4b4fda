/** Exclusive or of bytes and of byte buffers, as core/src/buffer.cpp combines them. A byte is a word of
    eight bits without a sign, and its laws are those of words: the operation commutes, is associative, and
    takes itself back. The buffers of the source need not have the same size, and the result has that of
    the left operand, which must not be the longer one. */
module ByteXor {
  import opened ByteType
  import opened TwosComplement

  type Bytes = seq<byte>

  function XorByte(a: byte, b: byte): byte {
    XorRange(a, b, 8);
    Xor(a, b, 8)
  }

  /** Words without a sign stay without one, and within their bits. */
  lemma {:induction false} XorRange(x: int, y: int, n: nat)
    requires 0 <= x && 0 <= y && Fits(x, n) && Fits(y, n)
    ensures 0 <= Xor(x, y, n) && Fits(Xor(x, y, n), n)
    decreases n
  {
    if n != 0 {
      XorRange(x / 2, y / 2, n - 1);
    }
  }

  lemma {:induction false} XorCommutes(x: int, y: int, n: nat)
    ensures Xor(x, y, n) == Xor(y, x, n)
    decreases n
  {
    if n != 0 {
      XorCommutes(x / 2, y / 2, n - 1);
    }
  }

  lemma {:induction false} XorAssoc(x: int, y: int, z: int, n: nat)
    requires Fits(x, n) && Fits(y, n) && Fits(z, n)
    ensures Xor(Xor(x, y, n), z, n) == Xor(x, Xor(y, z, n), n)
    decreases n
  {
    if n != 0 {
      XorAssoc(x / 2, y / 2, z / 2, n - 1);
    }
  }

  lemma ByteFits(b: byte)
    ensures Fits(b, 8)
  {
    assert Fits(b as int / 2 / 2 / 2 / 2, 4);
  }

  lemma XorByteLaws(a: byte, b: byte, c: byte)
    ensures XorByte(a, b) == XorByte(b, a)
    ensures XorByte(a, XorByte(a, b)) == b && XorByte(XorByte(a, b), b) == a
    ensures XorByte(XorByte(a, b), c) == XorByte(a, XorByte(b, c))
    ensures XorByte(a, 0) == a
  {
    ByteFits(a);
    ByteFits(b);
    ByteFits(c);
    XorCommutes(a, b, 8);
    XorCommutes(Xor(a, b, 8), b, 8);
    XorCancels(a, b, 8);
    XorCancels(b, a, 8);
    XorAssoc(a, b, c, 8);
    XorZero(a, 8);
  }

  /** lhs ^ rhs: as long as the left operand, which must not be longer than the right one. */
  function XorBytes(a: Bytes, b: Bytes): (r: Bytes)
    requires |a| <= |b|
    ensures |r| == |a|
  {
    seq(|a|, i requires 0 <= i < |a| => XorByte(a[i], b[i]))
  }

  /** The same key stream takes a text back. */
  lemma XorTwice(a: Bytes, b: Bytes)
    requires |a| <= |b|
    ensures XorBytes(XorBytes(a, b), b) == a
  {
    forall i | 0 <= i < |a|
      ensures XorBytes(XorBytes(a, b), b)[i] == a[i]
    {
      XorByteLaws(a[i], b[i], 0);
    }
  }

  /** In place, byte by byte; not when the operand is too short, for which the code throws. */
  method XorInPlace(a: array<byte>, b: Bytes) returns (ok: bool)
    modifies a
    ensures ok <==> a.Length <= |b|
    ensures a[..] == if ok then XorBytes(old(a[..]), b) else old(a[..])
  {
    ok := a.Length <= |b|;
    if !ok {
      return;
    }
    ghost var s := a[..];
    for i := 0 to a.Length
      invariant forall k :: 0 <= k < i ==> a[k] == XorByte(s[k], b[k])
      invariant forall k :: i <= k < a.Length ==> a[k] == s[k]
    {
      a[i] := XorByte(a[i], b[i]);
    }
  }
}
