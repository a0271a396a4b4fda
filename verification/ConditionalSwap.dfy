/** The branch-free conditional swap of crypto/src/x25519.cpp, on two's complement words. */
module ConditionalSwap {
  import opened FieldElement
  import opened PowerOfTwo
  import opened TwosComplement

  /** The value bits of a 64-bit word. */
  const VALUE_BITS: nat := 63

  lemma Pow2At63()
    ensures Pow2(VALUE_BITS) == 0x8000_0000_0000_0000
  {
    Pow2By16(47);
    Pow2By16(31);
    Pow2By16(15);
    Pow2By8(7);
  }

  lemma Int64Fits(x: int)
    ensures Fits(x, VALUE_BITS) <==> -0x8000_0000_0000_0000 <= x < 0x8000_0000_0000_0000
  {
    FitsRange(x, VALUE_BITS);
    Pow2At63();
  }

  /** With a mask of zeros the exchange below keeps both words, with ones it trades them. */
  lemma MaskedExchange(p: int, q: int, c: bool)
    requires Fits(p, VALUE_BITS) && Fits(q, VALUE_BITS)
    ensures
      var t := And(if c then -1 else 0, Xor(p, q, VALUE_BITS), VALUE_BITS);
      && Fits(t, VALUE_BITS)
      && Xor(p, t, VALUE_BITS) == (if c then q else p)
      && Xor(q, t, VALUE_BITS) == (if c then p else q)
  {
    XorCancels(p, q, VALUE_BITS);
    AndMask(Xor(p, q, VALUE_BITS), VALUE_BITS);
    XorZero(p, VALUE_BITS);
    XorZero(q, VALUE_BITS);
    Int64Fits(0);
  }

  /** One limb of the exchange. */
  method SwapLimb(p: int64, q: int64, mask: int, ghost c: bool) returns (p': int64, q': int64)
    requires mask == if c then -1 else 0
    ensures p' == (if c then q else p) && q' == (if c then p else q)
  {
    Int64Fits(p as int);
    Int64Fits(q as int);
    MaskedExchange(p as int, q as int, c);
    var t := And(mask, Xor(p as int, q as int, VALUE_BITS), VALUE_BITS);
    p' := Xor(p as int, t, VALUE_BITS) as int64;
    q' := Xor(q as int, t, VALUE_BITS) as int64;
  }

  method Swap(p: array<int64>, q: array<int64>, c: bool)
    requires p.Length == q.Length == 16 && p != q
    modifies p, q
    ensures p[..] == if c then old(q[..]) else old(p[..])
    ensures q[..] == if c then old(p[..]) else old(q[..])
  {
    // ~(c - 1), where ~x is -x - 1
    var mask: int := -((if c then 1 else 0) - 1) - 1;
    ghost var s, t := p[..], q[..];
    for i := 0 to 16
      invariant forall k :: 0 <= k < i ==> p[k] == (if c then t[k] else s[k])
      invariant forall k :: 0 <= k < i ==> q[k] == (if c then s[k] else t[k])
      invariant forall k :: i <= k < 16 ==> p[k] == s[k] && q[k] == t[k]
    {
      p[i], q[i] := SwapLimb(p[i], q[i], mask, c);
    }
    assert p[..] == (if c then t else s) && q[..] == (if c then s else t);
  }
}
