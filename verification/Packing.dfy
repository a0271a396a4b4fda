/** Conversions between field elements and 32-byte buffers, as in crypto/src/x25519.cpp. */
module Packing {
  import opened ByteType
  import opened ModArith
  import opened FieldElement
  import opened ConditionalSwap
  import opened LittleEndian

  /** 2^255 */
  const HALF_RANGE: int := P + 19

  // ----- Unpacking -----

  /** Limb i is the two bytes at 2i, low byte first. */
  ghost predicate FromBytes(e: seq<int64>, data: seq<byte>) {
    && |data| == 2 * |e|
    && forall i :: 0 <= i < |e| ==> e[i] as int == Word16(data[2 * i], data[2 * i + 1])
  }

  /** The limbs of a 32-byte buffer with bit 255 dropped. */
  ghost predicate Unpacked(e: seq<int64>, data: seq<byte>) {
    && |e| == 16 && |data| == 32
    && e[15] as int == Word16(data[30], data[31]) % 0x8000
    && forall i :: 0 <= i < 15 ==> e[i] as int == Word16(data[2 * i], data[2 * i + 1])
  }

  lemma {:induction false} FromBytesValue(e: seq<int64>, data: seq<byte>)
    requires FromBytes(e, data)
    ensures Val(e) == LeVal(data)
  {
    if |e| != 0 {
      var rest := data[2..];
      forall i | 0 <= i < |e| - 1
        ensures e[1..][i] as int == Word16(rest[2 * i], rest[2 * i + 1])
      {
        assert e[i + 1] as int == Word16(data[2 * (i + 1)], data[2 * (i + 1) + 1]);
      }
      FromBytesValue(e[1..], rest);
      assert data[1..][1..] == rest;
      assert LeVal(data) == data[0] + 256 * LeVal(data[1..]);
    }
  }

  lemma TopBitValue(e: seq<int64>, t: seq<int64>, h: int)
    requires Canonical(e) && |t| == 16 && t == e[15 := t[15]]
    requires e[15] as int == t[15] as int + 0x8000 * h
    ensures Val(e) == h * HALF_RANGE + Val(t)
  {
    ValUpdate(e, 15, t[15]);
    ShiftedHalf(-h);
    assert t[15] as int - e[15] as int == 0x8000 * -h;
  }

  lemma TopBitCleared(e: seq<int64>, t: seq<int64>)
    requires Canonical(e) && t == e[15 := e[15] % 0x8000]
    ensures Canonical(t) && Val(t) == Val(e) % HALF_RANGE
  {
    var h := e[15] as int / 0x8000;
    TopBitValue(e, t, h);
    TopLimbBound(t);
    ModUnique(Val(e), h, Val(t), HALF_RANGE);
  }

  /** 2^15 at limb 15 is 2^255. */
  lemma ShiftedHalf(h: int)
    ensures Shifted(0x8000 * h, 15) == h * HALF_RANGE
  {
    ShiftedScale(0x8000, h, 15);
    ShiftedBySixteen(h);
    assert Shifted(h, 16) == 65536 * Shifted(h, 15);
  }

  lemma TopLimbBound(t: seq<int64>)
    requires Canonical(t)
    ensures Val(t) >= 0
    ensures t[15] < 0x8000 ==> Val(t) < HALF_RANGE
  {
    SplitTop(t);
    ShiftedMono(0, t[15] as int, 15);
    if t[15] < 0x8000 {
      ShiftedMono(t[15] as int + 1, 0x8000, 15);
      ShiftedAdd(t[15] as int, 1, 15);
      ShiftedHalf(1);
    }
  }

  lemma {:induction false} ShiftedMono(v: int, w: int, k: nat)
    requires v <= w
    ensures Shifted(v, k) <= Shifted(w, k)
    ensures v >= 0 ==> Shifted(v, k) >= 0
  {
    if k != 0 {
      ShiftedMono(v, w, k - 1);
    }
  }

  /** The top limb against the canonical limbs below it. */
  lemma SplitTop(t: seq<int64>)
    requires |t| == 16 && forall i :: 0 <= i < 15 ==> 0 <= t[i] < 65536
    ensures Val(t) == Val(t[..15]) + Shifted(t[15] as int, 15)
    ensures 0 <= Val(t[..15]) < Shifted(1, 15)
  {
    ValCanonicalRange(t[..15]);
    ValPrefix(t, 15);
    assert t[..16] == t;
  }

  /** A buffer of any other size is refused; bit 255 is dropped. */
  method Unpack(data: seq<byte>) returns (ok: bool, e: array<int64>)
    ensures fresh(e) && e.Length == 16
    ensures ok <==> |data| == 32
    ensures ok ==> Canonical(e[..]) && Val(e[..]) == LeVal(data) % HALF_RANGE
    ensures ok ==> Unpacked(e[..], data)
  {
    e := new int64[16](_ => 0);
    ok := |data| == 32;
    if ok {
      for i := 0 to 16
        invariant forall k :: 0 <= k < i ==> e[k] as int == Word16(data[2 * k], data[2 * k + 1])
      {
        e[i] := Word16(data[2 * i], data[2 * i + 1]) as int64;
      }
      ghost var s := e[..];
      FromBytesValue(s, data);
      e[15] := e[15] % 0x8000;
      TopBitCleared(s, e[..]);
    }
  }

  // ----- The third carry -----

  /** Carries out of a reduced element are all the same sign, and only limb 0 starts them. */
  lemma {:induction false} ReducedCarries(s: seq<int64>, i: nat)
    requires Reduced(s) && 1 <= i <= 16
    ensures CarryInto(s, i) == 0 || CarryInto(s, i) == CarryInto(s, 1)
    ensures -1 <= CarryInto(s, 1) <= 1
  {
    assert CarryInto(s, 0) == 0;
    if i > 1 {
      ReducedCarries(s, i - 1);
    }
  }

  /** Two passes after a multiplication leave every limb in 16 bits. */
  lemma ThirdCarry(s: seq<int64>, t: seq<int64>)
    requires Reduced(s) && Carried(s, t)
    ensures Canonical(t)
  {
    ReducedCarries(s, 16);
    assert CarryInto(s, 0) == 0;
  }

  // ----- The conditional subtractions -----

  /** Limb i of p. */
  function PrimeLimb(i: nat): int64 {
    if i == 0 then 0xFFED else if i < 15 then 0xFFFF else 0x7FFF
  }

  ghost function PrimeLimbs(): (s: seq<int64>)
    ensures |s| == 16 && forall i :: 0 <= i < 16 ==> s[i] == PrimeLimb(i)
  {
    seq(16, i requires 0 <= i < 16 => PrimeLimb(i))
  }

  lemma {:induction false} OnesSuffix(i: nat)
    requires 1 <= i <= 15
    ensures Val(PrimeLimbs()[i..]) == Shifted(0x8000, 15 - i) - 1
    decreases 15 - i
  {
    var s := PrimeLimbs();
    if i == 15 {
      assert s[15..] == [0x7FFF];
      assert Val([0x7FFF]) == 0x7FFF + 65536 * Val([]);
    } else {
      OnesSuffix(i + 1);
      assert s[i..][1..] == s[i + 1..];
    }
  }

  lemma PrimeLimbsValue()
    ensures Val(PrimeLimbs()) == P
  {
    OnesSuffix(1);
    ShiftedBySixteen(1);
    ShiftedTwice(1, 1, 15);
    ShiftedScale(0x8000, 1, 14);
    ShiftedScale(0x8000, 1, 15);
    assert Shifted(1, 16) == 65536 * Shifted(1, 15);
  }

  /** Whether limb i has been borrowed from. */
  ghost function Borrow(t: seq<int64>, i: nat): (b: int)
    requires |t| == 16 && i <= 15
    ensures 0 <= b <= 1
  {
    if i == 0 then 0
    else if t[i - 1] as int - PrimeLimb(i - 1) as int - Borrow(t, i - 1) < 0 then 1 else 0
  }

  /** Limb i of the difference before the borrow is made good. */
  ghost function RawLimb(t: seq<int64>, i: nat): int
    requires |t| == 16 && i <= 15
  {
    t[i] as int - PrimeLimb(i) as int - Borrow(t, i)
  }

  /** m is t minus p, limb by limb with borrows; the sign is left in the top limb. */
  ghost predicate Subtracted(t: seq<int64>, m: seq<int64>) {
    && |t| == |m| == 16
    && m[15] as int == RawLimb(t, 15)
    && forall i :: 0 <= i < 15 ==> m[i] as int == RawLimb(t, i) + 65536 * Borrow(t, i + 1)
  }

  lemma {:induction false} SubtractedSuffix(t: seq<int64>, m: seq<int64>, i: nat)
    requires Subtracted(t, m) && i <= 15
    ensures Val(m[i..]) == Val(t[i..]) - Val(PrimeLimbs()[i..]) - Borrow(t, i)
    decreases 15 - i
  {
    var s := PrimeLimbs();
    if i == 15 {
      assert m[15..] == [m[15]] && t[15..] == [t[15]] && s[15..] == [s[15]];
      SingleLimb(m[15]);
      SingleLimb(t[15]);
      SingleLimb(s[15]);
    } else {
      SubtractedSuffix(t, m, i + 1);
      assert m[i..][1..] == m[i + 1..] && t[i..][1..] == t[i + 1..] && s[i..][1..] == s[i + 1..];
    }
  }

  lemma SingleLimb(x: int64)
    ensures Val([x]) == x as int
  {
    assert Val([x]) == x as int + 65536 * Val([]);
  }

  /** The difference is negative exactly when its top limb is. */
  lemma SubtractedValue(t: seq<int64>, m: seq<int64>)
    requires Canonical(t) && Subtracted(t, m)
    ensures Val(m) == Val(t) - P
    ensures m[15] >= 0 ==> Canonical(m) && Val(m) >= 0
    ensures m[15] < 0 ==> Val(m) < 0
  {
    SubtractedSuffix(t, m, 0);
    PrimeLimbsValue();
    assert m[0..] == m && t[0..] == t && PrimeLimbs()[0..] == PrimeLimbs();
    SplitTop(m);
    if m[15] >= 0 {
      ShiftedMono(0, m[15] as int, 15);
    } else {
      ShiftedMono(m[15] as int, -1, 15);
      ShiftedScale(-1, 1, 15);
    }
  }

  /** m := t - p with the borrows rippled, and whether that went below zero. */
  method Difference(t: array<int64>, m: array<int64>) returns (c: int64)
    requires t.Length == m.Length == 16 && t != m && Canonical(t[..])
    modifies m
    ensures Subtracted(t[..], m[..])
    ensures c == if m[15] >= 0 then 1 else 0
  {
    ghost var s := t[..];
    m[0] := t[0] - 0xFFED;
    for i := 1 to 15
      invariant t[..] == s
      invariant m[i - 1] as int == RawLimb(s, i - 1)
      invariant forall k :: 0 <= k < i - 1 ==> m[k] as int == RawLimb(s, k) + 65536 * Borrow(s, k + 1)
    {
      BorrowBit(s, m[i - 1], i);
      m[i] := t[i] - 0xFFFF - (m[i - 1] / 65536) % 2;
      m[i - 1] := m[i - 1] % 65536;
    }
    BorrowBit(s, m[14], 15);
    m[15] := t[15] - 0x7FFF - (m[14] / 65536) % 2;
    TopSign(m[15]);
    c := (1 - m[15] / 65536) % 2;
    m[14] := m[14] % 65536;
  }

  lemma TopSign(x: int64)
    requires -65536 <= x < 65536
    ensures (1 - x / 65536) % 2 == if x >= 0 then 1 else 0
  {
  }

  /** One conditional subtraction: t := t - p when that is not negative. */
  method SubtractPrime(t: array<int64>, m: array<int64>)
    requires t.Length == m.Length == 16 && t != m && Canonical(t[..])
    modifies t, m
    ensures Canonical(t[..])
    ensures Val(t[..]) == if old(Val(t[..])) >= P then old(Val(t[..])) - P else old(Val(t[..]))
  {
    var c := Difference(t, m);
    SubtractedValue(t[..], m[..]);
    Swap(t, m, c == 1);
  }

  /** Bit 16 of the raw difference is the borrow, its low 16 bits the limb. */
  lemma BorrowBit(s: seq<int64>, raw: int64, i: nat)
    requires Canonical(s) && 1 <= i <= 15
    requires raw as int == RawLimb(s, i - 1)
    ensures -65536 <= raw < 65536
    ensures ((raw / 65536) % 2) as int == Borrow(s, i)
    ensures (raw % 65536) as int == raw as int + 65536 * Borrow(s, i)
  {
  }

  /** Packing gives the one 32-byte representative in [0, p). */
  method Pack(e: array<int64>) returns (result: seq<byte>)
    requires e.Length == 16 && Within(e[..], 0x4000_0000_0000_0000)
    ensures |result| == 32 && LeVal(result) == Fe(e[..])
  {
    var t := new int64[16](i requires 0 <= i < 16 reads e => e[i]);
    assert t[..] == e[..];
    CarryThrice(t);
    ghost var v := Val(t[..]);
    CanonicalBelowTwiceP(t[..]);
    var m := new int64[16];
    SubtractPrime(t, m);
    SubtractPrime(t, m);
    TwoSubtractions(v, Val(t[..]));
    result := Bytes(t);
  }

  method Bytes(t: array<int64>) returns (result: seq<byte>)
    requires t.Length == 16 && Canonical(t[..])
    ensures |result| == 32 && LeVal(result) == Val(t[..])
  {
    var bytes := new byte[32](_ => 0);
    for i := 0 to 16
      invariant forall k :: 0 <= k < i ==> t[k] as int == Word16(bytes[2 * k], bytes[2 * k + 1])
    {
      var low := t[i] as int % 65536;
      bytes[2 * i] := low % 256;
      bytes[2 * i + 1] := low / 256;
    }
    result := bytes[..];
    FromBytesValue(t[..], result);
  }

  method CarryThrice(t: array<int64>)
    requires t.Length == 16 && Within(t[..], 0x4000_0000_0000_0000)
    modifies t
    ensures Canonical(t[..]) && Fe(t[..]) == old(Fe(t[..]))
  {
    ghost var s0 := t[..];
    Carry(t);
    ghost var s1 := t[..];
    TwiceCarriable(s0, s1);
    Carry(t);
    ghost var s2 := t[..];
    TwoCarries(s0, s1, s2);
    Carry(t);
    ThirdCarry(s2, t[..]);
    CarriedFe(s0, s1);
    CarriedFe(s1, s2);
    CarriedFe(s2, t[..]);
  }

  lemma CanonicalBelowTwiceP(t: seq<int64>)
    requires Canonical(t)
    ensures 0 <= Val(t) < 2 * P + 38
  {
    ValCanonicalRange(t);
    ShiftedBySixteen(1);
  }

  lemma TwoSubtractions(v: int, w: int)
    requires 0 <= v < 2 * P + 38
    requires
      var u := if v >= P then v - P else v;
      w == if u >= P then u - P else u
    ensures w == v % P
  {
    ModUnique(v, (v - w) / P, w, P);
  }

  /** Elements equal in the field pack to equal bytes. */
  lemma PackingIsCanonical(r: seq<byte>, s: seq<byte>, e: seq<int64>, f: seq<int64>)
    requires |r| == |s| == 32 && LeVal(r) == Fe(e) && LeVal(s) == Fe(f)
    ensures r == s <==> Fe(e) == Fe(f)
  {
    if Fe(e) == Fe(f) {
      LeInjective(r, s);
    }
  }
}
