/** Shifting a byte buffer in place by any number of bits: the loops shared by the shift operators
    of core/src/bigint.cpp and core/src/buffer.cpp. Whole bytes are moved first, and then the bits within
    the bytes, with what one byte pushes out entering the next; each part multiplies or divides the value
    by its power of two, and both together by the power of their sum. */
module Shifts {
  import opened ByteType
  import opened ModArith
  import opened Magnitude
  import opened PowerOfTwo

  // ----- One byte against its neighbour -----

  lemma PowerProduct(bits: nat)
    requires bits <= 8
    ensures Power(bits) * Power(8 - bits) == 256
  {
    Pow2Add(bits, 8 - bits);
    Pow2Small();
  }

  /** Shifting up by m pushes out what shifting down by 256 / m keeps. */
  lemma SplitUp(d: byte, bits: nat)
    requires bits <= 8
    ensures ShiftUp(d, bits) as int + 256 * ShiftDown(d, 8 - bits) as int == d as int * Power(bits)
    ensures ShiftUp(d, bits) as int == Power(bits) * (d as int % Power(8 - bits))
  {
    var m, w, x: int := Power(bits), Power(8 - bits), d;
    PowerProduct(bits);
    var q, r := x / w, x % w;
    assert x * m == q * 256 + m * r by {
      assert x == w * q + r;
      assert (w * q + r) * m == (m * w) * q + m * r;
    }
    MulMono(r + 1, w, m);
    MulMono(0, r, m);
    ModUnique(x * m, q, m * r, 256);
  }

  /** The bits pushed in from a neighbour fit beside the shifted byte. */
  lemma Beside(d: byte, e: byte, bits: nat)
    requires bits <= 8
    ensures ShiftUp(d, bits) as int + ShiftDown(e, 8 - bits) as int < 256
  {
    var m, w, x, y: int := Power(bits), Power(8 - bits), d, e;
    PowerProduct(bits);
    SplitUp(d, bits);
    // the shifted byte is a multiple of m, the carried bits are below m
    MulMono(x % w, w - 1, m);
    assert (w - 1) * m == 256 - m;
    DivBelow(y, m, w);
  }

  // ----- Whole bytes -----

  lemma {:induction false} ZerosValue(n: nat)
    ensures Value(seq(n, _ => 0)) == 0
  {
    AllZero(seq(n, _ => 0), 0);
  }

  /** Moves every byte up by so many places, dropping the top ones. */
  method MoveUp(a: array<byte>, bytes: nat)
    requires bytes <= a.Length
    modifies a
    ensures a[..] == old(a[..])[bytes..] + seq(bytes, _ => 0)
  {
    ghost var s := a[..];
    for index := 0 to a.Length - bytes
      invariant forall k :: 0 <= k < index ==> a[k] == s[k + bytes]
      invariant forall k :: index <= k < a.Length ==> a[k] == s[k]
    {
      a[index] := a[index + bytes];
    }
    for index := a.Length - bytes to a.Length
      invariant forall k :: 0 <= k < a.Length - bytes ==> a[k] == s[k + bytes]
      invariant forall k :: a.Length - bytes <= k < index ==> a[k] == 0
    {
      a[index] := 0;
    }
  }

  /** Moves every byte down by so many places, dropping the low ones. */
  method MoveDown(a: array<byte>, bytes: nat)
    requires bytes <= a.Length
    modifies a
    ensures a[..] == seq(bytes, _ => 0) + old(a[..])[..a.Length - bytes]
  {
    ghost var s := a[..];
    var index := a.Length - 1;
    while index >= bytes
      invariant bytes - 1 <= index < a.Length
      invariant forall k :: index < k < a.Length ==> a[k] == s[k - bytes]
      invariant forall k :: 0 <= k <= index ==> a[k] == s[k]
    {
      a[index] := a[index - bytes];
      index := index - 1;
    }
    for i := 0 to bytes
      invariant forall k :: bytes <= k < a.Length ==> a[k] == s[k - bytes]
      invariant forall k :: 0 <= k < i ==> a[k] == 0
    {
      a[i] := 0;
    }
  }

  // ----- The remaining bits -----

  /** Byte k shifted up, with the top bits of the byte after it. */
  function UpByte(s: seq<byte>, k: nat, bits: nat): byte
    requires k < |s| && bits < 8
  {
    if k + 1 < |s| then
      Beside(s[k], s[k + 1], bits);
      ShiftUp(s[k], bits) as int + ShiftDown(s[k + 1], 8 - bits) as int
    else ShiftUp(s[k], bits)
  }

  /** Byte k shifted down, with the low bits of the byte before it. */
  function DownByte(s: seq<byte>, k: nat, bits: nat): byte
    requires k < |s| && bits < 8
  {
    if k > 0 then
      Beside(s[k - 1], s[k], 8 - bits);
      ShiftDown(s[k], bits) as int + ShiftUp(s[k - 1], 8 - bits) as int
    else ShiftDown(s[k], bits)
  }

  ghost predicate ShiftedUp(s: seq<byte>, t: seq<byte>, bits: nat)
    requires bits < 8
  {
    |t| == |s| && forall k :: 0 <= k < |s| ==> t[k] == UpByte(s, k, bits)
  }

  ghost predicate ShiftedDown(s: seq<byte>, t: seq<byte>, bits: nat)
    requires bits < 8
  {
    |t| == |s| && forall k :: 0 <= k < |s| ==> t[k] == DownByte(s, k, bits)
  }

  method ShiftBitsUp(a: array<byte>, bits: nat)
    requires bits < 8
    modifies a
    ensures ShiftedUp(old(a[..]), a[..], bits)
  {
    ghost var s := a[..];
    for index := 0 to a.Length
      invariant forall k :: 0 <= k < index ==> a[k] == UpByte(s, k, bits)
      invariant forall k :: index <= k < a.Length ==> a[k] == s[k]
    {
      a[index] := ShiftUp(a[index], bits);
      if index < a.Length - 1 {
        // the bits do not overlap, so | is +
        Beside(s[index], s[index + 1], bits);
        a[index] := a[index] as int + ShiftDown(a[index + 1], 8 - bits) as int;
      }
    }
  }

  method ShiftBitsDown(a: array<byte>, bits: nat)
    requires bits < 8
    modifies a
    ensures ShiftedDown(old(a[..]), a[..], bits)
  {
    ghost var s := a[..];
    var index := a.Length - 1;
    while index >= 0
      invariant -1 <= index < a.Length
      invariant forall k :: index < k < a.Length ==> a[k] == DownByte(s, k, bits)
      invariant forall k :: 0 <= k <= index ==> a[k] == s[k]
    {
      a[index] := ShiftDown(a[index], bits);
      if index > 0 {
        Beside(s[index - 1], s[index], 8 - bits);
        a[index] := a[index] as int + ShiftUp(a[index - 1], 8 - bits) as int;
      }
      index := index - 1;
    }
  }

  /** m * v, kept as one term. */
  ghost function Times(m: int, v: int): int { m * v }

  /** The bits that shifting down drops. */
  ghost function LowBits(d: byte, bits: nat): int
    requires bits <= 8
  {
    d as int % Power(bits)
  }

  lemma TimesAdd(m: int, v: int, w: int)
    ensures Times(m, v + w) == Times(m, v) + Times(m, w)
  {
  }

  lemma {:induction false} TimesScale(m: int, v: int, k: nat)
    ensures Times(m, Scale(v, k)) == Scale(Times(m, v), k)
  {
    if k != 0 {
      TimesScale(m, v, k - 1);
      assert m * (256 * Scale(v, k - 1)) == 256 * (m * Scale(v, k - 1));
    }
  }

  lemma {:induction false} Scale256(v: int, k: nat)
    ensures Scale(256 * v, k) == Scale(v, k + 1)
  {
    if k != 0 {
      Scale256(v, k - 1);
    }
  }

  /** What the k low bytes push out when shifted up. */
  ghost function PushedUp(s: seq<byte>, bits: nat, k: nat): int
    requires bits < 8
  {
    if k == 0 then 0 else ShiftDown(Digit(s, k - 1), 8 - bits)
  }

  /** The k low digits after shifting up: what is pushed out of the top of them is missing. */
  lemma {:induction false} ShiftedUpLow(s: seq<byte>, t: seq<byte>, bits: nat, k: nat)
    requires bits < 8 && ShiftedUp(s, t, bits) && k <= |s|
    ensures LowValue(t, k) + Scale(PushedUp(s, bits, k), k) == Times(Power(bits), LowValue(s, k))
  {
    if k != 0 {
      ShiftedUpLow(s, t, bits, k - 1);
      assert t[|t| - k] == UpByte(s, |s| - k, bits);
      SplitUp(Digit(s, k - 1), bits);
      UpPlace(ShiftUp(Digit(s, k - 1), bits), PushedUp(s, bits, k - 1), PushedUp(s, bits, k), Digit(s, k - 1), Power(bits), k - 1);
      hide Power, ShiftUp, ShiftDown, Times;
      TimesAdd(Power(bits), LowValue(s, k - 1), Scale(Digit(s, k - 1), k - 1));
    }
  }

  lemma UpPlace(up: int, entering: int, pushed: int, d: int, m: int, k: nat)
    requires up + 256 * pushed == d * m
    ensures Scale(up + entering, k) + Scale(pushed, k + 1) == Scale(entering, k) + Times(m, Scale(d, k))
  {
    TimesScale(m, d, k);
    ScaleAdd(up, entering, k);
    ScaleAdd(up, 256 * pushed, k);
    Scale256(pushed, k);
  }

  lemma ShiftedUpValue(s: seq<byte>, t: seq<byte>, bits: nat)
    requires bits < 8 && ShiftedUp(s, t, bits)
    ensures Scale(1, |s|) > 0 && Value(t) == Value(s) * Power(bits) % Scale(1, |s|)
  {
    ShiftedUpLow(s, t, bits, |s|);
    WrappedTotal(t, Times(Power(bits), Value(s)), PushedUp(s, bits, |s|));
    TimesIs(Power(bits), Value(s));
  }

  lemma TimesIs(m: int, v: int)
    ensures Times(m, v) == v * m
  {
  }

  /** The k low digits after shifting down, times the power shifted by. */
  lemma {:induction false} ShiftedDownLow(s: seq<byte>, t: seq<byte>, bits: nat, k: nat)
    requires bits < 8 && ShiftedDown(s, t, bits) && k <= |s|
    ensures Times(Power(bits), LowValue(t, k)) + LowBits(Digit(s, 0), bits)
         == LowValue(s, k) + Scale(LowBits(Digit(s, k), bits), k)
  {
    if k != 0 {
      ShiftedDownLow(s, t, bits, k - 1);
      assert t[|t| - k] == DownByte(s, |s| - k, bits);
      DownDigitValue(Digit(s, k - 1), Digit(s, k), Digit(t, k - 1), bits, k == |s|);
      DownPlace(Digit(s, k - 1), LowBits(Digit(s, k - 1), bits), LowBits(Digit(s, k), bits), Power(bits), Digit(t, k - 1), k - 1);
      hide Power, ShiftUp, ShiftDown, Times, LowBits;
      TimesAdd(Power(bits), LowValue(t, k - 1), Scale(Digit(t, k - 1), k - 1));
    }
  }

  lemma DownDigitValue(d: byte, e: byte, x: byte, bits: nat, top: bool)
    requires bits < 8 && (top ==> e == 0)
    requires x as int == ShiftDown(d, bits) as int + if top then 0 else ShiftUp(e, 8 - bits) as int
    ensures Times(Power(bits), x) == d as int - LowBits(d, bits) + 256 * LowBits(e, bits)
  {
    var m, w := Power(bits), Power(8 - bits);
    SplitUp(e, 8 - bits);
    PowerProduct(bits);
    ZeroMod(m);
    DownDigit(d, e, m, w, x);
  }

  lemma DownDigit(d: int, e: int, m: int, w: int, x: int)
    requires m > 0 && m * w == 256 && x == d / m + w * (e % m)
    ensures m * x == d - d % m + 256 * (e % m)
  {
    assert d == m * (d / m) + d % m;
    assert m * (w * (e % m)) == (m * w) * (e % m);
  }

  /** The same relation at one place. */
  lemma DownPlace(d: int, low: int, entering: int, m: int, x: int, k: nat)
    requires Times(m, x) == d - low + 256 * entering
    ensures Times(m, Scale(x, k)) + Scale(low, k) == Scale(d, k) + Scale(entering, k + 1)
  {
    TimesScale(m, x, k);
    ScaleAdd(Times(m, x), low, k);
    ScaleAdd(d, 256 * entering, k);
    Scale256(entering, k);
  }

  lemma ShiftedDownValue(s: seq<byte>, t: seq<byte>, bits: nat)
    requires bits < 8 && ShiftedDown(s, t, bits)
    ensures Value(t) == Value(s) / Power(bits)
  {
    ShiftedDownLow(s, t, bits, |s|);
    assert Digit(s, |s|) == 0;
    ZeroMod(Power(bits));
    ScaleMono(0, 0, |s|);
    TimesIs(Power(bits), Value(t));
    ModUnique(Value(s), Value(t), LowBits(Digit(s, 0), bits), Power(bits));
  }

  lemma ZeroMod(m: int)
    requires m > 0
    ensures 0 % m == 0
  {
  }

  // ----- Any number of bits -----

  /** The value times 2^pos, as far as it fits. */
  method ShiftLeftInPlace(a: array<byte>, pos: nat)
    requires pos <= 8 * a.Length
    modifies a
    ensures Scale(1, a.Length) > 0 && Value(a[..]) == old(Value(a[..])) * Pow2(pos) % Scale(1, a.Length)
  {
    ghost var s := a[..];
    var bytes, bits := pos / 8, pos % 8;
    if bytes != 0 {
      MoveUp(a, bytes);
    }
    ghost var u := a[..];
    assert u == s[bytes..] + seq(bytes, _ => 0);
    ShiftBitsUp(a, bits);
    MovedUpValue(s, u, bytes);
    ShiftedUpValue(u, a[..], bits);
    ShiftPowers(Value(s), bytes, bits, pos, Scale(1, a.Length), Value(u), Value(a[..]));
  }

  lemma MovedUpValue(s: seq<byte>, u: seq<byte>, bytes: nat)
    requires bytes <= |s| && u == s[bytes..] + seq(bytes, _ => 0)
    ensures Scale(1, |s|) > 0 && Value(u) == Value(s) * Pow2(8 * bytes) % Scale(1, |s|)
  {
    hide Value;
    var high, low := s[..bytes], s[bytes..];
    assert s == high + low;
    ValueConcat(high, low);
    ValueConcat(low, seq(bytes, _ => 0));
    ZerosValue(bytes);
    ScaleTimes(Value(s), bytes);
    ScaleIsPow2(bytes);
    ScaleAdd(Scale(Value(high), |low|), Value(low), bytes);
    ScaleTwice(Value(high), |low|, bytes);
    WrappedTotal(u, Scale(Value(s), bytes), Value(high));
  }

  lemma ShiftPowers(v: int, bytes: nat, bits: nat, pos: nat, n: int, moved: int, shifted: int)
    requires pos == 8 * bytes + bits && bits < 8 && n > 0
    requires moved == v * Pow2(8 * bytes) % n && shifted == moved * Pow2(bits) % n
    ensures shifted == v * Pow2(pos) % n
  {
    Pow2Add(8 * bytes, bits);
    ModMulLeft(v * Pow2(8 * bytes), Pow2(bits), n);
    TimesTwice(v, Pow2(8 * bytes), Pow2(bits));
  }

  lemma TimesTwice(v: int, a: int, b: int)
    ensures v * a * b == v * (a * b)
  {
  }

  /** The value divided by 2^pos, rounded down. */
  method ShiftRightInPlace(a: array<byte>, pos: nat)
    requires pos <= 8 * a.Length
    modifies a
    ensures Value(a[..]) == old(Value(a[..])) / Pow2(pos)
  {
    ghost var s := a[..];
    var bytes, bits := pos / 8, pos % 8;
    if bytes != 0 {
      MoveDown(a, bytes);
    }
    ghost var u := a[..];
    assert u == seq(bytes, _ => 0) + s[..|s| - bytes];
    ShiftBitsDown(a, bits);
    ValueRange(s);
    MovedDownValue(s, u, bytes);
    ShiftedDownValue(u, a[..], bits);
    DivPowers(Value(s), bytes, bits, pos);
  }

  lemma MovedDownValue(s: seq<byte>, u: seq<byte>, bytes: nat)
    requires bytes <= |s| && u == seq(bytes, _ => 0) + s[..|s| - bytes]
    ensures Value(u) == Value(s) / Pow2(8 * bytes)
  {
    var high, low := s[..|s| - bytes], s[|s| - bytes..];
    assert s == high + low;
    ValueConcat(high, low);
    ValueConcat(seq(bytes, _ => 0), high);
    ZerosValue(bytes);
    ScaleMono(0, 0, |high|);
    ScaleTimes(Value(high), bytes);
    ScaleIsPow2(bytes);
    ValueRange(low);
    ModUnique(Value(s), Value(high), Value(low), Pow2(8 * bytes));
  }

  lemma DivPowers(v: int, bytes: nat, bits: nat, pos: nat)
    requires pos == 8 * bytes + bits && v >= 0
    ensures v / Pow2(8 * bytes) / Pow2(bits) == v / Pow2(pos)
  {
    Pow2Add(8 * bytes, bits);
    DivDiv(v, Pow2(8 * bytes), Pow2(bits));
  }
}
