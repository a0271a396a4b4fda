/** The shift operators of core/src/buffer.cpp, for any distance. One past the size of the buffer leaves zeros;
    for a smaller one the loops are those of the big integers, so that the value is multiplied by a power of
    two modulo the range of the buffer, or divided by it and rounded down. */
module BufferShift {
  import opened ByteType
  import opened ModArith
  import opened Magnitude
  import opened PowerOfTwo
  import opened Shifts

  method Clear(a: array<byte>)
    modifies a
    ensures a[..] == seq(a.Length, _ => 0)
  {
    for i := 0 to a.Length
      invariant forall k :: 0 <= k < i ==> a[k] == 0
    {
      a[i] := 0;
    }
  }

  lemma WholePower(bytes: nat, pos: nat) returns (rest: int)
    requires pos >= 8 * bytes
    ensures rest >= 1 && Scale(1, bytes) > 0 && Pow2(pos) == rest * Scale(1, bytes)
  {
    ScaleTimes(1, bytes);
    ScaleIsPow2(bytes);
    Pow2Add(8 * bytes, pos - 8 * bytes);
    rest := Pow2(pos - 8 * bytes);
  }

  lemma MultipleVanishes(v: int, rest: int, n: int)
    requires n > 0
    ensures v * (rest * n) % n == 0
  {
    assert v * (rest * n) == 0 + (v * rest) * n;
    ModWitness(0, v * rest, n);
  }

  lemma SmallQuotient(v: int, rest: int, n: int)
    requires 0 <= v < n && rest >= 1
    ensures rest * n > 0 && v / (rest * n) == 0
  {
    MulMono(1, rest, n);
    ModUnique(v, 0, v, rest * n);
  }

  /** Times 2^pos, modulo the range of the buffer. */
  method ShiftLeft(a: array<byte>, pos: nat)
    modifies a
    ensures Scale(1, a.Length) > 0 && Value(a[..]) == old(Value(a[..])) * Pow2(pos) % Scale(1, a.Length)
  {
    if pos >= a.Length * 8 {
      ghost var v := Value(a[..]);
      Clear(a);
      ZerosValue(a.Length);
      var rest := WholePower(a.Length, pos);
      MultipleVanishes(v, rest, Scale(1, a.Length));
      return;
    }
    ShiftLeftInPlace(a, pos);
  }

  /** Divided by 2^pos, rounded down. */
  method ShiftRight(a: array<byte>, pos: nat)
    modifies a
    ensures Value(a[..]) == old(Value(a[..])) / Pow2(pos)
  {
    if pos >= a.Length * 8 {
      ghost var v := Value(a[..]);
      LowValueRange(a[..], a.Length);
      Clear(a);
      ZerosValue(a.Length);
      var rest := WholePower(a.Length, pos);
      SmallQuotient(v, rest, Scale(1, a.Length));
      return;
    }
    ShiftRightInPlace(a, pos);
  }
}
