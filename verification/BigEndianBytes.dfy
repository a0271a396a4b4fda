/** Numbers as big-endian byte strings of a fixed size, as the lengths in the padding of SHA and in the last
    block of GCM are written: the lowest bytes of the number, so that one that is too large loses its
    highest, and a number of sixteen bytes is that of its two words one after the other, which is how the
    source writes the length of a message it counts in two words. */
module BigEndianBytes {
  import opened ByteType
  import opened ByteXor
  import opened ModArith
  import M = Magnitude

  /** The last n bytes of a number, high byte first. */
  function BigEndian(v: nat, n: nat): (r: Bytes)
    ensures |r| == n
  {
    if n == 0 then [] else BigEndian(v / 256, n - 1) + [v % 256]
  }

  lemma {:induction false} BigEndianValue(v: nat, n: nat)
    ensures M.Scale(1, n) > 0 && M.Value(BigEndian(v, n)) == v % M.Scale(1, n)
  {
    M.ScaleTimes(1, n);
    if n == 0 {
      assert v % 1 == 0;
    } else {
      BigEndianValue(v / 256, n - 1);
      M.ValueAppend(BigEndian(v / 256, n - 1), v % 256);
      LowDigit(v, M.Scale(1, n - 1));
    }
  }

  lemma LowDigit(v: nat, m: int)
    requires m > 0
    ensures v % (256 * m) == 256 * (v / 256 % m) + v % 256
  {
    var q := v / 256 / m;
    var r := v / 256 % m;
    assert v / 256 == q * m + r;
    assert v == q * (256 * m) + (256 * r + v % 256);
    ModUnique(v, q, 256 * r + v % 256, 256 * m);
  }

  /** High bytes before low bytes. */
  lemma {:induction false} BigEndianJoin(w: nat, low: nat, m: nat, n: nat, v: nat)
    requires low < M.Scale(1, n) && v == w * M.Scale(1, n) + low
    ensures BigEndian(v, m + n) == BigEndian(w, m) + BigEndian(low, n)
  {
    if n == 0 {
      assert BigEndian(low, 0) == [] && BigEndian(w, m) + [] == BigEndian(w, m);
    } else {
      var s := M.Scale(1, n - 1);
      Divided(w, low, s, v);
      BigEndianJoin(w, low / 256, m, n - 1, v / 256);
    }
  }

  lemma Divided(w: nat, low: nat, s: int, v: nat)
    requires low < 256 * s && v == w * (256 * s) + low
    ensures v / 256 == w * s + low / 256 && v % 256 == low % 256 && low / 256 < s
  {
    assert v == (w * s + low / 256) * 256 + low % 256;
    ModUnique(v, w * s + low / 256, low % 256, 256);
  }

  /** Only the low bytes count. */
  lemma {:induction false} BigEndianLow(v: nat, n: nat)
    ensures M.Scale(1, n) > 0 && BigEndian(v % M.Scale(1, n), n) == BigEndian(v, n)
  {
    M.ScaleTimes(1, n);
    if n != 0 {
      BigEndianLow(v / 256, n - 1);
      var m := M.Scale(1, n - 1);
      LowDigit(v, m);
      assert (256 * (v / 256 % m) + v % 256) / 256 == v / 256 % m;
    }
  }
}
