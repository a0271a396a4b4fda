/** The substitution box of crypto/src/aes.cpp, section 5.1.1 of FIPS 197: an entry is the affine map of the
    inverse of its index in the field of 256 elements. The inverse is found by the tables of powers and
    logarithms, and has product 1 with the index under the multiplication by tables and under that by
    shifting and adding. */
module AesSbox {
  import opened AesTables
  import opened AesField

  /** The inverse in the field, and 0 for 0. */
  function Inverse(x: bv8): bv8 { if x == 0 then 0 else Alog(255 - Log(x)) }

  /** Also by shifting and adding. */
  lemma InverseIs(x: bv8)
    requires x != 0
    ensures Multiply(x, Inverse(x)) == 1 && ShiftAdd(x, Inverse(x), 0, BITS) == 1
  {
    hide Alog, Log, LogSum, ShiftAdd;
    AlogLog(x);
    var l := Log(x);
    var y := Alog(255 - l);
    AlogEnds();
    if l == 0 {
      LogOfOne();
    } else {
      LogAlog(255 - l);
    }
    NotZero(255 - l);
    LogSumAround(l);
    assert Multiply(x, y) == Alog(LogSum(l, Log(y)));
    TablesAgree(x, y);
  }

  lemma LogAlog(i: bv8)
    requires i != 0xff
    ensures Log(Alog(i)) == i
  {
    var y := Alog(i);
    var z := Log(y);
    assert z == i;
  }

  lemma LogOfOne()
    ensures Log(1) == 0
  {
  }

  lemma NotZero(i: bv8)
    ensures Alog(i) != 0
  {
  }

  lemma LogSumAround(l: bv8)
    ensures LogSum(l, 255 - l) == 0 && LogSum(0, 0) == 0
  {
  }

  /** Each bit is the sum of that bit, the four after it, around, and a constant. */
  function Affine(y: bv8): bv8 {
    y ^ y.RotateLeft(1) ^ y.RotateLeft(2) ^ y.RotateLeft(3) ^ y.RotateLeft(4) ^ 0x63
  }

  // Sixteen bytes at a time.

  lemma Sbox0x(x: bv8)
    requires x >> 4 == 0
    ensures Sbox(x) == Affine(Inverse(x))
  {
  }

  lemma Sbox1x(x: bv8)
    requires x >> 4 == 1
    ensures Sbox(x) == Affine(Inverse(x))
  {
  }

  lemma Sbox2x(x: bv8)
    requires x >> 4 == 2
    ensures Sbox(x) == Affine(Inverse(x))
  {
  }

  lemma Sbox3x(x: bv8)
    requires x >> 4 == 3
    ensures Sbox(x) == Affine(Inverse(x))
  {
  }

  lemma Sbox4x(x: bv8)
    requires x >> 4 == 4
    ensures Sbox(x) == Affine(Inverse(x))
  {
  }

  lemma Sbox5x(x: bv8)
    requires x >> 4 == 5
    ensures Sbox(x) == Affine(Inverse(x))
  {
  }

  lemma Sbox6x(x: bv8)
    requires x >> 4 == 6
    ensures Sbox(x) == Affine(Inverse(x))
  {
  }

  lemma Sbox7x(x: bv8)
    requires x >> 4 == 7
    ensures Sbox(x) == Affine(Inverse(x))
  {
  }

  lemma Sbox8x(x: bv8)
    requires x >> 4 == 8
    ensures Sbox(x) == Affine(Inverse(x))
  {
  }

  lemma Sbox9x(x: bv8)
    requires x >> 4 == 9
    ensures Sbox(x) == Affine(Inverse(x))
  {
  }

  lemma SboxAx(x: bv8)
    requires x >> 4 == 10
    ensures Sbox(x) == Affine(Inverse(x))
  {
  }

  lemma SboxBx(x: bv8)
    requires x >> 4 == 11
    ensures Sbox(x) == Affine(Inverse(x))
  {
  }

  lemma SboxCx(x: bv8)
    requires x >> 4 == 12
    ensures Sbox(x) == Affine(Inverse(x))
  {
  }

  lemma SboxDx(x: bv8)
    requires x >> 4 == 13
    ensures Sbox(x) == Affine(Inverse(x))
  {
  }

  lemma SboxEx(x: bv8)
    requires x >> 4 == 14
    ensures Sbox(x) == Affine(Inverse(x))
  {
  }

  lemma SboxFx(x: bv8)
    requires x >> 4 == 15
    ensures Sbox(x) == Affine(Inverse(x))
  {
  }

  /** The box is the affine map of the inverse. */
  lemma SboxIs(x: bv8)
    ensures Sbox(x) == Affine(Inverse(x))
  {
    hide Sbox, Affine, Inverse;
    match x >> 4
    case 0 => Sbox0x(x);
    case 1 => Sbox1x(x);
    case 2 => Sbox2x(x);
    case 3 => Sbox3x(x);
    case 4 => Sbox4x(x);
    case 5 => Sbox5x(x);
    case 6 => Sbox6x(x);
    case 7 => Sbox7x(x);
    case 8 => Sbox8x(x);
    case 9 => Sbox9x(x);
    case 10 => SboxAx(x);
    case 11 => SboxBx(x);
    case 12 => SboxCx(x);
    case 13 => SboxDx(x);
    case 14 => SboxEx(x);
    case _ => SboxFx(x);
  }
}
