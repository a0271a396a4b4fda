/** The counter blocks of GCM in crypto/src/block_cipher.cpp for a whole text, beside those of
    section 6.2 of NIST SP 800-38D. */
module GcmCounter {
  import opened ByteType
  import opened Magnitude
  import opened ModArith
  import opened Counter
  import opened GcmHash
  import GaloisField
  import BlockMode

  /** The standard increments the last four bytes only. */
  ghost function StandardSteps(c: seq<byte>, n: nat): (d: seq<byte>)
    ensures |d| == |c|
  {
    if n == 0 then c else Successor(StandardSteps(c, n - 1), 4)
  }

  const FOUR_BYTES: int := 0x1_0000_0000

  lemma {:induction false} StandardValue(c: seq<byte>, n: nat)
    requires |c| >= 4
    ensures LowValue(StandardSteps(c, n), 4) == (LowValue(c, 4) + n) % FOUR_BYTES
  {
    FourBytes();
    if n == 0 {
      LowValueRange(c, 4);
    } else {
      StandardValue(c, n - 1);
      hide Successor, LowValue, Scale;
      SuccessorValue(StandardSteps(c, n - 1), 4);
      ModStep(LowValue(c, 4) + n - 1, FOUR_BYTES);
    }
  }

  /** The last four bytes hold the largest number when they are all full. */
  lemma FullBytes(c: seq<byte>)
    requires |c| >= 4
    ensures LowValue(c, 4) == FOUR_BYTES - 1 <==> !(exists i :: |c| - 4 <= i < |c| && c[i] != 255)
  {
    var a, b, d, e := Digit(c, 0), Digit(c, 1), Digit(c, 2), Digit(c, 3);
    FourDigits(c, a, b, d, e);
    hide LowValue, Scale;
    assert a == c[|c| - 1] && b == c[|c| - 2] && d == c[|c| - 3] && e == c[|c| - 4];
  }

  lemma FourDigits(c: seq<byte>, a: byte, b: byte, d: byte, e: byte)
    requires a == Digit(c, 0) && b == Digit(c, 1) && d == Digit(c, 2) && e == Digit(c, 3)
    ensures LowValue(c, 4) == a as int + 0x100 * b + 0x1_0000 * d + 0x100_0000 * e
  {
    assert LowValue(c, 1) == LowValue(c, 0) + Scale(a, 0) && LowValue(c, 0) == 0 && Scale(a, 0) == a as int;
    assert LowValue(c, 2) == LowValue(c, 1) + Scale(b, 1) && Scale(b, 1) == 256 * Scale(b, 0) == 256 * b;
    assert LowValue(c, 3) == LowValue(c, 2) + Scale(d, 2) && Scale(d, 2) == 256 * Scale(d, 1) && Scale(d, 1) == 256 * d;
    assert LowValue(c, 4) == LowValue(c, 3) + Scale(e, 3) && Scale(e, 3) == 256 * Scale(e, 2);
    assert Scale(e, 2) == 256 * Scale(e, 1) && Scale(e, 1) == 256 * e;
  }

  /** One step of both is the same, unless the last four bytes are full. */
  lemma StepIsStandard(c: seq<byte>)
    requires |c| >= 8
    ensures Next(c) == Successor(c, 4) <==> LowValue(c, 4) != FOUR_BYTES - 1
  {
    hide Successor, LowValue;
    SuccessorAgrees(c, 4, 8);
    FullBytes(c);
  }

  lemma {:induction false} StandardBefore(c: seq<byte>, n: nat)
    requires |c| >= 8 && LowValue(c, 4) + n < FOUR_BYTES
    ensures Steps(c, n) == StandardSteps(c, n) && LowValue(Steps(c, n), 4) == LowValue(c, 4) + n
  {
    hide Successor, LowValue, Next;
    LowValueRange(c, 4);
    StandardValue(c, n);
    if n != 0 {
      StandardBefore(c, n - 1);
      StepIsStandard(Steps(c, n - 1));
    }
  }

  /** The first n counter blocks after c are those of the standard exactly when the number in the last four
      bytes does not wrap. */
  lemma CountersAreStandard(c: seq<byte>, n: nat)
    requires |c| >= 8
    ensures (forall k :: 0 <= k <= n ==> Steps(c, k) == StandardSteps(c, k)) <==> LowValue(c, 4) + n < FOUR_BYTES
  {
    hide Successor, LowValue, Next;
    if LowValue(c, 4) + n < FOUR_BYTES {
      forall k | 0 <= k <= n
        ensures Steps(c, k) == StandardSteps(c, k)
      {
        StandardBefore(c, k);
      }
    } else {
      FourBytes();
      LowValueRange(c, 4);
      var k := FOUR_BYTES - 1 - LowValue(c, 4);
      StandardBefore(c, k);
      StepIsStandard(Steps(c, k));
      assert Steps(c, k + 1) != StandardSteps(c, k + 1);
    }
  }

  /** For a vector of twelve bytes: the counter blocks of a text are those of the standard exactly up to
      2^36 - 32 bytes, which is the longest text the standard allows. */
  lemma TextIsStandard(c: BlockMode.Cipher, h: GaloisField.Block, iv: seq<byte>, size: nat)
    requires c.blockSize == 16 && |iv| == 12
    ensures
      var first := PreCounter(h, iv);
      (forall k :: 0 <= k <= BlockMode.Blocks(c, size) ==> Steps(first, k) == StandardSteps(first, k))
      <==> size <= 0xF_FFFF_FFE0
  {
    hide Steps, StandardSteps;
    var first := PreCounter(h, iv);
    FourDigits(first, 1, 0, 0, 0);
    CountersAreStandard(first, BlockMode.Blocks(c, size));
    BlockCount(c, size);
  }

  lemma {:induction false} BlockCount(c: BlockMode.Cipher, size: nat)
    requires c.blockSize == 16
    ensures 16 * BlockMode.Blocks(c, size) - 16 < size || size == 0
    ensures size <= 16 * BlockMode.Blocks(c, size)
    decreases size
  {
    if size > 16 {
      BlockCount(c, size - 16);
    }
  }
}
