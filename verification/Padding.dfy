/** PKCS#7 padding of crypto/src/padding.cpp. */
module Padding {
  import opened ByteType
  import opened ByteXor
  import opened ModArith
  import opened Wrappers

  /** The number of padding bytes, a whole block when the data ends on one. */
  function PadSize(size: nat, blockSize: nat): (n: nat)
    requires 1 <= blockSize <= 255
    ensures 1 <= n <= blockSize && (size + n) % blockSize == 0
  {
    BlockAfter(size, blockSize);
    blockSize - size % blockSize
  }

  lemma BlockAfter(size: nat, blockSize: nat)
    requires blockSize >= 1
    ensures (size + (blockSize - size % blockSize)) % blockSize == 0
  {
    var q := size / blockSize;
    assert size + (blockSize - size % blockSize) == 0 + (q + 1) * blockSize;
    ModWitness(0, q + 1, blockSize);
  }

  /** n bytes of value n. */
  function PadBytes(n: nat): Bytes
    requires n < 256
  {
    seq(n, _ => n)
  }

  function Padded(data: Bytes, blockSize: nat): Bytes
    requires 1 <= blockSize <= 255
  {
    data + PadBytes(PadSize(|data|, blockSize))
  }

  /** What the code takes off: as many bytes as the last one says, when they all say the same;
      a last byte of zero takes nothing off. */
  function Unpadded(data: Bytes, blockSize: nat): Option<Bytes> {
    if |data| == 0 || |data| < blockSize then None
    else
      var n := data[|data| - 1] as int;
      if n > blockSize then None
      else if data[|data| - n..] == PadBytes(n) then Some(data[..|data| - n])
      else None
  }

  /** Unpadding takes padding off. */
  lemma PadRoundTrip(data: Bytes, blockSize: nat)
    requires 1 <= blockSize <= 255
    ensures Unpadded(Padded(data, blockSize), blockSize) == Some(data)
  {
    var n := PadSize(|data|, blockSize);
    var p := Padded(data, blockSize);
    assert p[|p| - n..] == PadBytes(n) && p[..|p| - n] == data && p[|p| - 1] == n;
    BlockFits(|data| + n, blockSize);
  }

  lemma BlockFits(size: nat, blockSize: nat)
    requires blockSize >= 1 && size >= 1 && size % blockSize == 0
    ensures size >= blockSize
  {
  }

  /** Whole blocks are unpadded exactly when they are the padding of the result, or end in a zero
      byte and are returned as they are. */
  lemma UnpadExactly(data: Bytes, blockSize: nat, x: Bytes)
    requires 1 <= blockSize <= 255 && |data| >= blockSize && |data| % blockSize == 0
    ensures Unpadded(data, blockSize) == Some(x)
      <==> (data == Padded(x, blockSize) || (data[|data| - 1] == 0 && x == data))
  {
    if data == Padded(x, blockSize) {
      PadRoundTrip(x, blockSize);
    }
    if Unpadded(data, blockSize) == Some(x) && data[|data| - 1] != 0 {
      var n := data[|data| - 1] as int;
      assert data == x + PadBytes(n);
      PadSizeUnique(|x|, n, blockSize);
    }
    if data[|data| - 1] == 0 {
      assert data[|data| - 0..] == PadBytes(0) && data[..|data| - 0] == data;
    }
  }

  lemma PadSizeUnique(size: nat, n: nat, blockSize: nat)
    requires 1 <= n <= blockSize <= 255 && (size + n) % blockSize == 0
    ensures n == PadSize(size, blockSize)
  {
    SameMultiple(size + n, size + PadSize(size, blockSize), blockSize);
  }

  /** Multiples of m within m of each other are equal. */
  lemma SameMultiple(x: int, y: int, m: int)
    requires m > 0 && x % m == 0 && y % m == 0 && -m < x - y < m
    ensures x == y
  {
    var a, b := x / m, y / m;
    if a > b {
      MulMono(b + 1, a, m);
    } else if a < b {
      MulMono(a + 1, b, m);
    }
  }

  method Pad(data: Bytes, blockSize: nat) returns (result: Bytes)
    requires 1 <= blockSize <= 255
    ensures result == Padded(data, blockSize)
  {
    var padSize := if |data| % blockSize == 0 then blockSize else blockSize - |data| % blockSize;
    assert padSize == PadSize(|data|, blockSize);
    var buffer := new byte[|data| + padSize](i => if 0 <= i < |data| then data[i] else 0);
    var dptr := buffer.Length - padSize;
    while dptr <= buffer.Length - 1
      invariant buffer.Length - padSize <= dptr <= buffer.Length
      invariant forall k :: 0 <= k < |data| ==> buffer[k] == data[k]
      invariant forall k :: |data| <= k < dptr ==> buffer[k] == padSize
    {
      buffer[dptr] := padSize;
      dptr := dptr + 1;
    }
    result := buffer[..];
  }

  /** None where the code throws. */
  method Unpad(data: Bytes, blockSize: nat) returns (result: Option<Bytes>)
    requires blockSize >= 1
    ensures result == Unpadded(data, blockSize)
  {
    if |data| < blockSize {
      return None;
    }
    var padSize := data[|data| - 1] as int;
    if padSize > blockSize {
      return None;
    }
    var sptr := |data| - padSize;
    while sptr <= |data| - 1
      invariant |data| - padSize <= sptr <= |data|
      invariant forall k :: |data| - padSize <= k < sptr ==> data[k] == padSize
    {
      if data[sptr] != padSize {
        assert data[|data| - padSize..][sptr - (|data| - padSize)] != PadBytes(padSize)[sptr - (|data| - padSize)];
        return None;
      }
      sptr := sptr + 1;
    }
    assert data[|data| - padSize..] == PadBytes(padSize);
    return Some(data[..|data| - padSize]);
  }
}
