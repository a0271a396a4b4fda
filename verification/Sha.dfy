/** The buffering and padding of SHA-1 and SHA-2 in crypto/src/sha.cpp, over any compression function;
    section 5.1 of FIPS 180-4. */
module Sha {
  import opened ByteType
  import opened ByteXor
  import opened ModArith
  import opened BigEndianBytes
  import opened BlockFold
  import M = Magnitude
  import Counter

  const WORD := 0x1_0000_0000_0000_0000

  /** A block of 16 words of 4 bytes with a length of 8, or of 8 bytes with a length of 16. */
  predicate Sizes(blockSize: nat, lengthSize: nat) {
    (blockSize == 64 && lengthSize == 8) || (blockSize == 128 && lengthSize == 16)
  }

  /** The least number of zero bytes that makes whole blocks. */
  function ZeroCount(n: nat, blockSize: nat, lengthSize: nat): (k: nat)
    requires Sizes(blockSize, lengthSize)
    ensures k < blockSize && (n + 1 + k + lengthSize) % blockSize == 0
  {
    var r := (n + 1 + lengthSize) % blockSize;
    if r == 0 then 0 else blockSize - r
  }

  /** A one bit, zeros, and the length in bits. */
  function Padding(n: nat, blockSize: nat, lengthSize: nat): Bytes
    requires Sizes(blockSize, lengthSize)
  {
    [0x80] + seq(ZeroCount(n, blockSize, lengthSize), _ => 0) + BigEndian(8 * n, lengthSize)
  }

  lemma PaddedWhole(msg: Bytes, blockSize: nat, lengthSize: nat)
    requires Sizes(blockSize, lengthSize)
    ensures |msg + Padding(|msg|, blockSize, lengthSize)| % blockSize == 0
  {
  }

  datatype PadState = None | Start | Length

  class Hash<H(!new)> {
    const f: (H, Bytes) -> H
    const blockSize: nat
    const lengthSize: nat
    var h: H
    const block: array<byte>
    var size: nat
    var high: nat
    var low: nat
    var padState: PadState
    ghost const h0: H
    /** All bytes given so far. */
    ghost var given: Bytes

    ghost predicate Shaped()
      reads this
    {
      Sizes(blockSize, lengthSize) && block.Length == blockSize && size <= blockSize
    }

    /** The length so far in bits, in two words. */
    ghost predicate Counted()
      reads `high, `low, `given
    {
      low == 8 * |given| % WORD && high == 8 * |given| / WORD % WORD
    }

    ghost predicate Valid()
      reads this, block
    {
      && Shaped() && padState == None && size == |given| % blockSize && Counted()
      && Progress(f, blockSize, h0, given, h, block[..size])
    }

    constructor (f: (H, Bytes) -> H, iv: H, blockSize: nat, lengthSize: nat)
      requires Sizes(blockSize, lengthSize)
      ensures Valid() && fresh(block) && given == [] && this.f == f && h0 == iv
      ensures this.blockSize == blockSize && this.lengthSize == lengthSize
    {
      this.f, this.blockSize, this.lengthSize := f, blockSize, lengthSize;
      h, h0 := iv, iv;
      block := new byte[blockSize](_ => 0);
      size, high, low, padState, given := 0, 0, 0, None, [];
      new;
      ProgressStart(f, blockSize, iv);
      assert block[..0] == [];
    }

    /** Copies bytes into the block. */
    method Copy(s: Bytes)
      requires Shaped() && size + |s| <= blockSize
      modifies block, `size
      ensures size == old(size) + |s| && block[..size] == old(block[..size]) + s
    {
      for i := 0 to |s|
        invariant size == old(size) && block[..size] == old(block[..size])
        invariant block[size..size + i] == s[..i]
      {
        block[size + i] := s[i];
      }
      assert block[..size + |s|] == block[..size] + block[size..size + |s|];
      size := size + |s|;
    }

    method Compute()
      requires Shaped() && size == blockSize
      modifies `h, `size
      ensures h == f(old(h), block[..]) && size == 0
    {
      h := f(h, block[..]);
      size := 0;
    }

    /** Counts a chunk, with a carry when the low word wraps; no buffer holds more bits than a word. */
    method Count(chunk: Bytes)
      requires Counted() && 8 * |chunk| < WORD
      modifies `high, `low, `given
      ensures given == old(given) + chunk && Counted()
    {
      CountCarry(8 * |given|, 8 * |chunk|);
      var before := low;
      low := (low + |chunk| * 8) % WORD;
      if low < before {
        high := (high + 1) % WORD;
      }
      given := given + chunk;
    }

    /** Fills up the block, and computes it when it is full; g is what was taken before. */
    method Take(part: Bytes, ghost g: Bytes)
      requires Shaped() && size == |g| % blockSize && size + |part| <= blockSize
      requires Progress(f, blockSize, h0, g, h, block[..size])
      modifies `h, `size, block
      ensures Shaped() && size == |g + part| % blockSize
      ensures Progress(f, blockSize, h0, g + part, h, block[..size])
    {
      hide Progress;
      ProgressBytes(f, blockSize, h0, g, h, block[..size], part);
      ModNext(|g|, |part|, blockSize);
      Copy(part);
      if size == blockSize {
        assert block[..size] == block[..];
        ProgressBlock(f, blockSize, h0, g + part, h, block[..]);
        Compute();
        assert block[..0] == [];
      }
    }

    /** Any part of a message. */
    method Update(chunk: Bytes)
      requires Valid() && 8 * |chunk| < WORD
      modifies this, block
      ensures Valid() && given == old(given) + chunk
    {
      hide Progress;
      var src, sz := 0, |chunk|;
      assert given + chunk[..0] == given;
      while sz > 0
        invariant 0 <= src && 0 <= sz && src + sz == |chunk| && Shaped() && padState == None
        invariant given == old(given) && Counted() && size == |given + chunk[..src]| % blockSize
        invariant Progress(f, blockSize, h0, given + chunk[..src], h, block[..size])
      {
        var available := blockSize - size;
        var copy := if sz > available then available else sz;
        assert given + chunk[..src + copy] == given + chunk[..src] + chunk[src..src + copy];
        Take(chunk[src..src + copy], given + chunk[..src]);
        sz := sz - copy;
        src := src + copy;
      }
      assert chunk[..src] == chunk;
      Count(chunk);
    }

    /** Zeros from the end of the data on. */
    method FillZeros()
      requires Shaped()
      modifies block
      ensures block[..size] == old(block[..size]) && block[size..] == seq(blockSize - size, _ => 0)
    {
      for i := size to blockSize
        invariant block[..size] == old(block[..size])
        invariant forall k :: size <= k < i ==> block[k] == 0
      {
        block[i] := 0;
      }
    }

    /** The length at the end of the block, in one word or two. */
    method WriteLength()
      requires Shaped() && Counted()
      modifies block
      ensures block[..] == old(block[..blockSize - lengthSize]) + BigEndian(8 * |given|, lengthSize)
    {
      LengthWords(8 * |given|, high, low);
      ghost var length := BigEndian(8 * |given|, lengthSize);
      ghost var front := block[..blockSize - lengthSize];
      if lengthSize == 16 {
        WriteWord(blockSize - 16, high);
      }
      WriteWord(blockSize - 8, low);
      assert block[..blockSize - lengthSize] == front;
      assert block[blockSize - lengthSize..] == length;
      assert block[..] == block[..blockSize - lengthSize] + block[blockSize - lengthSize..];
    }

    /** Eight bytes, high byte first. */
    method WriteWord(at: nat, word: nat)
      requires Shaped() && at + 8 <= blockSize
      modifies block
      ensures block[at..at + 8] == BigEndian(word, 8)
      ensures block[..at] == old(block[..at]) && block[at + 8..] == old(block[at + 8..])
    {
      var bytes := BigEndian(word, 8);
      for i := 0 to 8
        invariant block[at..at + i] == bytes[..i]
        invariant block[..at] == old(block[..at]) && block[at + 8..] == old(block[at + 8..])
      {
        block[at + i] := bytes[i];
      }
    }

    ghost function LengthBytes(): (r: Bytes)
      reads `given
      ensures |r| == lengthSize
    {
      BigEndian(8 * |given|, lengthSize)
    }

    /** Pads the block; false when the length does not fit any more. */
    method Pad() returns (padded: bool)
      requires Shaped() && Counted()
      requires (padState == None && size < blockSize) || (padState == Start && size == 0)
      modifies block, `size, `padState
      ensures size == blockSize && padState == if padded then Length else Start
      ensures old(padState) == Start ==> padded && block[..] == seq(blockSize - lengthSize, _ => 0) + LengthBytes()
      ensures old(padState) == None ==> padded == (old(size) + 1 <= blockSize - lengthSize)
      ensures old(padState) == None && padded ==>
        block[..] == old(block[..size]) + [0x80] + seq(blockSize - lengthSize - old(size) - 1, _ => 0) + LengthBytes()
      ensures old(padState) == None && !padded ==>
        block[..] == old(block[..size]) + [0x80] + seq(blockSize - old(size) - 1, _ => 0)
    {
      hide BigEndian;
      if padState == None {
        block[size] := 0x80;
        size := size + 1;
        padState := Start;
        assert block[..size] == old(block[..size]) + [0x80];
      }
      if padState == Start {
        FillZeros();
      }
      if size > blockSize - lengthSize {
        assert block[..] == block[..size] + block[size..];
        size := blockSize;
        return false;
      }
      assert block[..blockSize - lengthSize] == block[..size] + seq(blockSize - lengthSize - size, _ => 0);
      padState := Length;
      WriteLength();
      size := blockSize;
      return true;
    }

    /** Before the first block of padding: what is waiting is w. Before the second: only the length is
        left to come. */
    ghost predicate Closing(goal: H, h1: H, w: Bytes)
      reads this, block
    {
      && Shaped() && Counted() && size < blockSize
      && match padState
         case None => h == h1 && block[..size] == w
         case Start => size == 0 && Fold(f, blockSize, h, Tail()) == goal
         case Length => false
    }

    /** The second block of padding. */
    ghost function Tail(): (r: Bytes)
      requires Sizes(blockSize, lengthSize)
      reads `given
      ensures |r| == blockSize
    {
      seq(blockSize - lengthSize, _ => 0) + LengthBytes()
    }

    /** One block of padding. */
    method PadAndCompute(ghost goal: H, ghost h1: H, ghost w: Bytes) returns (padded: bool)
      requires Closing(goal, h1, w)
      requires Fold(f, blockSize, h1, w + Padding(|given|, blockSize, lengthSize)) == goal
      requires padState == None ==> |w| == |given| % blockSize
      modifies block, `size, `padState, `h
      ensures if padded then h == goal else old(padState) == None && padState == Start && Closing(goal, h1, w)
    {
      hide BigEndian, Fold;
      if padState == None {
        if |w| + 1 <= blockSize - lengthSize {
          PadOne(w, |given|, blockSize, lengthSize);
        } else {
          PadTwo(w, |given|, blockSize, lengthSize);
        }
      }
      padded := Pad();
      OneBlock(f, blockSize, h, block[..]);
      FoldBlock(f, blockSize, h, block[..], Tail());
      Compute();
    }

    /** The hash of all that was given, in whatever parts: the blocks of the padded message. */
    method Close()
      requires Valid()
      modifies this, block
      ensures h == Fold(f, blockSize, h0, given + Padding(|given|, blockSize, lengthSize)) && given == old(given)
    {
      hide BigEndian, Fold, Padding;
      ghost var padding := Padding(|given|, blockSize, lengthSize);
      ghost var goal, h1, w := Fold(f, blockSize, h0, given + padding), h, block[..size];
      assert goal == Fold(f, blockSize, h1, w + padding);
      var padded := false;
      while !padded
        invariant given == old(given) && (padded ==> h == goal)
        invariant !padded ==> Closing(goal, h1, w) && (padState == None ==> |w| == |given| % blockSize)
        decreases if padded then 0 else if padState == None then 2 else 1
      {
        hide Closing;
        padded := PadAndCompute(goal, h1, w);
      }
    }
  }

  lemma OneBlock<H>(f: (H, Bytes) -> H, size: nat, h: H, block: Bytes)
    requires size > 0 && |block| == size
    ensures Fold(f, size, h, block) == f(h, block)
  {
    FoldBlock(f, size, h, block, []);
    assert block + [] == block;
  }

  /** The length fits behind what is waiting. */
  lemma PadOne(w: Bytes, n: nat, blockSize: nat, lengthSize: nat)
    requires Sizes(blockSize, lengthSize) && |w| == n % blockSize && |w| + 1 <= blockSize - lengthSize
    ensures w + Padding(n, blockSize, lengthSize)
      == w + [0x80] + seq(blockSize - lengthSize - |w| - 1, _ => 0) + BigEndian(8 * n, lengthSize)
  {
    hide BigEndian;
    assert ZeroCount(n, blockSize, lengthSize) == blockSize - lengthSize - |w| - 1;
  }

  /** It does not, and goes into a block of its own. */
  lemma PadTwo(w: Bytes, n: nat, blockSize: nat, lengthSize: nat)
    requires Sizes(blockSize, lengthSize) && |w| == n % blockSize && |w| + 1 > blockSize - lengthSize
    ensures w + Padding(n, blockSize, lengthSize)
      == (w + [0x80] + seq(blockSize - |w| - 1, _ => 0))
       + (seq(blockSize - lengthSize, _ => 0) + BigEndian(8 * n, lengthSize))
  {
    hide BigEndian;
    var k := ZeroCount(n, blockSize, lengthSize);
    assert k == 2 * blockSize - lengthSize - |w| - 1;
    assert seq(k, _ => 0) == seq(blockSize - |w| - 1, _ => 0) + seq(blockSize - lengthSize, _ => 0);
  }

  lemma CountCarry(total: nat, bits: nat)
    requires bits < WORD
    ensures var low := total % WORD; var low' := (low + bits) % WORD;
      && (total + bits) % WORD == low'
      && (total + bits) / WORD % WORD == if low' < low then (total / WORD % WORD + 1) % WORD else total / WORD % WORD
  {
    var q, low := total / WORD, total % WORD;
    if low + bits < WORD {
      ModUnique(total + bits, q, low + bits, WORD);
    } else {
      ModUnique(total + bits, q + 1, low + bits - WORD, WORD);
      ModUnique(low + bits, 1, low + bits - WORD, WORD);
      Counter.ModStep(q, WORD);
    }
  }

  /** Both words of the length together are its sixteen bytes, the low word alone its eight. */
  lemma LengthWords(bits: nat, high: nat, low: nat)
    requires low == bits % WORD && high == bits / WORD % WORD
    ensures BigEndian(low, 8) == BigEndian(bits, 8)
    ensures BigEndian(high, 8) + BigEndian(low, 8) == BigEndian(bits, 16)
  {
    Counter.EightBytes();
    BigEndianLow(bits, 8);
    BigEndianLow(bits / WORD, 8);
    BigEndianJoin(bits / WORD, low, 8, 8, bits);
  }
}
