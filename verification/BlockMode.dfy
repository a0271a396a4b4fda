/** The block cipher modes of crypto/src/block_cipher.cpp, over any block cipher. */
module BlockMode {
  import opened ByteType
  import opened ByteXor
  import opened Padding
  import opened Counter
  import ModArith
  import opened GaloisField
  import opened GcmHash
  import opened Wrappers

  datatype Kind = ECB | CBC | CFB | CTR | GCM
  {
    /** Whether the last block is padded. */
    predicate Pads() { ECB? || CBC? }

    predicate Counts() { CTR? || GCM? }
  }

  /** A block cipher under one key. */
  datatype Cipher = Cipher(blockSize: nat, forward: Bytes -> Bytes, inverse: Bytes -> Bytes)
  {
    ghost predicate Valid() {
      && 1 <= blockSize <= 255
      && (forall b {:trigger forward(b)} :: |b| == blockSize ==> |forward(b)| == blockSize)
      && (forall b {:trigger inverse(b)} :: |b| == blockSize ==> |inverse(b)| == blockSize)
    }

    ghost predicate Invertible() {
      forall b {:trigger forward(b)} :: |b| == blockSize ==> inverse(forward(b)) == b
    }
  }

  // ----- One block; reg is the previous block or the counter -----

  ghost predicate Fits(c: Cipher, k: Kind, reg: Bytes) {
    c.Valid() && |reg| == c.blockSize
  }

  /** The key stream of the modes that do not cipher the text itself. */
  function KeyStream(c: Cipher, k: Kind, reg: Bytes): (s: Bytes)
    requires Fits(c, k, reg)
    ensures |s| == c.blockSize
  {
    c.forward(if k.GCM? then Next(reg) else reg)
  }

  function EncryptBlock(c: Cipher, k: Kind, reg: Bytes, block: Bytes): (r: Bytes)
    requires Fits(c, k, reg) && |block| <= c.blockSize && (k.Pads() ==> |block| == c.blockSize)
    ensures |r| == |block|
  {
    match k
    case ECB => c.forward(block)
    case CBC => c.forward(XorBytes(block, reg))
    case _ => XorBytes(block, KeyStream(c, k, reg))
  }

  function DecryptBlock(c: Cipher, k: Kind, reg: Bytes, block: Bytes): (r: Bytes)
    requires Fits(c, k, reg) && |block| <= c.blockSize && (k.Pads() ==> |block| == c.blockSize)
    ensures |r| == |block|
  {
    match k
    case ECB => c.inverse(block)
    case CBC => XorBytes(c.inverse(block), reg)
    case _ => XorBytes(block, KeyStream(c, k, reg))
  }

  /** The register after a block that was enciphered to, or deciphered from, this text. */
  function NextReg(k: Kind, reg: Bytes, text: Bytes): Bytes {
    match k
    case ECB => reg
    case CBC => text
    case CFB => text
    case _ => Next(reg)
  }

  lemma BlockRoundTrip(c: Cipher, k: Kind, reg: Bytes, block: Bytes)
    requires Fits(c, k, reg) && |block| <= c.blockSize
    requires k.Pads() ==> |block| == c.blockSize && c.Invertible()
    ensures DecryptBlock(c, k, reg, EncryptBlock(c, k, reg, block)) == block
  {
    match k
    case ECB =>
    case CBC => XorTwice(block, reg);
    case _ => XorTwice(block, KeyStream(c, k, reg));
  }

  /** One call of encrypt: a short final block is padded, once; an empty block gives nothing. */
  function EncryptCall(c: Cipher, k: Kind, reg: Bytes, padded: bool, plain: Bytes, last: bool): (r: Bytes)
    requires c.Valid() && (k.Pads() || plain != [] ==> Fits(c, k, reg))
    requires |plain| <= c.blockSize && (plain == [] || last || |plain| == c.blockSize)
  {
    if k.Pads() && last && |plain| < c.blockSize then
      if padded then [] else LastPadded(plain, c.blockSize); EncryptBlock(c, k, reg, Padded(plain, c.blockSize))
    else if plain == [] then [] else EncryptBlock(c, k, reg, plain)
  }

  /** One call of decrypt: the padding of the final block is taken off; None when it is wrong. */
  function DecryptCall(c: Cipher, k: Kind, reg: Bytes, text: Bytes, last: bool): Option<Bytes>
    requires c.Valid() && (text != [] ==> Fits(c, k, reg))
    requires |text| <= c.blockSize && (k.Pads() && text != [] ==> |text| == c.blockSize)
  {
    if text == [] then Some([])
    else if k.Pads() && last then Unpadded(DecryptBlock(c, k, reg, text), c.blockSize)
    else Some(DecryptBlock(c, k, reg, text))
  }

  // ----- Whole texts -----

  /** The cipher text of a message: full blocks, then what is left, padded where the mode pads. */
  function Encrypted(c: Cipher, k: Kind, reg: Bytes, msg: Bytes): Bytes
    requires Fits(c, k, reg)
    decreases |msg|
  {
    if |msg| < c.blockSize then
      (if k.Pads() then LastPadded(msg, c.blockSize); EncryptBlock(c, k, reg, Padded(msg, c.blockSize))
       else EncryptBlock(c, k, reg, msg))
    else
      var block := EncryptBlock(c, k, reg, msg[..c.blockSize]);
      block + Encrypted(c, k, NextReg(k, reg, block), msg[c.blockSize..])
  }

  lemma LastPadded(msg: Bytes, blockSize: nat)
    requires 1 <= blockSize <= 255 && |msg| < blockSize
    ensures |Padded(msg, blockSize)| == blockSize
  {
  }

  /** A text the mode can decipher: whole blocks where it pads. */
  predicate Decipherable(c: Cipher, k: Kind, text: Bytes)
    requires c.blockSize > 0
  {
    k.Pads() ==> |text| % c.blockSize == 0
  }

  /** The message of a cipher text; None when the padding is wrong. */
  function Decrypted(c: Cipher, k: Kind, reg: Bytes, text: Bytes): Option<Bytes>
    requires Fits(c, k, reg) && Decipherable(c, k, text)
    decreases |text|
  {
    if |text| == 0 then Some([])
    else if |text| <= c.blockSize then
      WholeBlock(|text|, c.blockSize);
      var last := DecryptBlock(c, k, reg, text);
      if k.Pads() then Unpadded(last, c.blockSize) else Some(last)
    else
      var block := text[..c.blockSize];
      FewerBlocks(|text|, c.blockSize);
      var rest := Decrypted(c, k, NextReg(k, reg, block), text[c.blockSize..]);
      if rest.None? then None else Some(DecryptBlock(c, k, reg, block) + rest.value)
  }

  lemma WholeBlock(n: nat, blockSize: nat)
    requires 0 < n <= blockSize
    ensures n % blockSize == 0 ==> n == blockSize
  {
  }

  lemma FewerBlocks(n: nat, blockSize: nat)
    requires 0 < blockSize <= n
    ensures (n - blockSize) % blockSize == n % blockSize
  {
    ModArith.ModWitness(n, -1, blockSize);
  }

  lemma LastRoundTrip(c: Cipher, k: Kind, reg: Bytes, msg: Bytes)
    requires Fits(c, k, reg) && (k.Pads() ==> c.Invertible()) && |msg| < c.blockSize
    ensures k.Pads() ==> |Encrypted(c, k, reg, msg)| == c.blockSize
    ensures Decipherable(c, k, Encrypted(c, k, reg, msg))
    ensures Decrypted(c, k, reg, Encrypted(c, k, reg, msg)) == Some(msg)
  {
    hide EncryptBlock, DecryptBlock, NextReg, Padded, Unpadded;
    if k.Pads() {
      LastPadded(msg, c.blockSize);
      PadRoundTrip(msg, c.blockSize);
      BlockRoundTrip(c, k, reg, Padded(msg, c.blockSize));
      FewerBlocks(c.blockSize, c.blockSize);
    } else {
      BlockRoundTrip(c, k, reg, msg);
    }
  }

  /** A full block before a text that is deciphered. */
  lemma FirstBlock(c: Cipher, k: Kind, reg: Bytes, block: Bytes, tail: Bytes, rest: Bytes)
    requires Fits(c, k, reg) && |block| == c.blockSize && Decipherable(c, k, tail) && (k.Pads() ==> |tail| > 0)
    requires |NextReg(k, reg, block)| == c.blockSize
    requires Decrypted(c, k, NextReg(k, reg, block), tail) == Some(rest)
    ensures Decipherable(c, k, block + tail)
    ensures Decrypted(c, k, reg, block + tail) == Some(DecryptBlock(c, k, reg, block) + rest)
  {
    hide DecryptBlock, NextReg, Unpadded;
    FewerBlocks(|block + tail|, c.blockSize);
    if |tail| == 0 {
      assert block + tail == block && DecryptBlock(c, k, reg, block) + [] == DecryptBlock(c, k, reg, block);
    } else {
      assert (block + tail)[..c.blockSize] == block && (block + tail)[c.blockSize..] == tail;
    }
  }

  lemma NextFits(c: Cipher, k: Kind, reg: Bytes, block: Bytes)
    requires Fits(c, k, reg) && |block| == c.blockSize
    ensures Fits(c, k, NextReg(k, reg, block))
  {
  }

  /** Deciphering takes enciphering back: for the padding modes with any invertible cipher, for the
      others with any cipher. */
  lemma {:induction false} RoundTrip(c: Cipher, k: Kind, reg: Bytes, msg: Bytes)
    requires Fits(c, k, reg) && (k.Pads() ==> c.Invertible())
    ensures k.Pads() ==> |Encrypted(c, k, reg, msg)| > 0
    ensures Decipherable(c, k, Encrypted(c, k, reg, msg))
    ensures Decrypted(c, k, reg, Encrypted(c, k, reg, msg)) == Some(msg)
    decreases |msg|
  {
    hide EncryptBlock, DecryptBlock, NextReg, Padded, Unpadded, Decrypted, Decipherable;
    if |msg| < c.blockSize {
      LastRoundTrip(c, k, reg, msg);
    } else {
      var first, rest := msg[..c.blockSize], msg[c.blockSize..];
      var block := EncryptBlock(c, k, reg, first);
      NextFits(c, k, reg, block);
      RoundTrip(c, k, NextReg(k, reg, block), rest);
      BlockRoundTrip(c, k, reg, first);
      FirstBlock(c, k, reg, block, Encrypted(c, k, NextReg(k, reg, block), rest), rest);
      assert msg == first + rest;
    }
  }

  // ----- The counter modes -----

  /** The counter block of each block of text. */
  ghost function CounterBlock(k: Kind, reg: Bytes, i: nat): Bytes
    requires k.Counts()
  {
    Steps(reg, if k.GCM? then i + 1 else i)
  }

  lemma {:induction false} StepsFromNext(c: Bytes, n: nat)
    ensures Steps(Next(c), n) == Steps(c, n + 1)
  {
    if n != 0 {
      StepsFromNext(c, n - 1);
    }
  }

  /** How many blocks a text takes, a partial one included. */
  function Blocks(c: Cipher, size: nat): nat
    requires c.blockSize > 0
  {
    if size == 0 then 0 else if size <= c.blockSize then 1 else 1 + Blocks(c, size - c.blockSize)
  }

  ghost function CounterBlocks(k: Kind, reg: Bytes, n: nat): seq<Bytes>
    requires k.Counts()
  {
    seq(n, i requires i >= 0 => CounterBlock(k, reg, i))
  }

  /** Counter mode of section 6.5 of NIST SP 800-38A: each block of text is combined with the
      enciphered counter block of its own. */
  ghost function Combined(c: Cipher, counters: seq<Bytes>, msg: Bytes): Bytes
    requires c.Valid() && |counters| == Blocks(c, |msg|)
    requires forall i :: 0 <= i < |counters| ==> |counters[i]| == c.blockSize
    decreases |msg|
  {
    if |msg| == 0 then []
    else if |msg| <= c.blockSize then XorBytes(msg, c.forward(counters[0]))
    else XorBytes(msg[..c.blockSize], c.forward(counters[0])) + Combined(c, counters[1..], msg[c.blockSize..])
  }

  lemma CounterBlocksStep(k: Kind, reg: Bytes, n: nat)
    requires k.Counts() && n > 0
    ensures CounterBlocks(k, reg, n)[0] == if k.GCM? then Next(reg) else reg
    ensures CounterBlocks(k, reg, n)[1..] == CounterBlocks(k, Next(reg), n - 1)
  {
    hide Next;
    StepsFromNext(reg, 0);
    forall i | 0 <= i < n - 1
      ensures CounterBlocks(k, reg, n)[1 + i] == CounterBlock(k, Next(reg), i)
    {
      StepsFromNext(reg, i);
      StepsFromNext(reg, i + 1);
    }
  }

  lemma CounterBlocksFit(k: Kind, reg: Bytes, n: nat)
    requires k.Counts()
    ensures |CounterBlocks(k, reg, n)| == n
    ensures forall i :: 0 <= i < n ==> |CounterBlocks(k, reg, n)[i]| == |reg|
  {
  }

  lemma CombinedLast(c: Cipher, k: Kind, reg: Bytes, counters: seq<Bytes>, msg: Bytes)
    requires Fits(c, k, reg) && k.Counts() && |msg| < c.blockSize
    requires counters == CounterBlocks(k, reg, Blocks(c, |msg|)) && |counters| == Blocks(c, |msg|)
    requires forall i :: 0 <= i < |counters| ==> |counters[i]| == c.blockSize
    ensures Combined(c, counters, msg) == EncryptBlock(c, k, reg, msg)
  {
    if |msg| != 0 {
      CounterBlocksStep(k, reg, 1);
      hide CounterBlocks;
    }
  }

  lemma CombinedFirst(c: Cipher, k: Kind, reg: Bytes, counters: seq<Bytes>, msg: Bytes)
    requires Fits(c, k, reg) && k.Counts() && |msg| >= c.blockSize
    requires counters == CounterBlocks(k, reg, Blocks(c, |msg|)) && |counters| == Blocks(c, |msg|)
    requires forall i :: 0 <= i < |counters| ==> |counters[i]| == c.blockSize
    ensures counters[1..] == CounterBlocks(k, Next(reg), Blocks(c, |msg| - c.blockSize))
    ensures Combined(c, counters, msg)
      == EncryptBlock(c, k, reg, msg[..c.blockSize]) + Combined(c, counters[1..], msg[c.blockSize..])
  {
    CounterBlocksStep(k, reg, Blocks(c, |msg|));
    hide CounterBlocks, Next, XorBytes;
    if |msg| == c.blockSize {
      assert msg[..c.blockSize] == msg && msg[c.blockSize..] == [];
    }
  }

  /** The register and the blocks in order make the standard's counter mode. */
  lemma {:induction false} CounterStream(c: Cipher, k: Kind, reg: Bytes, msg: Bytes)
    requires Fits(c, k, reg) && k.Counts()
    ensures |CounterBlocks(k, reg, Blocks(c, |msg|))| == Blocks(c, |msg|)
    ensures forall i :: 0 <= i < Blocks(c, |msg|) ==> |CounterBlocks(k, reg, Blocks(c, |msg|))[i]| == c.blockSize
    ensures Encrypted(c, k, reg, msg) == Combined(c, CounterBlocks(k, reg, Blocks(c, |msg|)), msg)
    decreases |msg|
  {
    CounterBlocksFit(k, reg, Blocks(c, |msg|));
    hide CounterBlocks, Next, XorBytes, Combined, EncryptBlock;
    if |msg| < c.blockSize {
      CombinedLast(c, k, reg, CounterBlocks(k, reg, Blocks(c, |msg|)), msg);
    } else {
      CounterStream(c, k, Next(reg), msg[c.blockSize..]);
      CombinedFirst(c, k, reg, CounterBlocks(k, reg, Blocks(c, |msg|)), msg);
    }
  }

  /** The blocks that are enciphered repeat exactly every 2^64 blocks. */
  lemma CountersDistinct(k: Kind, reg: Bytes, n: nat, i: nat, j: nat)
    requires k.Counts() && |reg| >= 8 && i < j < n
    ensures CounterBlocks(k, reg, n)[i] == CounterBlocks(k, reg, n)[j] <==> (j - i) % 0x1_0000_0000_0000_0000 == 0
    ensures n <= 0x1_0000_0000_0000_0000 ==> CounterBlocks(k, reg, n)[i] != CounterBlocks(k, reg, n)[j]
  {
    var d := if k.GCM? then 1 else 0;
    CountersRepeat(reg, i + d, j + d);
  }
}
