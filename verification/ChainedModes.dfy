/** ECB, CBC and CFB over a whole cipher text: NIST SP 800-38A. */
module ChainedModes {
  import opened ByteType
  import opened ByteXor
  import opened Padding
  import opened BlockMode
  import ModArith

  /** A text cut into blocks, the last of which may be short. */
  function Split(s: Bytes, size: nat): seq<Bytes>
    requires size > 0
    decreases |s|
  {
    if |s| == 0 then [] else if |s| <= size then [s] else [s[..size]] + Split(s[size..], size)
  }

  /** What is enciphered of a message: the whole of it, padded where the mode pads. */
  function Source(c: Cipher, k: Kind, msg: Bytes): Bytes
    requires c.Valid()
  {
    if k.Pads() then Padded(msg, c.blockSize) else msg
  }

  /** The block before block i. */
  function Prior(iv: Bytes, cipher: seq<Bytes>, i: nat): Bytes
    requires i <= |cipher|
  {
    if i == 0 then iv else cipher[i - 1]
  }

  /** Each block of cipher text from its block of text and the block of cipher text before it, or the
      initialization vector. */
  ghost predicate Chained(c: Cipher, k: Kind, iv: Bytes, plain: seq<Bytes>, cipher: seq<Bytes>)
    requires c.Valid() && !k.Counts()
  {
    && |plain| == |cipher|
    && forall i :: 0 <= i < |plain| ==> LinkedTo(c, k, Prior(iv, cipher, i), plain[i], cipher[i])
  }

  ghost predicate LinkedTo(c: Cipher, k: Kind, prior: Bytes, plain: Bytes, cipher: Bytes)
    requires c.Valid() && !k.Counts()
  {
    && |prior| == c.blockSize && 0 < |plain| <= c.blockSize
    && match k
       case ECB => cipher == c.forward(plain)
       case CBC => cipher == c.forward(XorBytes(plain, prior))
       case CFB => cipher == XorBytes(plain, c.forward(prior))
       case _ => false
  }

  lemma SplitFirst(block: Bytes, rest: Bytes)
    requires |block| > 0
    ensures Split(block + rest, |block|) == [block] + Split(rest, |block|)
  {
    if |rest| == 0 {
      assert block + rest == block;
    } else {
      assert (block + rest)[..|block|] == block && (block + rest)[|block|..] == rest;
    }
  }

  lemma ChainedFirst(c: Cipher, k: Kind, iv: Bytes, p: Bytes, d: Bytes, plain: seq<Bytes>, cipher: seq<Bytes>)
    requires c.Valid() && !k.Counts() && LinkedTo(c, k, iv, p, d)
    requires Chained(c, k, d, plain, cipher)
    ensures Chained(c, k, iv, [p] + plain, [d] + cipher)
  {
    hide LinkedTo, Cipher.Valid;
    var pp, dd := [p] + plain, [d] + cipher;
    forall i | 0 <= i < |pp|
      ensures LinkedTo(c, k, Prior(iv, dd, i), pp[i], dd[i])
    {
      LinkShifted(iv, p, d, plain, cipher, i);
    }
  }

  lemma LinkShifted(iv: Bytes, p: Bytes, d: Bytes, plain: seq<Bytes>, cipher: seq<Bytes>, i: nat)
    requires |plain| == |cipher| && i <= |plain|
    ensures i == 0 ==> Prior(iv, [d] + cipher, i) == iv && ([p] + plain)[i] == p && ([d] + cipher)[i] == d
    ensures i > 0 ==> Prior(iv, [d] + cipher, i) == Prior(d, cipher, i - 1)
    ensures i > 0 ==> ([p] + plain)[i] == plain[i - 1] && ([d] + cipher)[i] == cipher[i - 1]
  {
  }

  /** One block. */
  lemma BlockLinked(c: Cipher, k: Kind, reg: Bytes, iv: Bytes, block: Bytes)
    requires Fits(c, k, reg) && !k.Counts() && |iv| == c.blockSize && (k.ECB? || iv == reg)
    requires 0 < |block| <= c.blockSize && (k.Pads() ==> |block| == c.blockSize)
    ensures LinkedTo(c, k, iv, block, EncryptBlock(c, k, reg, block))
  {
  }

  lemma LastChained(c: Cipher, k: Kind, reg: Bytes, iv: Bytes, msg: Bytes)
    requires Fits(c, k, reg) && !k.Counts() && |iv| == c.blockSize && (k.ECB? || iv == reg) && |msg| < c.blockSize
    ensures Chained(c, k, iv, Split(Source(c, k, msg), c.blockSize), Split(Encrypted(c, k, reg, msg), c.blockSize))
  {
    LastPadded(msg, c.blockSize);
    var source, text := Source(c, k, msg), Encrypted(c, k, reg, msg);
    assert |text| == |source| && text == EncryptBlock(c, k, reg, source);
    if |source| > 0 {
      BlockLinked(c, k, reg, iv, source);
      hide LinkedTo, EncryptBlock, Source, Encrypted, Padded;
      assert Split(source, c.blockSize) == [source] && Split(text, c.blockSize) == [text];
    }
  }

  /** Padding a message is padding what is left after its first block. */
  lemma SourceRest(c: Cipher, k: Kind, msg: Bytes)
    requires c.Valid() && |msg| >= c.blockSize
    ensures Source(c, k, msg) == msg[..c.blockSize] + Source(c, k, msg[c.blockSize..])
  {
    ModArith.ModWitness(|msg|, -1, c.blockSize);
    hide PadBytes;
    var pad := PadBytes(PadSize(|msg|, c.blockSize));
    assert msg == msg[..c.blockSize] + msg[c.blockSize..];
    assert msg + pad == msg[..c.blockSize] + (msg[c.blockSize..] + pad);
  }

  /** The whole cipher text of a message. ECB has no vector: iv may be any block. */
  lemma {:induction false} EncryptedChained(c: Cipher, k: Kind, reg: Bytes, iv: Bytes, msg: Bytes)
    requires Fits(c, k, reg) && !k.Counts() && |iv| == c.blockSize && (k.ECB? || iv == reg)
    ensures Chained(c, k, iv, Split(Source(c, k, msg), c.blockSize), Split(Encrypted(c, k, reg, msg), c.blockSize))
    decreases |msg|
  {
    hide LinkedTo, EncryptBlock, Source, Chained, Split;
    if |msg| < c.blockSize {
      LastChained(c, k, reg, iv, msg);
    } else {
      var first, rest := msg[..c.blockSize], msg[c.blockSize..];
      var block := EncryptBlock(c, k, reg, first);
      var reg' := NextReg(k, reg, block);
      NextFits(c, k, reg, block);
      BlockLinked(c, k, reg, iv, first);
      EncryptedChained(c, k, reg', block, rest);
      SourceRest(c, k, msg);
      SplitFirst(first, Source(c, k, rest));
      SplitFirst(block, Encrypted(c, k, reg', rest));
      ChainedFirst(c, k, iv, first, block, Split(Source(c, k, rest), c.blockSize), Split(Encrypted(c, k, reg', rest), c.blockSize));
    }
  }
}
