/** GCM in crypto/src/block_cipher.cpp used block by block, with the last call marked final. */
module GcmText {
  import opened ByteType
  import opened ByteXor
  import opened Padding
  import opened BlockMode
  import opened CipherMode
  import opened CipherStream
  import opened Wrappers

  /** The first block of a longer text. */
  lemma EncryptFirst(c: Cipher, reg: Bytes, text: Bytes)
    requires Fits(c, GCM, reg) && |text| > c.blockSize
    ensures
      var block := EncryptCall(c, GCM, reg, false, text[..c.blockSize], false);
      && |block| == c.blockSize && Fits(c, GCM, NextReg(GCM, reg, block))
      && Encrypted(c, GCM, reg, text) == block + Encrypted(c, GCM, NextReg(GCM, reg, block), text[c.blockSize..])
  {
    NextFits(c, GCM, reg, EncryptBlock(c, GCM, reg, text[..c.blockSize]));
    hide EncryptBlock, NextReg;
  }

  /** The last block, whole or partial, or no block at all. */
  lemma EncryptLast(c: Cipher, reg: Bytes, text: Bytes)
    requires Fits(c, GCM, reg) && |text| <= c.blockSize
    ensures Encrypted(c, GCM, reg, text) == EncryptCall(c, GCM, reg, false, text, true)
  {
    if |text| == c.blockSize {
      var block := EncryptBlock(c, GCM, reg, text);
      NextFits(c, GCM, reg, block);
      assert text[..c.blockSize] == text && text[c.blockSize..] == [];
      assert EncryptBlock(c, GCM, NextReg(GCM, reg, block), []) == [];
      hide EncryptBlock, NextReg;
      assert block + [] == block;
    } else if |text| == 0 {
      assert EncryptBlock(c, GCM, reg, []) == [];
    }
  }

  /** The text of the blocks so far, in front of that of the others. */
  lemma EncryptOn(c: Cipher, reg: Bytes, out: Bytes, rest: Bytes, block: Bytes, whole: Bytes)
    requires c.blockSize == 16 && Fits(c, GCM, reg) && |rest| > 16
    requires out + Encrypted(c, GCM, reg, rest) == whole
    requires block == EncryptCall(c, GCM, reg, false, rest[..16], false)
    ensures |block| == 16 && Fits(c, GCM, NextReg(GCM, reg, block))
    ensures (out + block) + Encrypted(c, GCM, NextReg(GCM, reg, block), rest[16..]) == whole
  {
    EncryptFirst(c, reg, rest);
    hide Encrypted, EncryptCall, NextReg;
    assert (out + block) + Encrypted(c, GCM, NextReg(GCM, reg, block), rest[16..])
      == out + (block + Encrypted(c, GCM, NextReg(GCM, reg, block), rest[16..]));
  }

  lemma DecryptFirst(c: Cipher, reg: Bytes, text: Bytes)
    requires Fits(c, GCM, reg) && |text| > c.blockSize
    ensures
      var block := text[..c.blockSize];
      var rest := Decrypted(c, GCM, NextReg(GCM, reg, block), text[c.blockSize..]);
      && Fits(c, GCM, NextReg(GCM, reg, block))
      && DecryptCall(c, GCM, reg, block, false).Some?
      && Decrypted(c, GCM, reg, text) == Behind(DecryptCall(c, GCM, reg, block, false).value, rest)
  {
    NextFits(c, GCM, reg, text[..c.blockSize]);
    hide DecryptBlock, NextReg;
  }

  lemma DecryptOn(c: Cipher, reg: Bytes, out: Bytes, rest: Bytes, block: Option<Bytes>, whole: Option<Bytes>)
    requires c.blockSize == 16 && Fits(c, GCM, reg) && |rest| > 16
    requires Behind(out, Decrypted(c, GCM, reg, rest)) == whole
    requires block == DecryptCall(c, GCM, reg, rest[..16], false)
    ensures block.Some? && Fits(c, GCM, NextReg(GCM, reg, rest[..16]))
    ensures Behind(out + block.value, Decrypted(c, GCM, NextReg(GCM, reg, rest[..16]), rest[16..])) == whole
  {
    DecryptFirst(c, reg, rest);
    hide Decrypted, DecryptCall, NextReg, Behind;
    BehindTwice(out, block.value, Decrypted(c, GCM, NextReg(GCM, reg, rest[..16]), rest[16..]));
  }

  lemma DecryptLast(c: Cipher, reg: Bytes, text: Bytes)
    requires Fits(c, GCM, reg) && |text| <= c.blockSize
    ensures Decrypted(c, GCM, reg, text) == DecryptCall(c, GCM, reg, text, true)
    ensures Decrypted(c, GCM, reg, text).Some?
  {
  }

  lemma MoveBlock(s: Bytes, rest: Bytes)
    requires |rest| > 16
    ensures (s + rest[..16]) + rest[16..] == s + rest
  {
  }

  lemma DecryptDone(c: Cipher, reg: Bytes, out: Bytes, rest: Bytes, block: Option<Bytes>, whole: Option<Bytes>)
    requires c.blockSize == 16 && Fits(c, GCM, reg) && |rest| <= 16
    requires Behind(out, Decrypted(c, GCM, reg, rest)) == whole
    requires block == DecryptCall(c, GCM, reg, rest, true)
    ensures block.Some? && whole == Some(out + block.value)
  {
    DecryptLast(c, reg, rest);
    hide Decrypted, DecryptCall;
  }

  /** Between two calls, when this much text went through the hash. */
  ghost predicate Running(m: Mode, cipher: Cipher, iv: Bytes, aad: Bytes, hashed: Bytes)
    reads m
  {
    && m.kind == GCM && m.cipher == cipher && m.iv == iv && m.aad == aad
    && m.Valid() && m.Open() && !m.padded && m.hashed == hashed && m.tag == None
    && Fits(cipher, GCM, m.Reg()) && cipher.blockSize == 16
  }

  method Begin(cipher: Cipher, iv: Bytes, aad: Bytes) returns (m: Mode)
    requires cipher.Valid() && Accepts(GCM, cipher.blockSize, iv)
    ensures fresh(m) && Running(m, cipher, iv, aad, []) && m.Reg() == FirstReg(GCM, cipher, iv)
    ensures Fits(cipher, GCM, m.Reg()) && cipher.blockSize == 16
  {
    hide Mode.Valid, Mode.Open, Mode.Reg, Cipher.Valid;
    m := Create(GCM, cipher, iv, aad);
    ModeFits(m);
  }

  method EncipherBlock(m: Mode, cipher: Cipher, iv: Bytes, aad: Bytes, block: Bytes, ghost hashed: Bytes)
    returns (text: Bytes)
    requires Running(m, cipher, iv, aad, hashed) && |block| == 16
    modifies m
    ensures Fits(cipher, GCM, old(m.Reg())) && text == EncryptCall(cipher, GCM, old(m.Reg()), false, block, false)
    ensures text != [] ==> Running(m, cipher, iv, aad, hashed + text) && Fits(cipher, GCM, m.Reg())
    ensures text != [] ==> m.Reg() == NextReg(GCM, old(m.Reg()), text)
  {
    hide EncryptCall, NextReg, Mode.Valid, Mode.Open, Mode.Reg, Cipher.Valid;
    text := m.Encrypt(block, false);
    ModeFits(m);
  }

  method EncipherFinal(m: Mode, cipher: Cipher, iv: Bytes, aad: Bytes, block: Bytes, ghost hashed: Bytes)
    returns (text: Bytes)
    requires Running(m, cipher, iv, aad, hashed) && |block| <= 16 && (block == [] ==> hashed == [])
    modifies m
    ensures Fits(cipher, GCM, old(m.Reg())) && text == EncryptCall(cipher, GCM, old(m.Reg()), false, block, true)
    ensures m.tag == Some(TextTag(cipher, iv, aad, hashed + text))
  {
    assert block == [] ==> EncryptCall(cipher, GCM, m.Reg(), false, block, true) == [];
    hide EncryptCall, NextReg, TextTag, Mode.Valid, Mode.Open, Mode.Reg, Cipher.Valid;
    text := m.Encrypt(block, true);
    ModeTag(m);
  }

  method DecipherBlock(m: Mode, cipher: Cipher, iv: Bytes, aad: Bytes, block: Bytes, ghost hashed: Bytes)
    returns (plain: Option<Bytes>)
    requires Running(m, cipher, iv, aad, hashed) && |block| == 16
    modifies m
    ensures Fits(cipher, GCM, old(m.Reg())) && plain == DecryptCall(cipher, GCM, old(m.Reg()), block, false)
    ensures plain.Some? ==> Running(m, cipher, iv, aad, hashed + block) && Fits(cipher, GCM, m.Reg())
    ensures plain.Some? ==> m.Reg() == NextReg(GCM, old(m.Reg()), block)
  {
    hide DecryptCall, NextReg, Mode.Valid, Mode.Open, Mode.Reg, Cipher.Valid;
    plain := m.Decrypt(block, false);
    ModeFits(m);
  }

  method DecipherFinal(m: Mode, cipher: Cipher, iv: Bytes, aad: Bytes, block: Bytes, ghost hashed: Bytes)
    returns (plain: Option<Bytes>)
    requires Running(m, cipher, iv, aad, hashed) && |block| <= 16 && (block == [] ==> hashed == [])
    modifies m
    ensures Fits(cipher, GCM, old(m.Reg())) && plain == DecryptCall(cipher, GCM, old(m.Reg()), block, true)
    ensures m.tag == Some(TextTag(cipher, iv, aad, hashed + block))
  {
    hide DecryptCall, NextReg, TextTag, Mode.Valid, Mode.Open, Mode.Reg, Cipher.Valid;
    plain := m.Decrypt(block, true);
    ModeTag(m);
  }

  /** Enciphers a text: every block but the last, and then the last, or the empty one of an empty text. */
  method Encipher(cipher: Cipher, iv: Bytes, aad: Bytes, msg: Bytes) returns (text: Bytes, tag: Option<Bytes>)
    requires cipher.Valid() && Accepts(GCM, cipher.blockSize, iv)
    ensures Fits(cipher, GCM, FirstReg(GCM, cipher, iv))
    ensures text == Encrypted(cipher, GCM, FirstReg(GCM, cipher, iv), msg)
    ensures tag == Some(TextTag(cipher, iv, aad, text))
  {
    var m := Begin(cipher, iv, aad);
    ghost var reg := m.Reg();
    hide Behind, Running, Encrypted, EncryptCall, NextReg, FirstReg, TextTag, Mode.Valid, Mode.Open, Mode.Reg, Cipher.Valid;
    text := [];
    var rest := msg;
    ghost var whole := Encrypted(cipher, GCM, reg, msg);
    assert [] + whole == whole;
    while |rest| > 16
      invariant fresh(m) && Running(m, cipher, iv, aad, text) && Fits(cipher, GCM, m.Reg()) && (rest == [] ==> text == [])
      invariant text + Encrypted(cipher, GCM, m.Reg(), rest) == whole
      decreases |rest|
    {
      ghost var before := m.Reg();
      var block := EncipherBlock(m, cipher, iv, aad, rest[..16], text);
      EncryptOn(cipher, before, text, rest, block, whole);
      text, rest := text + block, rest[16..];
    }
    EncryptLast(cipher, m.Reg(), rest);
    var block := EncipherFinal(m, cipher, iv, aad, rest, text);
    text := text + block;
    tag := m.tag;
  }

  /** Deciphers a text in the same way. */
  method Decipher(cipher: Cipher, iv: Bytes, aad: Bytes, text: Bytes) returns (msg: Bytes, tag: Option<Bytes>)
    requires cipher.Valid() && Accepts(GCM, cipher.blockSize, iv)
    ensures Fits(cipher, GCM, FirstReg(GCM, cipher, iv))
    ensures Some(msg) == Decrypted(cipher, GCM, FirstReg(GCM, cipher, iv), text)
    ensures tag == Some(TextTag(cipher, iv, aad, text))
  {
    var m := Begin(cipher, iv, aad);
    ghost var reg := m.Reg();
    hide Behind, Running, Decrypted, DecryptCall, NextReg, FirstReg, TextTag, Mode.Valid, Mode.Open, Mode.Reg, Cipher.Valid;
    msg := [];
    var rest := text;
    ghost var hashed: Bytes := [];
    ghost var whole := Decrypted(cipher, GCM, reg, text);
    BehindNothing(whole);
    while |rest| > 16
      invariant fresh(m) && Running(m, cipher, iv, aad, hashed) && Fits(cipher, GCM, m.Reg()) && (rest == [] ==> hashed == [])
      invariant hashed + rest == text
      invariant Behind(msg, Decrypted(cipher, GCM, m.Reg(), rest)) == whole
      decreases |rest|
    {
      ghost var before := m.Reg();
      var block := DecipherBlock(m, cipher, iv, aad, rest[..16], hashed);
      DecryptOn(cipher, before, msg, rest, block, whole);
      MoveBlock(hashed, rest);
      hashed, msg, rest := hashed + rest[..16], msg + block.value, rest[16..];
    }
    ghost var before := m.Reg();
    var block := DecipherFinal(m, cipher, iv, aad, rest, hashed);
    DecryptDone(cipher, before, msg, rest, block, whole);
    msg := msg + block.value;
    tag := m.tag;
  }

  /** The tag of the text on both sides, and the message back. */
  method Exchange(cipher: Cipher, iv: Bytes, aad: Bytes, msg: Bytes)
    returns (result: Bytes, sent: Option<Bytes>, received: Option<Bytes>)
    requires cipher.Valid() && Accepts(GCM, cipher.blockSize, iv)
    ensures result == msg && sent == received && sent.Some?
    ensures Fits(cipher, GCM, FirstReg(GCM, cipher, iv))
    ensures sent == Some(TextTag(cipher, iv, aad, Encrypted(cipher, GCM, FirstReg(GCM, cipher, iv), msg)))
  {
    hide Encrypted, Decrypted, TextTag, FirstReg;
    var text, tag := Encipher(cipher, iv, aad, msg);
    RoundTrip(cipher, GCM, FirstReg(GCM, cipher, iv), msg);
    sent := tag;
    result, received := Decipher(cipher, iv, aad, text);
  }

  lemma BehindNothing(r: Option<Bytes>)
    ensures Behind([], r) == r
  {
    if r.Some? {
      assert [] + r.value == r.value;
    }
  }

  ghost function Behind(s: Bytes, r: Option<Bytes>): Option<Bytes> {
    if r.None? then None else Some(s + r.value)
  }

  lemma BehindTwice(s: Bytes, t: Bytes, r: Option<Bytes>)
    ensures Behind(s, Behind(t, r)) == Behind(s + t, r)
  {
    if r.Some? {
      assert s + (t + r.value) == s + t + r.value;
    }
  }
}
