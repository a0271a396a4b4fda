/** The stream buffer of crypto/src/block_cipher.cpp, which gathers bytes into blocks, and takes blocks
    apart again. */
module CipherStream {
  import opened ByteType
  import opened ByteXor
  import opened Padding
  import opened GcmHash
  import opened BlockMode
  import opened CipherMode
  import GaloisField
  import ModArith
  import opened Wrappers

  // ----- Writing -----

  /** Whatever follows, the cipher text is what is out already and that of the bytes waiting. */
  ghost predicate Progress(c: Cipher, k: Kind, reg0: Bytes, given: Bytes, out: Bytes, reg: Bytes, put: Bytes)
    requires Fits(c, k, reg0) && Fits(c, k, reg)
  {
    forall rest {:trigger given + rest} ::
      Encrypted(c, k, reg0, given + rest) == out + Encrypted(c, k, reg, put + rest)
  }

  lemma ProgressStart(c: Cipher, k: Kind, reg: Bytes)
    requires Fits(c, k, reg)
    ensures Progress(c, k, reg, [], [], reg, [])
  {
    hide Encrypted;
    forall rest: Bytes {:trigger [] + rest}
      ensures Encrypted(c, k, reg, [] + rest) == [] + Encrypted(c, k, reg, [] + rest)
    {
    }
  }

  lemma ProgressByte(c: Cipher, k: Kind, reg0: Bytes, given: Bytes, out: Bytes, reg: Bytes, put: Bytes, b: byte)
    requires Fits(c, k, reg0) && Fits(c, k, reg) && Progress(c, k, reg0, given, out, reg, put)
    ensures Progress(c, k, reg0, given + [b], out, reg, put + [b])
  {
    hide Encrypted;
    forall rest: Bytes {:trigger given + [b] + rest}
      ensures Encrypted(c, k, reg0, given + [b] + rest) == out + Encrypted(c, k, reg, put + [b] + rest)
    {
      assert given + [b] + rest == given + ([b] + rest) && put + [b] + rest == put + ([b] + rest);
    }
  }

  lemma ProgressBlock(c: Cipher, k: Kind, reg0: Bytes, given: Bytes, out: Bytes, reg: Bytes, put: Bytes)
    requires Fits(c, k, reg0) && Fits(c, k, reg) && Progress(c, k, reg0, given, out, reg, put)
    requires |put| == c.blockSize
    ensures Fits(c, k, NextReg(k, reg, EncryptBlock(c, k, reg, put)))
    ensures Progress(c, k, reg0, given, out + EncryptBlock(c, k, reg, put), NextReg(k, reg, EncryptBlock(c, k, reg, put)), [])
  {
    hide EncryptBlock, NextReg, Padded;
    var block := EncryptBlock(c, k, reg, put);
    var reg' := NextReg(k, reg, block);
    NextFits(c, k, reg, block);
    forall rest: Bytes {:trigger given + rest}
      ensures Encrypted(c, k, reg0, given + rest) == out + block + Encrypted(c, k, reg', [] + rest)
    {
      assert (put + rest)[..c.blockSize] == put && (put + rest)[c.blockSize..] == rest == [] + rest;
    }
  }

  /** Nothing more follows. */
  lemma ProgressEnd(c: Cipher, k: Kind, reg0: Bytes, given: Bytes, out: Bytes, reg: Bytes, put: Bytes)
    requires Fits(c, k, reg0) && Fits(c, k, reg) && Progress(c, k, reg0, given, out, reg, put) && |put| < c.blockSize
    ensures Encrypted(c, k, reg0, given) == out + EncryptCall(c, k, reg, false, put, true)
  {
    hide EncryptBlock, Padded;
    assert given + [] == given && put + [] == put;
    if put == [] && !k.Pads() {
      assert EncryptBlock(c, k, reg, put) == [];
    }
  }

  class Writer {
    const mode: Mode
    var put: Bytes
    var eof: bool
    var chain: Bytes
    /** The register and the chained buffer at the start, and all the bytes written. */
    ghost var reg0: Bytes
    ghost var chain0: Bytes
    ghost var hashed0: Bytes
    ghost var given: Bytes

    /** Nothing closed yet: what is out is the cipher text of the full blocks. */
    ghost predicate Valid()
      reads this, mode
    {
      && mode.Valid() && mode.Open() && !eof && !mode.padded
      && |put| < mode.cipher.blockSize && |put| == |given| % mode.cipher.blockSize
      && Fits(mode.cipher, mode.kind, reg0) && Fits(mode.cipher, mode.kind, mode.Reg())
      && chain0 <= chain
      && Progress(mode.cipher, mode.kind, reg0, given, chain[|chain0|..], mode.Reg(), put)
      && (mode.kind.GCM? ==> mode.hashed == hashed0 + chain[|chain0|..])
    }

    constructor (mode: Mode, chain: Bytes)
      requires mode.Valid() && mode.Open() && !mode.padded
      ensures Valid() && this.mode == mode && given == [] && reg0 == mode.Reg()
      ensures this.chain == chain0 == chain && hashed0 == mode.hashed
    {
      this.mode, this.chain, put, eof := mode, chain, [], false;
      reg0, chain0, hashed0, given := mode.Reg(), chain, mode.hashed, [];
      new;
      hide Progress, Encrypted, Mode.GcmValid;
      ProgressStart(mode.cipher, mode.kind, reg0);
      assert chain[|chain0|..] == [] && mode.hashed + [] == mode.hashed;
    }

    /** Enciphers what is waiting and hands it on; the bytes stay when nothing came of them. */
    method Sync() returns (code: int)
      requires mode.Valid() && mode.Open() && |put| <= mode.cipher.blockSize
      requires eof || put == [] || |put| == mode.cipher.blockSize
      modifies this`put, this`chain, mode
      ensures mode.Valid() && (old(|put|) == mode.cipher.blockSize ==> mode.Open())
      ensures mode.padded == (old(mode.padded) || (mode.kind.Pads() && eof && old(|put|) < mode.cipher.blockSize))
      ensures var block := EncryptCall(mode.cipher, mode.kind, old(mode.Reg()), old(mode.padded), old(put), eof);
        && chain == old(chain) + block
        && put == (if block == [] then old(put) else [])
        && code == (if block == [] then -1 else 0)
        && mode.Reg() == (if block == [] then old(mode.Reg()) else NextReg(mode.kind, old(mode.Reg()), block))
        && (mode.kind.GCM? ==> mode.hashed == old(mode.hashed) + block && mode.TagAfter(old(mode.tag), old(put), eof))
    {
      hide EncryptCall, NextReg, TagOf;
      var block := mode.Encrypt(put, eof);
      chain := chain + block;
      if |block| <= 0 {
        return -1;
      }
      put := [];
      code := 0;
    }

    /** The character that fills a block. */
    method Overflow(c: byte)
      requires Valid() && |put| == mode.cipher.blockSize - 1
      modifies this`put, this`chain, this`given, mode
      ensures Valid() && given == old(given) + [c] && put == []
      ensures mode.kind.GCM? ==> mode.tag == old(mode.tag)
    {
      hide EncryptCall, EncryptBlock, NextReg, Progress, TagOf, Mode.Valid, Mode.Open, Mode.Reg, Cipher.Valid;
      ghost var out, reg, given1, put1 := chain[|chain0|..], mode.Reg(), given + [c], put + [c];
      ProgressByte(mode.cipher, mode.kind, reg0, given, out, reg, put, c);
      ProgressBlock(mode.cipher, mode.kind, reg0, given1, out, reg, put1);
      FullCall(mode.cipher, mode.kind, reg, put1);
      ModArith.ModNext(|given|, 1, mode.cipher.blockSize);
      given := given + [c];
      put := put + [c];
      var code := Sync();
      assert chain[|chain0|..] == out + EncryptBlock(mode.cipher, mode.kind, reg, put1);
    }

    /** One character; the put area is one short of a block. */
    method Put(c: byte)
      requires Valid()
      modifies this`put, this`chain, this`given, mode
      ensures Valid() && given == old(given) + [c]
      ensures mode.kind.GCM? ==> mode.tag == old(mode.tag)
    {
      hide Progress;
      if |put| < mode.cipher.blockSize - 1 {
        ProgressByte(mode.cipher, mode.kind, reg0, given, chain[|chain0|..], mode.Reg(), put, c);
        ModArith.ModNext(|given|, 1, mode.cipher.blockSize);
        put := put + [c];
        given := given + [c];
      } else {
        Overflow(c);
      }
    }

    method Write(s: Bytes)
      requires Valid()
      modifies this`put, this`chain, this`given, mode
      ensures Valid() && given == old(given) + s
      ensures mode.kind.GCM? ==> mode.tag == old(mode.tag)
    {
      hide Progress;
      ghost var given1 := given;
      for i := 0 to |s|
        invariant Valid() && given == given1 + s[..i]
        invariant mode.kind.GCM? ==> mode.tag == old(mode.tag)
      {
        Put(s[i]);
        assert s[..i + 1] == s[..i] + [s[i]];
      }
      assert s[..|s|] == s;
    }

    /** Everything written, in any pieces, is out as the cipher text of the whole. The tag is computed
        exactly when the last block was partial, or nothing was hashed at all. */
    method Close()
      requires Valid()
      modifies this`put, this`chain, this`eof, mode
      ensures mode.Valid() && chain == chain0 + Encrypted(mode.cipher, mode.kind, reg0, given)
      ensures mode.kind.GCM? ==> mode.hashed == hashed0 + Encrypted(mode.cipher, mode.kind, reg0, given)
      ensures mode.kind.GCM? ==> if |given| % mode.cipher.blockSize != 0 || mode.hashed == []
        then mode.tag == Some(Tag(mode.h, mode.first, mode.aad, mode.hashed)) else mode.tag == old(mode.tag)
    {
      hide EncryptCall, Encrypted, NextReg, Progress, Tag, Mode.Valid, Mode.Open, Mode.Reg, Cipher.Valid;
      ghost var out := chain[|chain0|..];
      ProgressEnd(mode.cipher, mode.kind, reg0, given, out, mode.Reg(), put);
      eof := true;
      var code := Sync();
      assert chain == chain0 + out + EncryptCall(mode.cipher, mode.kind, old(mode.Reg()), false, old(put), eof);
    }
  }

  lemma FullCall(c: Cipher, k: Kind, reg: Bytes, put: Bytes)
    requires Fits(c, k, reg) && |put| == c.blockSize
    ensures EncryptCall(c, k, reg, false, put, false) == EncryptBlock(c, k, reg, put)
  {
  }

  // ----- Reading -----

  lemma BlockSizes(m: Mode)
    requires m.Valid()
    ensures m.cipher.Valid() && m.cipher.blockSize >= 1
  {
  }

  /** What one read of a character gives. */
  datatype Character = Char(c: byte) | End | Throws

  function Joined(prefix: Bytes, rest: Option<Bytes>): Option<Bytes> {
    if rest.None? then None else Some(prefix + rest.value)
  }

  lemma JoinedTwice(a: Bytes, b: Bytes, rest: Option<Bytes>)
    ensures Joined(a, Joined(b, rest)) == Joined(a + b, rest)
    ensures Joined([], rest) == rest
  {
    if rest.Some? {
      assert a + (b + rest.value) == a + b + rest.value;
      assert [] + rest.value == rest.value;
    }
  }

  /** The plain text is what came out already and that of the cipher text still unread. */
  ghost predicate Remains(c: Cipher, k: Kind, whole: Option<Bytes>, out: Bytes, reg: Bytes, source: Bytes)
    requires c.Valid()
  {
    if source == [] then whole == Some(out)
    else Fits(c, k, reg) && Decipherable(c, k, source) && whole == Joined(out, Decrypted(c, k, reg, source))
  }

  /** The next block, and what is left after it. */
  lemma NextBlock(c: Cipher, k: Kind, whole: Option<Bytes>, out: Bytes, reg: Bytes, source: Bytes, n: nat)
    requires c.Valid() && source != [] && Remains(c, k, whole, out, reg, source)
    requires n == if |source| < c.blockSize then |source| else c.blockSize
    ensures k.Pads() ==> n == c.blockSize
    ensures var plain := DecryptCall(c, k, reg, source[..n], n == |source|);
      if plain.None? then whole == None
      else Remains(c, k, whole, out + plain.value, NextReg(k, reg, source[..n]), source[n..])
    ensures n < |source| ==> (var plain := DecryptCall(c, k, reg, source[..n], false);
      plain.Some? && |plain.value| == c.blockSize)
  {
    hide DecryptBlock, NextReg, Unpadded;
    if |source| <= c.blockSize {
      WholeBlock(|source|, c.blockSize);
      assert source[..n] == source && out + DecryptBlock(c, k, reg, source) == out + DecryptBlock(c, k, reg, source);
    } else {
      FewerBlocks(|source|, c.blockSize);
      NextFits(c, k, reg, source[..n]);
      JoinedTwice(out, DecryptBlock(c, k, reg, source[..n]), Decrypted(c, k, NextReg(k, reg, source[..n]), source[n..]));
    }
  }

  lemma RemainsFits(c: Cipher, k: Kind, whole: Option<Bytes>, out: Bytes, reg: Bytes, source: Bytes, n: nat)
    requires c.Valid() && source != [] && Remains(c, k, whole, out, reg, source)
    requires n == if |source| < c.blockSize then |source| else c.blockSize
    ensures Fits(c, k, reg) && (k.Pads() ==> n == c.blockSize) && n > 0
  {
    if |source| < c.blockSize {
      WholeBlock(|source|, c.blockSize);
    }
  }

  class Reader {
    const mode: Mode
    var chain: Bytes
    var get: Bytes
    var eof: bool
    /** The plain text of the whole, what was taken of it, and the cipher text read for that. */
    ghost var whole: Option<Bytes>
    ghost var taken: Bytes
    ghost var read: Bytes
    ghost var hashed0: Bytes
    ghost var tag0: Option<Bytes>

    ghost predicate Valid()
      reads this, mode
    {
      && mode.Valid() && (chain != [] ==> mode.Open())
      && Remains(mode.cipher, mode.kind, whole, taken + get, mode.Reg(), chain)
      && (mode.kind.GCM? ==> mode.hashed == hashed0 + read && TagRead())
    }

    /** The tag is there once everything was read, unless there was nothing to read. */
    ghost predicate TagRead()
      reads this, mode
    {
      if read == [] then mode.tag == tag0
      else chain == [] ==> TagOf(mode.h, mode.first, mode.aad, mode.hashed, mode.tag)
    }

    constructor (mode: Mode, chain: Bytes)
      requires mode.Valid() && mode.Open()
      requires Fits(mode.cipher, mode.kind, mode.Reg()) && Decipherable(mode.cipher, mode.kind, chain)
      ensures Valid() && this.mode == mode && this.chain == chain && taken == read == get == []
      ensures whole == Decrypted(mode.cipher, mode.kind, mode.Reg(), chain)
      ensures hashed0 == mode.hashed && tag0 == mode.tag
    {
      this.mode, this.chain, get, eof := mode, chain, [], false;
      taken, read, hashed0, tag0 := [], [], mode.hashed, mode.tag;
      whole := Decrypted(mode.cipher, mode.kind, mode.Reg(), chain);
      new;
      JoinedTwice([], [], whole);
      assert taken + get == [] && mode.hashed + [] == mode.hashed;
    }

    /** Reads and deciphers one block, as far as the chained buffer goes; false where the code throws. */
    method Fill(nread: nat) returns (ok: bool)
      requires Valid() && get == [] && chain != []
      requires nread == if |chain| < mode.cipher.blockSize then |chain| else mode.cipher.blockSize
      modifies this`chain, this`get, this`eof, this`read, mode
      ensures !ok ==> whole == None
      ensures ok ==> Valid() && read + chain == old(read + chain) && (get == [] ==> chain == [])
      ensures |chain| < old(|chain|)
    {
      hide DecryptCall, NextReg, Remains, TagOf, Decipherable, Mode.Reg, Mode.Valid, Mode.Open, Cipher.Valid;
      BlockSizes(mode);
      assert taken + [] == taken;
      RemainsFits(mode.cipher, mode.kind, whole, taken + get, mode.Reg(), chain, nread);
      NextBlock(mode.cipher, mode.kind, whole, taken, mode.Reg(), chain, nread);
      var block := chain[..nread];
      assert block + chain[nread..] == chain && read + block + chain[nread..] == read + chain;
      chain := chain[nread..];
      eof := chain == [];
      var plain := mode.Decrypt(block, eof);
      ok := plain.Some?;
      if ok {
        read := read + block;
        get := plain.value;
      }
    }

    /** The next character without taking it. */
    method Underflow() returns (r: Character)
      requires Valid()
      modifies this`chain, this`get, this`eof, this`read, mode
      ensures r.Throws? ==> whole == None
      ensures !r.Throws? ==> Valid() && read + chain == old(read + chain)
      ensures r.End? ==> whole == Some(taken) && chain == get == []
      ensures r.Char? ==> get != [] && r.c == get[0]
      ensures |chain| < old(|chain|) || (chain == old(chain) && get == old(get))
    {
      hide Decrypted, TagOf, Mode.Reg, Mode.Valid, Mode.Open, Cipher.Valid;
      assert taken + [] == taken;
      if get != [] {
        return Char(get[0]);
      }
      var nread := if |chain| < mode.cipher.blockSize then |chain| else mode.cipher.blockSize;
      BlockSizes(mode);
      if nread <= 0 {
        return End;
      }
      var ok := Fill(nread);
      if !ok {
        return Throws;
      }
      if get == [] {
        return End;
      }
      r := Char(get[0]);
    }

    /** Reads to the end: the whole plain text, or None where the padding is wrong. */
    method ReadAll() returns (result: Option<Bytes>)
      requires Valid() && taken == []
      modifies this, mode
      ensures result == old(whole) && (result.Some? ==> mode.Valid())
      ensures mode.kind.GCM? && result.Some? ==> mode.hashed == old(hashed0 + (read + chain))
      ensures mode.kind.GCM? && result.Some? ==> if old(read + chain) == [] then mode.tag == old(tag0)
        else mode.tag == Some(Tag(mode.h, mode.first, mode.aad, mode.hashed))
    {
      hide Remains, Tag, Mode.Valid, Mode.Open, Mode.Reg, Cipher.Valid;
      var text: Bytes := [];
      var more := true;
      while more
        invariant Valid() && taken == text && whole == old(whole) && hashed0 == old(hashed0) && tag0 == old(tag0)
        invariant read + chain == old(read + chain)
        invariant !more ==> whole == Some(taken) && chain == []
        decreases more, |chain|, |get|
      {
        var r := Underflow();
        match r {
          case Throws =>
            return None;
          case End =>
            more := false;
          case Char(c) =>
            text := text + [c];
            assert taken + get == taken + [c] + get[1..];
            taken, get := taken + [c], get[1..];
        }
      }
      assert read + [] == read;
      result := Some(text);
    }
  }

  // ----- There and back -----

  /** Enciphers a message through a stream. */
  method Send(kind: Kind, cipher: Cipher, iv: Bytes, aad: Bytes, msg: Bytes) returns (text: Bytes, tag: Option<Bytes>, ghost reg: Bytes)
    requires cipher.Valid() && Accepts(kind, cipher.blockSize, iv)
    ensures Fits(cipher, kind, reg) && reg == FirstReg(kind, cipher, iv)
    ensures text == Encrypted(cipher, kind, reg, msg)
    ensures kind.GCM? ==> tag == if |msg| % 16 != 0 || |msg| == 0 then Some(TextTag(cipher, iv, aad, text)) else None
  {
    hide Encrypted, Progress, Tag, PreCounter, TextTag, Mode.Valid, Mode.Open, Mode.Reg, Cipher.Valid;
    var mode := Create(kind, cipher, iv, aad);
    ModeFits(mode);
    reg := mode.Reg();
    var writer := new Writer(mode, []);
    writer.Write(msg);
    writer.Close();
    text, tag := writer.chain, mode.tag;
    assert [] + text == text && [] + msg == msg;
    if kind.GCM? {
      ModeTag(mode);
      StreamLength(cipher, kind, reg, msg);
    }
  }

  /** The register a mode starts from. */
  ghost function FirstReg(kind: Kind, cipher: Cipher, iv: Bytes): Bytes
    requires cipher.Valid() && Accepts(kind, cipher.blockSize, iv)
  {
    match kind
    case ECB => seq(cipher.blockSize, _ => 0)
    case GCM => PreCounter(cipher.forward(GaloisField.Zero()), iv)
    case _ => iv
  }

  ghost function TextTag(cipher: Cipher, iv: Bytes, aad: Bytes, text: Bytes): Bytes
    requires cipher.Valid() && cipher.blockSize == 16
  {
    var h := cipher.forward(GaloisField.Zero());
    Tag(h, cipher.forward(PreCounter(h, iv)), aad, text)
  }

  lemma ModeTag(mode: Mode)
    requires mode.Valid() && mode.kind.GCM?
    ensures mode.cipher.Valid() && mode.cipher.blockSize == 16
    ensures Some(Tag(mode.h, mode.first, mode.aad, mode.hashed)) == Some(TextTag(mode.cipher, mode.iv, mode.aad, mode.hashed))
  {
    hide Tag, Covers, PreCounter;
  }

  lemma ModeFits(mode: Mode)
    requires mode.Valid() && mode.Open()
    ensures Fits(mode.cipher, mode.kind, mode.Reg())
    ensures mode.kind.ECB? ==> mode.Reg() == seq(mode.cipher.blockSize, _ => 0)
  {
    hide Mode.GcmValid;
  }

  /** Deciphers a text through a stream. */
  method Receive(kind: Kind, cipher: Cipher, iv: Bytes, aad: Bytes, text: Bytes) returns (msg: Option<Bytes>, tag: Option<Bytes>)
    requires cipher.Valid() && Accepts(kind, cipher.blockSize, iv) && Decipherable(cipher, kind, text)
    ensures Fits(cipher, kind, FirstReg(kind, cipher, iv))
    ensures msg == Decrypted(cipher, kind, FirstReg(kind, cipher, iv), text)
    ensures kind.GCM? && msg.Some? ==> tag == if |text| == 0 then None else Some(TextTag(cipher, iv, aad, text))
  {
    hide Decrypted, Remains, Tag, PreCounter, TextTag, Mode.Valid, Mode.Open, Mode.Reg, Cipher.Valid;
    var mode := Create(kind, cipher, iv, aad);
    ModeFits(mode);
    var reader := new Reader(mode, text);
    assert [] + text == text && [] + ([] + text) == text;
    msg := reader.ReadAll();
    if kind.GCM? && msg.Some? {
      ModeTag(mode);
    }
    tag := mode.tag;
  }

  /** A message comes back as it was. Both sides have the same tag when the message ends in a partial
      block; one of whole blocks gets no tag from the sender, an empty one none from the receiver. */
  method Exchange(kind: Kind, cipher: Cipher, iv: Bytes, aad: Bytes, msg: Bytes)
    returns (result: Option<Bytes>, sent: Option<Bytes>, received: Option<Bytes>)
    requires cipher.Valid() && Accepts(kind, cipher.blockSize, iv) && (kind.Pads() ==> cipher.Invertible())
    ensures result == Some(msg)
    ensures kind.GCM? && |msg| % 16 != 0 ==> sent == received && sent.Some?
    ensures kind.GCM? && |msg| % 16 == 0 && |msg| != 0 ==> sent == None && received.Some?
    ensures kind.GCM? && |msg| == 0 ==> sent.Some? && received == None
  {
    hide Encrypted, Decrypted, TextTag, FirstReg;
    var text, tag, reg := Send(kind, cipher, iv, aad, msg);
    RoundTrip(cipher, kind, reg, msg);
    sent := tag;
    result, received := Receive(kind, cipher, iv, aad, text);
    if kind.GCM? {
      StreamLength(cipher, kind, reg, msg);
    }
  }

  lemma {:induction false} StreamLength(c: Cipher, k: Kind, reg: Bytes, msg: Bytes)
    requires Fits(c, k, reg) && !k.Pads()
    ensures |Encrypted(c, k, reg, msg)| == |msg|
    decreases |msg|
  {
    if |msg| >= c.blockSize {
      var block := EncryptBlock(c, k, reg, msg[..c.blockSize]);
      NextFits(c, k, reg, block);
      StreamLength(c, k, NextReg(k, reg, block), msg[c.blockSize..]);
    }
  }
}
