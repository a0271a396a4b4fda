/** The mode objects of crypto/src/block_cipher.cpp: their registers, and what one call of encrypt or
    decrypt does to them. The prelude prepares what goes to the cipher, the postlude makes the block of text
    of what comes from it, and GCM hashes the cipher text on the way. */
module CipherMode {
  import opened ByteType
  import opened ByteXor
  import opened Padding
  import opened Counter
  import opened GaloisField
  import opened GcmHash
  import opened BigEndianBytes
  import opened BlockMode
  import opened Wrappers

  /** The hash so far covers the data and this much text. */
  ghost predicate Covers(h: Block, x: Block, aad: Bytes, hashed: Bytes, size: nat) {
    x == Hash(h, Zero(), ZeroPadded(aad) + ZeroPadded(hashed)) && size == |hashed|
  }

  /** The tag of a text, under a hash key and an enciphered first counter. */
  ghost predicate TagOf(h: Block, first: Block, aad: Bytes, text: Bytes, tag: Option<Bytes>) {
    tag == Some(Tag(h, first, aad, text))
  }

  /** The keying material a mode takes; iv is the counter of CTR. */
  predicate Accepts(kind: Kind, blockSize: nat, iv: Bytes) {
    match kind
    case ECB => true
    case GCM => blockSize == 16 && |iv| > 0
    case _ => |iv| == blockSize
  }

  /** null where the code throws. */
  method Create(kind: Kind, cipher: Cipher, iv: Bytes, aad: Bytes) returns (m: Mode?)
    requires cipher.Valid()
    ensures m == null <==> !Accepts(kind, cipher.blockSize, iv)
    ensures m != null ==> fresh(m) && m.Valid() && m.Open() && !m.padded && m.kind == kind && m.cipher == cipher
    ensures m != null ==> m.iv == iv && m.aad == aad && m.hashed == [] && m.tag == None
    ensures m != null ==> (kind.CBC? || kind.CFB? || kind.CTR? ==> m.Reg() == iv)
    ensures m != null ==> (kind.GCM? ==> m.Reg() == PreCounter(cipher.forward(Zero()), iv))
  {
    if Accepts(kind, cipher.blockSize, iv) {
      m := new Mode(kind, cipher, iv, aad);
    } else {
      m := null;
    }
  }

  class Mode {
    const kind: Kind
    const cipher: Cipher
    const iv: Bytes
    const aad: Bytes
    var final: bool
    var padded: bool
    var previous: Bytes
    var tmp: Bytes
    var text: Bytes
    var counter: Bytes
    var h: Block
    var first: Block
    var x: Block
    var lenC: nat
    var tag: Option<Bytes>
    /** The cipher text that went through the hash. */
    ghost var hashed: Bytes

    ghost predicate GcmValid()
      reads `h, `first, `x, `lenC, `hashed
    {
      && cipher.blockSize == 16 && h == cipher.forward(Zero()) && first == cipher.forward(PreCounter(h, iv))
      && Covers(h, x, aad, hashed, lenC)
    }

    ghost predicate Valid()
      reads `counter, `previous, `h, `first, `x, `lenC, `hashed
    {
      && cipher.Valid()
      && (kind.Counts() ==> |counter| == cipher.blockSize)
      && (kind.CBC? ==> |previous| == cipher.blockSize)
      && (kind.GCM? ==> cipher.blockSize == 16 && GcmValid())
    }

    /** Not past a partial block. */
    ghost predicate Open()
      reads `previous, `hashed
    {
      && (kind.CFB? ==> |previous| == cipher.blockSize)
      && (kind.GCM? ==> |hashed| % 16 == 0)
    }

    ghost function Reg(): Bytes
      reads `previous, `counter
    {
      match kind
      case ECB => seq(cipher.blockSize, _ => 0)
      case CBC => previous
      case CFB => previous
      case _ => counter
    }

    constructor (kind: Kind, cipher: Cipher, iv: Bytes, aad: Bytes)
      requires cipher.Valid() && Accepts(kind, cipher.blockSize, iv)
      ensures Valid() && Open() && !padded && hashed == [] && tag == None
      ensures this.kind == kind && this.cipher == cipher && this.iv == iv && this.aad == aad
      ensures kind.CBC? || kind.CFB? || kind.CTR? ==> Reg() == iv
      ensures kind.GCM? ==> Reg() == PreCounter(h, iv) && h == cipher.forward(Zero())
    {
      this.kind, this.cipher, this.iv, this.aad := kind, cipher, iv, aad;
      final, padded, tag, hashed, lenC := false, false, None, [], 0;
      previous, tmp, text, counter := iv, [], [], iv;
      new;
      hide Hash, Times, Next, BigEndian;
      if kind.GCM? {
        h := cipher.forward(Zero());
        counter := Start(h, iv);
        first := cipher.forward(counter);
        x := Ghash(h, Zero(), aad, []);
      }
    }

    /** The tag after a call: computed by a final call that has text, or follows no text at all. */
    ghost predicate TagAfter(before: Option<Bytes>, input: Bytes, last: bool)
      reads `h, `first, `hashed, `tag
    {
      if last && (|input| > 0 || |hashed| == 0) then TagOf(h, first, aad, hashed, tag) else tag == before
    }

    method Authenticate()
      requires Covers(h, x, aad, hashed, lenC)
      modifies `tag
      ensures TagOf(h, first, aad, hashed, tag)
    {
      hide Hash, BigEndian, Times;
      var len := BigEndian(8 * |aad|, 8) + BigEndian(8 * lenC, 8);
      HashBlock(h, Zero(), ZeroPadded(aad) + ZeroPadded(hashed), len);
      XorBytesCommute(x, len);
      var product := Mult(XorBytes(x, len), h);
      tag := Some(XorBytes(product, first));
    }

    /** Takes a block of cipher text into the hash. */
    method AbsorbText(block: Bytes)
      requires Covers(h, x, aad, hashed, lenC) && |hashed| % 16 == 0 && 0 < |block| <= 16
      modifies `x, `lenC, `hashed, `tag
      ensures hashed == old(hashed) + block && Covers(h, x, aad, hashed, lenC)
      ensures TagAfter(old(tag), block, final)
    {
      hide Hash, Times;
      var paddedBlock := block + seq(16 - |block|, _ => 0);
      assert paddedBlock == ZeroPadded(block);
      HashFurther(h, ZeroPadded(aad), hashed, block);
      x := Mult(XorBytes(paddedBlock, x), h);
      lenC := lenC + |block|;
      hashed := hashed + block;
      if final {
        Authenticate();
      }
    }

    // ----- Before and after the cipher -----

    method PadInput(input: Bytes) returns (plain: Bytes)
      requires cipher.Valid() && |input| <= cipher.blockSize
      modifies `padded
      ensures padded == (old(padded) || (final && |input| < cipher.blockSize))
      ensures plain == if final && |input| < cipher.blockSize then
        (if old(padded) then [] else Padded(input, cipher.blockSize)) else input
      ensures |input| == 0 || final || |input| == cipher.blockSize ==> |plain| == 0 || |plain| == cipher.blockSize
    {
      hide Padded;
      plain := input;
      if final && |input| < cipher.blockSize {
        if padded {
          return [];
        }
        LastPadded(plain, cipher.blockSize);
        plain := Pad(plain, cipher.blockSize);
        padded := true;
      }
    }

    /** Keeps the text and gives the block that makes its key stream. */
    method StreamInput(input: Bytes) returns (block: Bytes)
      requires Valid() && !kind.Pads()
      modifies `text, `counter, `tag
      ensures Valid() && (kind.GCM? ==> TagAfter(old(tag), [], final) || |input| > 0)
      ensures |input| == 0 ==> block == [] && counter == old(counter)
      ensures |input| > 0 ==> text == input && tag == old(tag)
      ensures |input| > 0 ==> counter == if kind.GCM? then Next(old(counter)) else old(counter)
      ensures |input| > 0 ==> block == if kind.CFB? then previous else counter
    {
      hide Next, Hash, ZeroPadded, PreCounter, Tag, Zero;
      if |input| == 0 {
        if kind.GCM? && final && lenC == 0 {
          Authenticate();
        }
        return input;
      }
      text := input;
      if kind.GCM? {
        counter := Next(counter);
      }
      block := if kind.CFB? then previous else counter;
    }

    method PreludeEncrypt(input: Bytes) returns (block: Bytes)
      requires Valid() && |input| <= cipher.blockSize
      requires input == [] || (Open() && (final || |input| == cipher.blockSize))
      modifies `padded, `text, `counter, `tag
      ensures Valid() && (block == [] || |block| == cipher.blockSize)
      ensures kind.Pads() ==> tag == old(tag) && block == PadsTo(old(padded), input)
      ensures padded == (old(padded) || (kind.Pads() && final && |input| < cipher.blockSize))
      ensures !kind.Pads() ==> StreamsTo(old(counter), old(tag), input, block)
    {
      hide Padded, XorBytes, GcmValid, TagOf, Next;
      match kind {
        case ECB =>
          block := PadInput(input);
        case CBC =>
          var plain := PadInput(input);
          block := XorBytes(plain, previous);
        case _ =>
          block := StreamInput(input);
      }
    }

    /** The padded input of the cipher, nothing when padding was given before. */
    ghost function PadsTo(wasPadded: bool, input: Bytes): Bytes
      requires cipher.Valid() && |input| <= cipher.blockSize && (kind.CBC? ==> |previous| == cipher.blockSize)
      reads this
    {
      if final && |input| < cipher.blockSize then
        if wasPadded then [] else LastPadded(input, cipher.blockSize); Chained(Padded(input, cipher.blockSize))
      else Chained(input)
    }

    ghost function Chained(plain: Bytes): Bytes
      requires kind.CBC? ==> |plain| <= |previous|
      reads this
    {
      if kind.CBC? then XorBytes(plain, previous) else plain
    }

    ghost predicate StreamsTo(counter0: Bytes, tag0: Option<Bytes>, input: Bytes, block: Bytes)
      reads this
    {
      if |input| == 0 then
        block == [] && counter == counter0 && (kind.GCM? ==> TagAfter(tag0, [], final))
      else
        && text == input && tag == tag0
        && counter == (if kind.GCM? then Next(counter0) else counter0)
        && block == if kind.CFB? then previous else counter
    }

    method PostludeEncrypt(output: Bytes) returns (result: Bytes)
      requires Valid() && |output| == cipher.blockSize
      requires !kind.Pads() ==> 0 < |text| <= cipher.blockSize && Open()
      modifies `previous, `counter, `x, `lenC, `hashed, `tag
      ensures Valid() && result == if kind.Pads() then output else XorBytes(text, output)
      ensures previous == if kind.CBC? || kind.CFB? then result else old(previous)
      ensures counter == if kind.CTR? then Next(old(counter)) else old(counter)
      ensures kind.GCM? ==> hashed == old(hashed) + result && TagAfter(old(tag), result, final)
    {
      hide XorBytes, TagOf, Next, Covers;
      match kind {
        case ECB =>
          result := output;
        case CBC =>
          previous := output;
          result := output;
        case CFB =>
          previous := XorBytes(text, output);
          result := previous;
        case CTR =>
          counter := Next(counter);
          result := XorBytes(text, output);
        case GCM =>
          result := XorBytes(text, output);
          AbsorbText(result);
      }
    }

    /** One call: the block of cipher text, with the register, the padding mark and the tag after it. */
    method Encrypt(plain: Bytes, last: bool) returns (result: Bytes)
      requires Valid() && |plain| <= cipher.blockSize && (plain != [] ==> Open())
      requires plain == [] || last || |plain| == cipher.blockSize
      modifies this
      ensures Valid() && (old(Open()) && (plain == [] || |plain| == cipher.blockSize) ==> Open())
      ensures padded == (old(padded) || (kind.Pads() && last && |plain| < cipher.blockSize))
      ensures result == EncryptCall(cipher, kind, old(Reg()), old(padded), plain, last)
      ensures Reg() == if result == [] then old(Reg()) else NextReg(kind, old(Reg()), result)
      ensures kind.GCM? ==> hashed == old(hashed) + result && TagAfter(old(tag), plain, last)
    {
      hide XorBytes, TagOf, Next, Covers, Padded, GcmValid;
      final := last;
      var input := PreludeEncrypt(plain);
      if |input| == 0 {
        return [];
      }
      var output := cipher.forward(input);
      result := PostludeEncrypt(output);
    }

    method PreludeDecrypt(input: Bytes) returns (block: Bytes)
      requires Valid() && |input| <= cipher.blockSize
      requires input == [] || (Open() && (kind.Pads() ==> |input| == cipher.blockSize))
      modifies `tmp, `text, `counter, `tag
      ensures Valid() && (block == [] || |block| == cipher.blockSize)
      ensures kind.Pads() ==> tag == old(tag) && counter == old(counter) && block == input && (kind.CBC? ==> tmp == input)
      ensures !kind.Pads() ==> StreamsTo(old(counter), old(tag), input, block)
    {
      hide GcmValid, TagOf, Next;
      match kind {
        case ECB =>
          block := input;
        case CBC =>
          tmp := input;
          block := input;
        case _ =>
          block := StreamInput(input);
      }
    }

    method TakePadding(plain: Bytes) returns (result: Option<Bytes>)
      requires cipher.Valid()
      ensures result == if final then Unpadded(plain, cipher.blockSize) else Some(plain)
    {
      if final {
        result := Unpad(plain, cipher.blockSize);
      } else {
        result := Some(plain);
      }
    }

    /** None where the code throws on wrong padding. */
    method PostludeDecrypt(output: Bytes) returns (result: Option<Bytes>)
      requires Valid() && |output| == cipher.blockSize && (kind.CBC? ==> |tmp| == cipher.blockSize)
      requires !kind.Pads() ==> 0 < |text| <= cipher.blockSize && Open()
      modifies `previous, `counter, `x, `lenC, `hashed, `tag
      ensures Valid()
      ensures result == if !kind.Pads() then Some(XorBytes(text, output))
        else if final then Unpadded(Unchained(output, old(previous)), cipher.blockSize)
        else Some(Unchained(output, old(previous)))
      ensures result.Some? ==> previous == if kind.CBC? then tmp else if kind.CFB? then text else old(previous)
      ensures counter == if kind.CTR? then Next(old(counter)) else old(counter)
      ensures kind.GCM? ==> hashed == old(hashed) + text && TagAfter(old(tag), text, final)
    {
      hide XorBytes, TagOf, Next, Covers, Unpadded;
      match kind {
        case ECB =>
          result := TakePadding(output);
        case CBC =>
          result := TakePadding(XorBytes(output, previous));
          if result.Some? {
            previous := tmp;
          }
        case CFB =>
          previous := text;
          result := Some(XorBytes(text, output));
        case CTR =>
          counter := Next(counter);
          result := Some(XorBytes(text, output));
        case GCM =>
          AbsorbText(text);
          result := Some(XorBytes(text, output));
      }
    }

    ghost function Unchained(output: Bytes, prior: Bytes): Bytes
      requires kind.CBC? ==> |output| <= |prior|
    {
      if kind.CBC? then XorBytes(output, prior) else output
    }

    /** One call: the block of plain text, with the register and the tag after it. */
    method Decrypt(input: Bytes, last: bool) returns (result: Option<Bytes>)
      requires Valid() && |input| <= cipher.blockSize && (input != [] ==> Open())
      requires kind.Pads() && input != [] ==> |input| == cipher.blockSize
      modifies this
      ensures Valid() && (old(Open()) && (input == [] || |input| == cipher.blockSize) ==> Open())
      ensures result == DecryptCall(cipher, kind, old(Reg()), input, last) && padded == old(padded)
      ensures result.Some? ==> Reg() == if input == [] then old(Reg()) else NextReg(kind, old(Reg()), input)
      ensures kind.GCM? ==> hashed == old(hashed) + input && TagAfter(old(tag), input, last)
    {
      hide XorBytes, TagOf, Next, Covers, Unpadded, GcmValid;
      final := last;
      var block := PreludeDecrypt(input);
      if |block| == 0 {
        return Some([]);
      }
      var output := if kind.Pads() then cipher.inverse(block) else cipher.forward(block);
      result := PostludeDecrypt(output);
    }
  }
}
