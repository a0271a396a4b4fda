/** AES on blocks of bytes, with its key schedule; and as a cipher for the modes. */
module AesBlock {
  import opened ByteType
  import opened ByteXor
  import opened AesTables
  import opened AesField
  import opened AesMix
  import opened Aes
  import opened AesCipher
  import B = BlockMode
  import opened ByteBits
  import opened Wrappers

  // ----- Input and output, section 3.4 of FIPS 197 -----

  /** Between the order of the bytes in a block and the rows of the state. */
  function Transposed(s: State): State {
    seq(16, i requires 0 <= i < 16 => s[i / 4 + 4 * (i % 4)])
  }

  lemma TransposedTwice(s: State)
    ensures Transposed(Transposed(s)) == s
  {
    forall i | 0 <= i < 16
      ensures Transposed(Transposed(s))[i] == s[i]
    {
      Flip(i);
    }
  }

  lemma Flip(i: nat)
    requires i < 16
    ensures i / 4 + 4 * (i % 4) < 16
    ensures (i / 4 + 4 * (i % 4)) / 4 + 4 * ((i / 4 + 4 * (i % 4)) % 4) == i
  {
    assert (i / 4 + 4 * (i % 4)) / 4 == i % 4;
  }

  // ----- The cipher loops -----

  function RoundKeys(w: seq<Word>, n: nat): (k: seq<State>)
    requires 4 * n <= |w|
    ensures |k| == n
  {
    seq(n, r requires 0 <= r < n => RoundKey(w, r))
  }

  method Forwards(input: State, w: seq<Word>, nr: nat) returns (output: State)
    requires nr >= 1 && |w| == 4 * (nr + 1)
    ensures output == Transposed(Forward(Transposed(input), RoundKeys(w, nr + 1)))
  {
    hide SubBytes, ShiftRows, MixColumns, AddRoundKey, RoundKey, Transposed;
    ghost var keys := RoundKeys(w, nr + 1);
    ghost var s := Transposed(input);
    var a := Load(input);
    AddRoundKeyInPlace(a, w, 0);
    for round := 1 to nr
      invariant a[..] == Rounds(s, keys, round - 1)
    {
      SubBytesInPlace(a);
      ShiftRowsInPlace(a);
      MixColumnsInPlace(a);
      AddRoundKeyInPlace(a, w, round);
    }
    SubBytesInPlace(a);
    ShiftRowsInPlace(a);
    AddRoundKeyInPlace(a, w, nr);
    output := Store(a);
  }

  method Backwards(input: State, w: seq<Word>, nr: nat) returns (output: State)
    requires nr >= 1 && |w| == 4 * (nr + 1)
    ensures output == Transposed(Inverse(Transposed(input), RoundKeys(w, nr + 1)))
  {
    hide InvSubBytes, InvShiftRows, InvMixColumns, AddRoundKey, RoundKey, Transposed;
    ghost var keys := RoundKeys(w, nr + 1);
    var a := Load(input);
    AddRoundKeyInPlace(a, w, nr);
    ghost var t := InvRounds(a[..], keys, nr - 1);
    var round := nr - 1;
    while round >= 1
      invariant 0 <= round < nr
      invariant InvRounds(a[..], keys, round) == t
    {
      InvShiftRowsInPlace(a);
      InvSubBytesInPlace(a);
      AddRoundKeyInPlace(a, w, round);
      InvMixColumnsInPlace(a);
      round := round - 1;
    }
    InvShiftRowsInPlace(a);
    InvSubBytesInPlace(a);
    AddRoundKeyInPlace(a, w, 0);
    output := Store(a);
  }

  method Load(input: State) returns (a: array<bv8>)
    ensures fresh(a) && a.Length == 16 && a[..] == Transposed(input)
  {
    a := new bv8[16](i requires 0 <= i < 16 => input[i / 4 + 4 * (i % 4)]);
  }

  method Store(a: array<bv8>) returns (output: State)
    requires a.Length == 16
    ensures output == Transposed(a[..])
  {
    output := seq(16, i requires 0 <= i < 16 reads a => a[i / 4 + 4 * (i % 4)]);
  }

  // ----- The key schedule, section 5.2 of FIPS 197 -----

  function XorWord(x: Word, y: Word): Word {
    [x[0] ^ y[0], x[1] ^ y[1], x[2] ^ y[2], x[3] ^ y[3]]
  }

  function RotWord(w: Word): Word { [w[1], w[2], w[3], w[0]] }

  function SubWord(w: Word): Word { [Sbox(w[0]), Sbox(w[1]), Sbox(w[2]), Sbox(w[3])] }

  function Rcon(j: nat): bv8
    requires j < 10
  {
    [0x01, 0x02, 0x04, 0x08, 0x10, 0x20, 0x40, 0x80, 0x1b, 0x36][j]
  }

  /** The round constants are the powers of x. */
  lemma RconDoubles(j: nat)
    requires j < 10
    ensures Rcon(j) == if j == 0 then 1 else Twice(Rcon(j - 1))
  {
    if j < 5 {
      assert Rcon(0) == 1 && Rcon(1) == 2 && Rcon(2) == 4 && Rcon(3) == 8 && Rcon(4) == 16;
    } else {
      assert Rcon(4) == 16 && Rcon(5) == 32 && Rcon(6) == 64 && Rcon(7) == 128 && Rcon(8) == 0x1b && Rcon(9) == 0x36;
    }
  }

  predicate KeySize(nk: nat) { nk == 4 || nk == 6 || nk == 8 }

  /** Word i of the schedule, from the words before it. */
  function Scheduled(key: seq<bv8>, nk: nat, i: nat): Word
    requires KeySize(nk) && |key| == 4 * nk && i < 4 * nk + 28
    decreases i
  {
    if i < nk then key[4 * i..4 * i + 4]
    else XorWord(Scheduled(key, nk, i - nk), Mixed(Scheduled(key, nk, i - 1), nk, i))
  }

  /** What the word before contributes. */
  function Mixed(w: Word, nk: nat, i: nat): Word
    requires KeySize(nk) && nk <= i < 4 * nk + 28
  {
    if i % nk == 0 then RconIndex(nk, i); XorWord(SubWord(RotWord(w)), [Rcon(i / nk - 1), 0, 0, 0])
    else if nk > 6 && i % nk == 4 then SubWord(w)
    else w
  }

  lemma RconIndex(nk: nat, i: nat)
    requires KeySize(nk) && nk <= i < 4 * nk + 28
    ensures 0 <= i / nk - 1 < 10
  {
  }

  lemma ScheduledFirst(key: seq<bv8>, nk: nat, i: nat)
    requires KeySize(nk) && |key| == 4 * nk && i < nk
    ensures Scheduled(key, nk, i) == key[4 * i..4 * i + 4]
  {
  }

  lemma ScheduledNext(key: seq<bv8>, nk: nat, i: nat)
    requires KeySize(nk) && |key| == 4 * nk && nk <= i < 4 * nk + 28
    ensures Scheduled(key, nk, i) == XorWord(Scheduled(key, nk, i - nk), Mixed(Scheduled(key, nk, i - 1), nk, i))
  {
    hide XorWord, Mixed;
  }

  method MixWord(word: Word, nk: nat, i: nat) returns (temp: Word)
    requires KeySize(nk) && nk <= i < 4 * nk + 28
    ensures temp == Mixed(word, nk, i)
  {
    hide SubWord, RotWord, XorWord, Rcon;
    temp := word;
    if i % nk == 0 {
      RconIndex(nk, i);
      temp := XorWord(SubWord(RotWord(temp)), [Rcon(i / nk - 1), 0, 0, 0]);
    } else if nk > 6 && i % nk == 4 {
      temp := SubWord(temp);
    }
  }

  /** None where the code throws on the size of the key. */
  method KeyExpansion(key: seq<bv8>, nk: nat) returns (result: Option<seq<Word>>)
    requires KeySize(nk)
    ensures result.None? <==> |key| != 4 * nk
    ensures result.Some? ==> |result.value| == 4 * nk + 28
    ensures result.Some? ==> forall i :: 0 <= i < |result.value| ==> result.value[i] == Scheduled(key, nk, i)
  {
    hide Scheduled, Mixed, XorWord;
    if |key| != 4 * nk {
      return None;
    }
    var w: array<Word> := new Word[4 * nk + 28](_ => [0, 0, 0, 0]);
    var i := 0;
    while i <= nk - 1
      invariant 0 <= i <= nk
      invariant forall k :: 0 <= k < i ==> w[k] == Scheduled(key, nk, k)
    {
      ScheduledFirst(key, nk, i);
      w[i] := key[4 * i..4 * i + 4];
      i := i + 1;
    }
    while i < w.Length
      invariant nk <= i <= w.Length
      invariant forall k :: 0 <= k < i ==> w[k] == Scheduled(key, nk, k)
    {
      ScheduledNext(key, nk, i);
      var temp := MixWord(w[i - 1], nk, i);
      w[i] := XorWord(w[i - nk], temp);
      i := i + 1;
    }
    result := Some(w[..]);
  }

  /** All words of the schedule. */
  function Schedule(key: seq<bv8>, nk: nat): (w: seq<Word>)
    requires KeySize(nk) && |key| == 4 * nk
    ensures |w| == 4 * nk + 28
  {
    seq(4 * nk + 28, i requires 0 <= i < 4 * nk + 28 => Scheduled(key, nk, i))
  }

  /** Enciphers a block under a key of nk words, in nk + 6 rounds. */
  method Encipher(input: State, key: seq<bv8>, nk: nat) returns (output: Option<State>)
    requires KeySize(nk)
    ensures output.None? <==> |key| != 4 * nk
    ensures output.Some? ==>
      output.value == Transposed(Forward(Transposed(input), RoundKeys(Schedule(key, nk), nk + 7)))
  {
    hide Scheduled, RoundKeys, Forward, Transposed;
    var w := KeyExpansion(key, nk);
    if w.None? {
      return None;
    }
    assert w.value == Schedule(key, nk);
    var block := Forwards(input, w.value, nk + 6);
    output := Some(block);
  }

  method Decipher(input: State, key: seq<bv8>, nk: nat) returns (output: Option<State>)
    requires KeySize(nk)
    ensures output.None? <==> |key| != 4 * nk
    ensures output.Some? ==>
      output.value == Transposed(Inverse(Transposed(input), RoundKeys(Schedule(key, nk), nk + 7)))
  {
    hide Scheduled, RoundKeys, Inverse, Transposed;
    var w := KeyExpansion(key, nk);
    if w.None? {
      return None;
    }
    assert w.value == Schedule(key, nk);
    var block := Backwards(input, w.value, nk + 6);
    output := Some(block);
  }

  // ----- As a cipher -----

  function ToBits(b: Bytes): seq<bv8> {
    seq(|b|, i requires 0 <= i < |b| => b[i] as bv8)
  }

  function FromBits(s: seq<bv8>): Bytes {
    seq(|s|, i requires 0 <= i < |s| => s[i] as int)
  }

  lemma BitsTwice(b: Bytes, s: seq<bv8>)
    ensures FromBits(ToBits(b)) == b && ToBits(FromBits(s)) == s
  {
    forall i | 0 <= i < |b|
      ensures FromBits(ToBits(b))[i] == b[i]
    {
      ByteTwice(b[i]);
    }
    forall i | 0 <= i < |s|
      ensures ToBits(FromBits(s))[i] == s[i]
    {
      BitTwice(s[i]);
    }
  }

  function ForwardBlock(keys: seq<State>, b: Bytes): Bytes
    requires |keys| >= 2
  {
    if |b| == 16 then FromBits(Transposed(Forward(Transposed(ToBits(b)), keys))) else []
  }

  function InverseBlock(keys: seq<State>, b: Bytes): Bytes
    requires |keys| >= 2
  {
    if |b| == 16 then FromBits(Transposed(Inverse(Transposed(ToBits(b)), keys))) else []
  }

  lemma InverseForwardBlock(keys: seq<State>, b: Bytes)
    requires |keys| >= 2 && |b| == 16
    ensures |ForwardBlock(keys, b)| == 16 && InverseBlock(keys, ForwardBlock(keys, b)) == b
  {
    var s := ToBits(b);
    var t := Transposed(Forward(Transposed(s), keys));
    BitsTwice(b, t);
    TransposedTwice(s);
    TransposedTwice(Forward(Transposed(s), keys));
    InverseForward(Transposed(s), keys);
    BitsLength(t);
    hide Forward, Inverse, Transposed, ToBits, FromBits;
  }

  lemma BitsLength(s: seq<bv8>)
    ensures |FromBits(s)| == |s|
  {
  }

  /** The cipher under a list of round keys, as the modes take it. */
  function AesUnder(keys: seq<State>): B.Cipher
    requires |keys| >= 2
  {
    B.Cipher(16, b => ForwardBlock(keys, b), b => InverseBlock(keys, b))
  }

  /** What the modes ask of a cipher holds of AES, for all keys and numbers of rounds. */
  lemma AesInverts(keys: seq<State>)
    requires |keys| >= 2
    ensures AesUnder(keys).Valid() && AesUnder(keys).Invertible()
  {
    var c := AesUnder(keys);
    forall b {:trigger c.forward(b)} | |b| == 16
      ensures |c.forward(b)| == 16 && c.inverse(c.forward(b)) == b
    {
      InverseForwardBlock(keys, b);
    }
    forall b {:trigger c.inverse(b)} | |b| == 16
      ensures |c.inverse(b)| == 16
    {
      BitsLength(Transposed(Inverse(Transposed(ToBits(b)), keys)));
    }
    hide ForwardBlock, InverseBlock;
  }
}
