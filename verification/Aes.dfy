/** The AES block cipher of crypto/src/aes.cpp; FIPS 197. */
module Aes {
  import opened AesTables
  import opened AesField
  import opened AesMix

  /** The state, row by row; the byte in row r and column c is at 4r + c. */
  type State = s: seq<bv8> | |s| == 16 witness seq(16, _ => 0)

  // ----- The steps, sections 5.1 and 5.3 of FIPS 197 -----

  function SubBytes(s: State): State {
    seq(16, i requires 0 <= i < 16 => Sbox(s[i]))
  }

  function InvSubBytes(s: State): State {
    seq(16, i requires 0 <= i < 16 => InvSbox(s[i]))
  }

  /** Where row r takes column c from: r places to the right, around. */
  function FromRight(i: nat): (j: nat)
    requires i < 16
    ensures j < 16
  {
    4 * (i / 4) + (i % 4 + i / 4) % 4
  }

  function FromLeft(i: nat): (j: nat)
    requires i < 16
    ensures j < 16
  {
    4 * (i / 4) + (i % 4 + 4 - i / 4) % 4
  }

  function ShiftRows(s: State): State {
    seq(16, i requires 0 <= i < 16 => s[FromRight(i)])
  }

  function InvShiftRows(s: State): State {
    seq(16, i requires 0 <= i < 16 => s[FromLeft(i)])
  }

  /** A function of the column of byte i, from the row of byte i downwards, around. */
  function OnColumn(s: State, i: nat, f: (bv8, bv8, bv8, bv8) -> bv8): bv8
    requires i < 16
  {
    f(s[i], s[(i + 4) % 16], s[(i + 8) % 16], s[(i + 12) % 16])
  }

  function MixColumns(s: State): State {
    seq(16, i requires 0 <= i < 16 => OnColumn(s, i, Mix))
  }

  function InvMixColumns(s: State): State {
    seq(16, i requires 0 <= i < 16 => OnColumn(s, i, Unmix))
  }

  function AddRoundKey(s: State, k: State): State {
    seq(16, i requires 0 <= i < 16 => Add(s[i], k[i]))
  }

  // ----- Each step and its inverse -----

  lemma SubBytesInverse(s: State)
    ensures InvSubBytes(SubBytes(s)) == s
  {
    hide Sbox, InvSbox;
    forall i | 0 <= i < 16
      ensures InvSbox(Sbox(s[i])) == s[i]
    {
      InvSboxSbox(s[i]);
    }
  }

  lemma ShiftRowsInverse(s: State)
    ensures InvShiftRows(ShiftRows(s)) == s
  {
    hide FromLeft, FromRight;
    forall i | 0 <= i < 16
      ensures InvShiftRows(ShiftRows(s))[i] == s[i]
    {
      LeftRight(i);
    }
  }

  lemma LeftRight(i: nat)
    requires i < 16
    ensures FromRight(FromLeft(i)) == i
  {
    if i < 4 {
      InRow(i, 0);
    } else if i < 8 {
      InRow(i, 1);
    } else if i < 12 {
      InRow(i, 2);
    } else {
      InRow(i, 3);
    }
  }

  lemma InRow(i: nat, r: nat)
    requires 4 * r <= i < 4 * r + 4 && r < 4
    ensures i < 16 && FromRight(FromLeft(i)) == i
  {
    var c := i - 4 * r;
    assert FromLeft(i) == 4 * r + (if c >= r then c - r else c + 4 - r);
  }

  lemma MixColumnsInverse(s: State)
    ensures InvMixColumns(MixColumns(s)) == s
  {
    hide Mix, Unmix;
    forall i | 0 <= i < 16
      ensures InvMixColumns(MixColumns(s))[i] == s[i]
    {
      Around(i);
      UnmixMix(s[i], s[(i + 4) % 16], s[(i + 8) % 16], s[(i + 12) % 16]);
    }
  }

  lemma Around(i: nat)
    requires i < 16
    ensures ((i + 4) % 16 + 4) % 16 == (i + 8) % 16 && ((i + 4) % 16 + 8) % 16 == (i + 12) % 16 && ((i + 4) % 16 + 12) % 16 == i
    ensures ((i + 8) % 16 + 4) % 16 == (i + 12) % 16 && ((i + 8) % 16 + 8) % 16 == i && ((i + 8) % 16 + 12) % 16 == (i + 4) % 16
    ensures ((i + 12) % 16 + 4) % 16 == i && ((i + 12) % 16 + 8) % 16 == (i + 4) % 16 && ((i + 12) % 16 + 12) % 16 == (i + 8) % 16
  {
    AroundBy(i, 4);
    AroundBy(i, 8);
    AroundBy(i, 12);
    OnceAround(i);
  }

  lemma OnceAround(i: nat)
    requires i < 16
    ensures (i + 16) % 16 == i && (i + 20) % 16 == (i + 4) % 16 && (i + 24) % 16 == (i + 8) % 16
  {
  }

  lemma AroundBy(i: nat, d: nat)
    requires i < 16 && (d == 4 || d == 8 || d == 12)
    ensures ((i + d) % 16 + 4) % 16 == (i + d + 4) % 16
    ensures ((i + d) % 16 + 8) % 16 == (i + d + 8) % 16
    ensures ((i + d) % 16 + 12) % 16 == (i + d + 12) % 16
  {
    ModAfter(i + d, 4);
    ModAfter(i + d, 8);
    ModAfter(i + d, 12);
  }

  lemma ModAfter(x: nat, e: nat)
    ensures (x % 16 + e) % 16 == (x + e) % 16
  {
  }

  lemma AddRoundKeyTwice(s: State, k: State)
    ensures AddRoundKey(AddRoundKey(s, k), k) == s
  {
    hide Add;
    forall i | 0 <= i < 16
      ensures Add(Add(s[i], k[i]), k[i]) == s[i]
    {
      AddLaws(s[i], k[i], k[i]);
      AddLaws(k[i], s[i], s[i]);
    }
  }

  // ----- The rounds -----

  /** The state after that many full rounds; the keys are those of the rounds. */
  function Rounds(s: State, keys: seq<State>, n: nat): State
    requires n < |keys|
  {
    if n == 0 then AddRoundKey(s, keys[0])
    else AddRoundKey(MixColumns(ShiftRows(SubBytes(Rounds(s, keys, n - 1)))), keys[n])
  }

  /** The cipher, with a last round that does not mix. */
  function Forward(s: State, keys: seq<State>): State
    requires |keys| >= 2
  {
    AddRoundKey(ShiftRows(SubBytes(Rounds(s, keys, |keys| - 2))), keys[|keys| - 1])
  }

  /** Full inverse rounds from round n down to the first. */
  function InvRounds(s: State, keys: seq<State>, n: nat): State
    requires n < |keys|
    decreases n
  {
    if n == 0 then s
    else InvRounds(InvMixColumns(AddRoundKey(InvSubBytes(InvShiftRows(s)), keys[n])), keys, n - 1)
  }

  function Inverse(s: State, keys: seq<State>): State
    requires |keys| >= 2
  {
    var t := InvRounds(AddRoundKey(s, keys[|keys| - 1]), keys, |keys| - 2);
    AddRoundKey(InvSubBytes(InvShiftRows(t)), keys[0])
  }

  /** The inverse rounds take a state, before its key, back to the start. */
  lemma {:induction false} RoundsInverse(s: State, keys: seq<State>, n: nat)
    requires n < |keys|
    ensures InvRounds(ShiftRows(SubBytes(Rounds(s, keys, n))), keys, n) == ShiftRows(SubBytes(AddRoundKey(s, keys[0])))
    decreases n
  {
    hide ShiftRows, SubBytes, MixColumns, AddRoundKey, InvShiftRows, InvSubBytes, InvMixColumns;
    if n != 0 {
      var x := Rounds(s, keys, n - 1);
      var y := ShiftRows(SubBytes(x));
      var z := AddRoundKey(MixColumns(y), keys[n]);
      ShiftRowsInverse(SubBytes(z));
      SubBytesInverse(z);
      AddRoundKeyTwice(MixColumns(y), keys[n]);
      MixColumnsInverse(y);
      RoundsInverse(s, keys, n - 1);
    }
  }

  /** The inverse cipher undoes the cipher, for every state, all keys and any number of rounds. */
  lemma InverseForward(s: State, keys: seq<State>)
    requires |keys| >= 2
    ensures Inverse(Forward(s, keys), keys) == s
  {
    hide ShiftRows, SubBytes, MixColumns, AddRoundKey, InvShiftRows, InvSubBytes, InvMixColumns, Rounds, InvRounds;
    var n := |keys| - 1;
    AddRoundKeyTwice(ShiftRows(SubBytes(Rounds(s, keys, n - 1))), keys[n]);
    RoundsInverse(s, keys, n - 1);
    var x := AddRoundKey(s, keys[0]);
    ShiftRowsInverse(SubBytes(x));
    SubBytesInverse(x);
    AddRoundKeyTwice(s, keys[0]);
  }
}
