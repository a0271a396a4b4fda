/** The loops of crypto/src/aes.cpp over a state that is updated in place, and the cipher as the modes
    use it. Each loop is proved equal to the step on states in module Aes; the inverses are proved there, so
    that the loops of the inverse cipher take back what the loops of the cipher do. */
module AesCipher {
  import opened AesTables
  import opened AesField
  import opened AesMix
  import opened Aes

  /** Four bytes of the key schedule, in memory order. */
  type Word = w: seq<bv8> | |w| == 4 witness [0, 0, 0, 0]

  method SubBytesInPlace(a: array<bv8>)
    requires a.Length == 16
    modifies a
    ensures a[..] == SubBytes(old(a[..]))
  {
    hide Sbox;
    ghost var s := a[..];
    for r := 0 to 4
      invariant forall i :: 0 <= i < 4 * r ==> a[i] == Sbox(s[i])
      invariant forall i :: 4 * r <= i < 16 ==> a[i] == s[i]
    {
      for c := 0 to 4
        invariant forall i :: 0 <= i < 4 * r + c ==> a[i] == Sbox(s[i])
        invariant forall i :: 4 * r + c <= i < 16 ==> a[i] == s[i]
      {
        a[4 * r + c] := Sbox(a[4 * r + c]);
      }
    }
  }

  method InvSubBytesInPlace(a: array<bv8>)
    requires a.Length == 16
    modifies a
    ensures a[..] == InvSubBytes(old(a[..]))
  {
    hide InvSbox;
    ghost var s := a[..];
    for r := 0 to 4
      invariant forall i :: 0 <= i < 4 * r ==> a[i] == InvSbox(s[i])
      invariant forall i :: 4 * r <= i < 16 ==> a[i] == s[i]
    {
      for c := 0 to 4
        invariant forall i :: 0 <= i < 4 * r + c ==> a[i] == InvSbox(s[i])
        invariant forall i :: 4 * r + c <= i < 16 ==> a[i] == s[i]
      {
        a[4 * r + c] := InvSbox(a[4 * r + c]);
      }
    }
  }

  // ----- Rows -----

  /** All bytes outside a row are as they were. */
  twostate predicate OnlyRow(a: array<bv8>, r: nat)
    requires a.Length == 16
    reads a
  {
    forall i :: 0 <= i < 16 && !(4 * r <= i < 4 * r + 4) ==> a[i] == old(a[i])
  }

  method ShiftSecondRow(a: array<bv8>)
    requires a.Length == 16
    modifies a
    ensures a[4] == old(a[5]) && a[5] == old(a[6]) && a[6] == old(a[7]) && a[7] == old(a[4]) && OnlyRow(a, 1)
  {
    var t := a[4];
    a[4] := a[5];
    a[5] := a[6];
    a[6] := a[7];
    a[7] := t;
  }

  /** The third row is its own inverse. */
  method ShiftThirdRow(a: array<bv8>)
    requires a.Length == 16
    modifies a
    ensures a[8] == old(a[10]) && a[9] == old(a[11]) && a[10] == old(a[8]) && a[11] == old(a[9]) && OnlyRow(a, 2)
  {
    var t := a[8];
    a[8] := a[10];
    a[10] := t;
    t := a[9];
    a[9] := a[11];
    a[11] := t;
  }

  method ShiftFourthRow(a: array<bv8>)
    requires a.Length == 16
    modifies a
    ensures a[12] == old(a[15]) && a[13] == old(a[12]) && a[14] == old(a[13]) && a[15] == old(a[14]) && OnlyRow(a, 3)
  {
    var t := a[15];
    a[15] := a[14];
    a[14] := a[13];
    a[13] := a[12];
    a[12] := t;
  }

  method ShiftRowsInPlace(a: array<bv8>)
    requires a.Length == 16
    modifies a
    ensures a[..] == ShiftRows(old(a[..]))
  {
    hide ShiftRows;
    ghost var s := a[..];
    ShiftSecondRow(a);
    ShiftThirdRow(a);
    ShiftFourthRow(a);
    ShiftRowsAt(s, a[..]);
  }

  lemma RightIndices(i: nat)
    requires i < 16
    ensures FromRight(i) == if i < 4 then i else if i < 7 then i + 1 else if i == 7 then 4
      else if i < 10 then i + 2 else if i < 12 then i - 2 else if i == 12 then 15 else i - 1
  {
  }

  lemma LeftIndices(i: nat)
    requires i < 16
    ensures FromLeft(i) == if i < 4 then i else if i == 4 then 7 else if i < 8 then i - 1
      else if i < 10 then i + 2 else if i < 12 then i - 2 else if i < 15 then i + 1 else 12
  {
  }

  lemma ShiftRowsAt(s: State, t: State)
    requires t[0] == s[0] && t[1] == s[1] && t[2] == s[2] && t[3] == s[3]
    requires t[4] == s[5] && t[5] == s[6] && t[6] == s[7] && t[7] == s[4]
    requires t[8] == s[10] && t[9] == s[11] && t[10] == s[8] && t[11] == s[9]
    requires t[12] == s[15] && t[13] == s[12] && t[14] == s[13] && t[15] == s[14]
    ensures t == ShiftRows(s)
  {
    hide FromRight;
    forall i | 0 <= i < 16
      ensures t[i] == s[FromRight(i)]
    {
      RightIndices(i);
    }
  }

  method InvShiftSecondRow(a: array<bv8>)
    requires a.Length == 16
    modifies a
    ensures a[4] == old(a[7]) && a[5] == old(a[4]) && a[6] == old(a[5]) && a[7] == old(a[6]) && OnlyRow(a, 1)
  {
    var t := a[7];
    a[7] := a[6];
    a[6] := a[5];
    a[5] := a[4];
    a[4] := t;
  }

  method InvShiftThirdRow(a: array<bv8>)
    requires a.Length == 16
    modifies a
    ensures a[8] == old(a[10]) && a[9] == old(a[11]) && a[10] == old(a[8]) && a[11] == old(a[9]) && OnlyRow(a, 2)
  {
    var t := a[11];
    a[11] := a[9];
    a[9] := t;
    t := a[10];
    a[10] := a[8];
    a[8] := t;
  }

  method InvShiftFourthRow(a: array<bv8>)
    requires a.Length == 16
    modifies a
    ensures a[12] == old(a[13]) && a[13] == old(a[14]) && a[14] == old(a[15]) && a[15] == old(a[12]) && OnlyRow(a, 3)
  {
    var t := a[12];
    a[12] := a[13];
    a[13] := a[14];
    a[14] := a[15];
    a[15] := t;
  }

  method InvShiftRowsInPlace(a: array<bv8>)
    requires a.Length == 16
    modifies a
    ensures a[..] == InvShiftRows(old(a[..]))
  {
    hide InvShiftRows;
    ghost var s := a[..];
    InvShiftSecondRow(a);
    InvShiftThirdRow(a);
    InvShiftFourthRow(a);
    InvShiftRowsAt(s, a[..]);
  }

  lemma InvShiftRowsAt(s: State, t: State)
    requires t[0] == s[0] && t[1] == s[1] && t[2] == s[2] && t[3] == s[3]
    requires t[4] == s[7] && t[5] == s[4] && t[6] == s[5] && t[7] == s[6]
    requires t[8] == s[10] && t[9] == s[11] && t[10] == s[8] && t[11] == s[9]
    requires t[12] == s[13] && t[13] == s[14] && t[14] == s[15] && t[15] == s[12]
    ensures t == InvShiftRows(s)
  {
    hide FromLeft;
    forall i | 0 <= i < 16
      ensures t[i] == s[FromLeft(i)]
    {
      LeftIndices(i);
    }
  }

  // ----- Columns -----

  /** Byte i, when the columns before c are done. */
  function DoneAt(s: State, i: nat, c: nat, f: (bv8, bv8, bv8, bv8) -> bv8): bv8
    requires i < 16
  {
    if i % 4 < c then OnColumn(s, i, f) else s[i]
  }

  /** The columns before c are done, the others as they were. */
  ghost predicate ColumnsDone(s: State, t: State, c: nat, f: (bv8, bv8, bv8, bv8) -> bv8) {
    forall i :: 0 <= i < 16 ==> t[i] == DoneAt(s, i, c, f)
  }

  /** Column c was replaced. */
  ghost predicate ColumnReplaced(s: State, t: State, c: nat, f: (bv8, bv8, bv8, bv8) -> bv8)
    requires c < 4
  {
    && t[c] == f(s[c], s[4 + c], s[8 + c], s[12 + c])
    && t[4 + c] == f(s[4 + c], s[8 + c], s[12 + c], s[c])
    && t[8 + c] == f(s[8 + c], s[12 + c], s[c], s[4 + c])
    && t[12 + c] == f(s[12 + c], s[c], s[4 + c], s[8 + c])
    && forall i :: 0 <= i < 16 && i != c && i != 4 + c && i != 8 + c && i != 12 + c ==> t[i] == s[i]
  }

  lemma ColumnsStep(s: State, t: State, t': State, c: nat, f: (bv8, bv8, bv8, bv8) -> bv8)
    requires c < 4 && ColumnsDone(s, t, c, f) && ColumnReplaced(t, t', c, f)
    ensures ColumnsDone(s, t', c + 1, f)
  {
    ColumnStarts(s, t, c, f);
    ColumnOf(s, c, f);
    hide OnColumn, DoneAt;
    forall i | 0 <= i < 16
      ensures t'[i] == DoneAt(s, i, c + 1, f)
    {
      if i % 4 == c {
        InColumn(i, c);
        DoneNow(s, i, c, f);
      } else {
        OutOfColumn(i, c);
        DoneSame(s, i, c, f);
      }
    }
  }

  lemma ColumnStarts(s: State, t: State, c: nat, f: (bv8, bv8, bv8, bv8) -> bv8)
    requires c < 4 && ColumnsDone(s, t, c, f)
    ensures t[c] == s[c] && t[4 + c] == s[4 + c] && t[8 + c] == s[8 + c] && t[12 + c] == s[12 + c]
  {
    Residues(c);
  }

  lemma DoneNow(s: State, i: nat, c: nat, f: (bv8, bv8, bv8, bv8) -> bv8)
    requires i < 16 && i % 4 == c
    ensures DoneAt(s, i, c + 1, f) == OnColumn(s, i, f)
  {
  }

  lemma DoneSame(s: State, i: nat, c: nat, f: (bv8, bv8, bv8, bv8) -> bv8)
    requires i < 16 && i % 4 != c
    ensures DoneAt(s, i, c + 1, f) == DoneAt(s, i, c, f)
  {
  }

  lemma OutOfColumn(i: nat, c: nat)
    requires i < 16 && c < 4 && i % 4 != c
    ensures i != c && i != 4 + c && i != 8 + c && i != 12 + c
  {
    Residues(c);
  }

  lemma ColumnOf(s: State, c: nat, f: (bv8, bv8, bv8, bv8) -> bv8)
    requires c < 4
    ensures OnColumn(s, c, f) == f(s[c], s[4 + c], s[8 + c], s[12 + c])
    ensures OnColumn(s, 4 + c, f) == f(s[4 + c], s[8 + c], s[12 + c], s[c])
    ensures OnColumn(s, 8 + c, f) == f(s[8 + c], s[12 + c], s[c], s[4 + c])
    ensures OnColumn(s, 12 + c, f) == f(s[12 + c], s[c], s[4 + c], s[8 + c])
  {
  }

  lemma Residues(c: nat)
    requires c < 4
    ensures c % 4 == c && (4 + c) % 4 == c && (8 + c) % 4 == c && (12 + c) % 4 == c
  {
  }

  lemma InColumn(i: nat, c: nat)
    requires i < 16 && i % 4 == c
    ensures i == c || i == 4 + c || i == 8 + c || i == 12 + c
  {
  }

  method MixColumn(a: array<bv8>, c: nat)
    requires a.Length == 16 && c < 4
    modifies a
    ensures ColumnReplaced(old(a[..]), a[..], c, Mix)
  {
    hide Multiply;
    var s0, s1, s2, s3 := a[c], a[4 + c], a[8 + c], a[12 + c];
    MixRows(s0, s1, s2, s3);
    hide Mix;
    a[c] := Multiply(2, s0) ^ Multiply(3, s1) ^ s2 ^ s3;
    a[4 + c] := s0 ^ Multiply(2, s1) ^ Multiply(3, s2) ^ s3;
    a[8 + c] := s0 ^ s1 ^ Multiply(2, s2) ^ Multiply(3, s3);
    a[12 + c] := Multiply(3, s0) ^ s1 ^ s2 ^ Multiply(2, s3);
  }

  method MixColumnsInPlace(a: array<bv8>)
    requires a.Length == 16
    modifies a
    ensures a[..] == MixColumns(old(a[..]))
  {
    hide Mix;
    ghost var s := a[..];
    assert ColumnsDone(s, s, 0, Mix);
    for c := 0 to 4
      invariant ColumnsDone(s, a[..], c, Mix)
    {
      hide ColumnsDone, ColumnReplaced;
      ghost var t := a[..];
      MixColumn(a, c);
      ColumnsStep(s, t, a[..], c, Mix);
    }
    AllColumns(s, a[..], Mix);
  }

  lemma AllColumns(s: State, t: State, f: (bv8, bv8, bv8, bv8) -> bv8)
    requires ColumnsDone(s, t, 4, f)
    ensures forall i :: 0 <= i < 16 ==> t[i] == OnColumn(s, i, f)
  {
  }

  method InvMixColumn(a: array<bv8>, c: nat)
    requires a.Length == 16 && c < 4
    modifies a
    ensures ColumnReplaced(old(a[..]), a[..], c, Unmix)
  {
    hide Multiply;
    var s0, s1, s2, s3 := a[c], a[4 + c], a[8 + c], a[12 + c];
    UnmixRows(s0, s1, s2, s3);
    hide Unmix;
    a[c] := Multiply(14, s0) ^ Multiply(11, s1) ^ Multiply(13, s2) ^ Multiply(9, s3);
    a[4 + c] := Multiply(9, s0) ^ Multiply(14, s1) ^ Multiply(11, s2) ^ Multiply(13, s3);
    a[8 + c] := Multiply(13, s0) ^ Multiply(9, s1) ^ Multiply(14, s2) ^ Multiply(11, s3);
    a[12 + c] := Multiply(11, s0) ^ Multiply(13, s1) ^ Multiply(9, s2) ^ Multiply(14, s3);
  }

  method InvMixColumnsInPlace(a: array<bv8>)
    requires a.Length == 16
    modifies a
    ensures a[..] == InvMixColumns(old(a[..]))
  {
    hide Unmix;
    ghost var s := a[..];
    assert ColumnsDone(s, s, 0, Unmix);
    for c := 0 to 4
      invariant ColumnsDone(s, a[..], c, Unmix)
    {
      hide ColumnsDone, ColumnReplaced;
      ghost var t := a[..];
      InvMixColumn(a, c);
      ColumnsStep(s, t, a[..], c, Unmix);
    }
    AllColumns(s, a[..], Unmix);
  }

  lemma UnmixRows(s0: bv8, s1: bv8, s2: bv8, s3: bv8)
    ensures Multiply(14, s0) ^ Multiply(11, s1) ^ Multiply(13, s2) ^ Multiply(9, s3) == Unmix(s0, s1, s2, s3)
    ensures Multiply(9, s0) ^ Multiply(14, s1) ^ Multiply(11, s2) ^ Multiply(13, s3) == Unmix(s1, s2, s3, s0)
    ensures Multiply(13, s0) ^ Multiply(9, s1) ^ Multiply(14, s2) ^ Multiply(11, s3) == Unmix(s2, s3, s0, s1)
    ensures Multiply(11, s0) ^ Multiply(13, s1) ^ Multiply(9, s2) ^ Multiply(14, s3) == Unmix(s3, s0, s1, s2)
  {
    hide Multiply, Sum4;
    SumOrder0(Multiply(14, s0), Multiply(11, s1), Multiply(13, s2), Multiply(9, s3));
    SumOrder1(Multiply(14, s1), Multiply(11, s2), Multiply(13, s3), Multiply(9, s0));
    SumOrder2(Multiply(14, s2), Multiply(11, s3), Multiply(13, s0), Multiply(9, s1));
    SumOrder3(Multiply(14, s3), Multiply(11, s0), Multiply(13, s1), Multiply(9, s2));
  }

  lemma MixRows(s0: bv8, s1: bv8, s2: bv8, s3: bv8)
    ensures Multiply(2, s0) ^ Multiply(3, s1) ^ s2 ^ s3 == Mix(s0, s1, s2, s3)
    ensures s0 ^ Multiply(2, s1) ^ Multiply(3, s2) ^ s3 == Mix(s1, s2, s3, s0)
    ensures s0 ^ s1 ^ Multiply(2, s2) ^ Multiply(3, s3) == Mix(s2, s3, s0, s1)
    ensures Multiply(3, s0) ^ s1 ^ s2 ^ Multiply(2, s3) == Mix(s3, s0, s1, s2)
  {
    hide Multiply, Sum4;
    SumOrder0(Multiply(2, s0), Multiply(3, s1), s2, s3);
    SumOrder1(Multiply(2, s1), Multiply(3, s2), s3, s0);
    SumOrder2(Multiply(2, s2), Multiply(3, s3), s0, s1);
    SumOrder3(Multiply(2, s3), Multiply(3, s0), s1, s2);
  }

  lemma SumOrder0(p: bv8, q: bv8, r: bv8, s: bv8)
    ensures p ^ q ^ r ^ s == Sum4(p, q, r, s)
  {
  }

  lemma SumOrder1(p: bv8, q: bv8, r: bv8, s: bv8)
    ensures s ^ p ^ q ^ r == Sum4(p, q, r, s)
  {
  }

  lemma SumOrder2(p: bv8, q: bv8, r: bv8, s: bv8)
    ensures r ^ s ^ p ^ q == Sum4(p, q, r, s)
  {
  }

  lemma SumOrder3(p: bv8, q: bv8, r: bv8, s: bv8)
    ensures q ^ r ^ s ^ p == Sum4(p, q, r, s)
  {
  }

  // ----- Keys -----

  /** The key of a round: four words, one to a column. */
  function RoundKey(w: seq<Word>, round: nat): State
    requires 4 * round + 4 <= |w|
  {
    seq(16, i requires 0 <= i < 16 => w[4 * round + i % 4][i / 4])
  }

  /** Adds one word to one column. */
  method AddWord(a: array<bv8>, word: Word, c: nat)
    requires a.Length == 16 && c < 4
    modifies a
    ensures forall i :: 0 <= i < 16 ==> a[i] == if i % 4 == c then Add(old(a[i]), word[i / 4]) else old(a[i])
  {
    for r := 0 to 4
      invariant forall i :: 0 <= i < 16 ==> a[i] == if i % 4 == c && i / 4 < r then Add(old(a[i]), word[i / 4]) else old(a[i])
    {
      hide Add;
      assert (4 * r + c) % 4 == c && (4 * r + c) / 4 == r;
      SumIs(a[4 * r + c], word[r]);
      a[4 * r + c] := a[4 * r + c] ^ word[r];
    }
  }

  lemma SumIs(x: bv8, y: bv8)
    ensures x ^ y == Add(x, y)
  {
  }

  method AddRoundKeyInPlace(a: array<bv8>, w: seq<Word>, round: nat)
    requires a.Length == 16 && 4 * round + 4 <= |w|
    modifies a
    ensures a[..] == AddRoundKey(old(a[..]), RoundKey(w, round))
  {
    hide Add;
    ghost var s, k := a[..], RoundKey(w, round);
    for c := 0 to 4
      invariant forall i :: 0 <= i < 16 ==> a[i] == if i % 4 < c then Add(s[i], k[i]) else s[i]
    {
      AddWord(a, w[4 * round + c], c);
    }
  }
}
