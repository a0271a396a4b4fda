/** Examples of FIPS 197, for the parts of AES that the inverse cipher alone does not determine: the
    directions of the rotations, the column matrix and the words of the key schedule. */
module AesExamples {
  import opened Aes
  import opened AesMix
  import opened AesTables
  import opened AesCipher
  import opened AesBlock

  // ----- The first round of appendix C.1 -----

  function Substituted(): State {
    [0x63, 0x09, 0xcd, 0xba, 0xca, 0x53, 0x60, 0x70, 0xb7, 0xd0, 0xe0, 0xe1, 0x04, 0x51, 0xe7, 0x8c]
  }

  function Rotated(): State {
    [0x63, 0x09, 0xcd, 0xba, 0x53, 0x60, 0x70, 0xca, 0xe0, 0xe1, 0xb7, 0xd0, 0x8c, 0x04, 0x51, 0xe7]
  }

  lemma ShiftRowsExample()
    ensures ShiftRows(Substituted()) == Rotated()
  {
  }

  lemma MixExample()
    ensures Mix(0x63, 0x53, 0xe0, 0x8c) == 0x5f && Mix(0x53, 0xe0, 0x8c, 0x63) == 0x72
    ensures Mix(0xe0, 0x8c, 0x63, 0x53) == 0x64 && Mix(0x8c, 0x63, 0x53, 0xe0) == 0x15
  {
  }

  /** The first column. */
  lemma MixColumnsExample()
    ensures MixColumns(Rotated())[0] == 0x5f && MixColumns(Rotated())[4] == 0x72
    ensures MixColumns(Rotated())[8] == 0x64 && MixColumns(Rotated())[12] == 0x15
  {
    hide Mix;
    MixExample();
  }

  // ----- Words of the key schedules of appendices A.1 and A.3 -----

  const KEY128: seq<bv8> := [0x2b, 0x7e, 0x15, 0x16, 0x28, 0xae, 0xd2, 0xa6, 0xab, 0xf7, 0x15, 0x88, 0x09, 0xcf, 0x4f, 0x3c]

  lemma ScheduleExample()
    ensures Scheduled(KEY128, 4, 4) == [0xa0, 0xfa, 0xfe, 0x17]
  {
  }

  lemma MixedExample()
    ensures Mixed([0x09, 0x14, 0xdf, 0xf4], 8, 8) == [0xfb, 0x9e, 0xbf, 0x01]
    ensures Mixed([0x20, 0x67, 0xfc, 0xde], 8, 12) == [0xb7, 0x85, 0xb0, 0x1d]
  {
  }
}
