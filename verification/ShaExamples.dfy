/** The example "abc" of the standard, at single rounds of the functions of crypto/src/sha.cpp: the order of
    the words, which sum goes where, and the distances of the rotations. FIPS 180-4 refers to its examples. */
module ShaExamples {
  import opened ShaFunctions
  import opened ShaDigest

  lemma Sha1Round0()
    ensures Sha1Round(Work1(0x6745_2301, 0xefcd_ab89, 0x98ba_dcfe, 0x1032_5476, 0xc3d2_e1f0), 0, 0x6162_6380)
      == Work1(0x0116_fc33, 0x6745_2301, 0x7bf3_6ae2, 0x98ba_dcfe, 0x1032_5476)
  {
  }

  lemma Sha1Round20()
    ensures Sha1Round(Work1(0xfd9e_1d7d, 0xdc64_901d, 0x20aa_99ca, 0xd3a4_9608, 0xc82f_758b), 20, 0x0000_0000)
      == Work1(0x1a37_b0ca, 0xfd9e_1d7d, 0x7719_2407, 0x20aa_99ca, 0xd3a4_9608)
  {
  }

  lemma Sha1Round40()
    ensures Sha1Round(Work1(0x32de_1cba, 0x4c98_6405, 0xf718_e5cf, 0x03d4_47f6, 0xf72e_ec32), 40, 0xd2e1_38c4)
      == Work1(0xfc87_dedf, 0x32de_1cba, 0x5326_1901, 0xf718_e5cf, 0x03d4_47f6)
  {
  }

  lemma Sha1Round60()
    ensures Sha1Round(Work1(0x3f52_de5a, 0x09d7_85fd, 0x3498_bfd4, 0xf211_824f, 0xd799_15ab), 60, 0x7ba0_6619)
      == Work1(0xd756_c147, 0x3f52_de5a, 0x4275_e17f, 0x3498_bfd4, 0xf211_824f)
  {
  }

  /** Words 16 and 19 of the schedule. */
  lemma Sha1Words()
    ensures Sha1Next([0x6162_6380, 0, 0, 0, 0, 0, 0, 0, 0, 0, 0, 0, 0, 0, 0, 0x0000_0018]) == 0xc2c4_c700
    ensures Sha1Next([0, 0, 0, 0, 0, 0, 0, 0, 0, 0, 0, 0, 0x0000_0018, 0xc2c4_c700, 0, 0x0000_0030]) == 0x8589_8e01
  {
  }

  lemma Sha256Round0()
    ensures Sha2Round(Words2x32(),
      Work2(0x6a09_e667, 0xbb67_ae85, 0x3c6e_f372, 0xa54f_f53a,
            0x510e_527f, 0x9b05_688c, 0x1f83_d9ab, 0x5be0_cd19),
      0, 0x6162_6380)
      == Work2(0x5d6a_ebcd, 0x6a09_e667, 0xbb67_ae85, 0x3c6e_f372,
            0xfa2a_4622, 0x510e_527f, 0x9b05_688c, 0x1f83_d9ab)
  {
  }

  lemma Sha256Round17()
    ensures Sha2Round(Words2x32(),
      Work2(0x21da_9a9b, 0xb0fa_238e, 0xc064_5fde, 0xd932_eb16,
            0x8034_229c, 0x0759_0dcd, 0x0b92_f20c, 0x745a_48de),
      17, 0x000f_0000)
      == Work2(0xc2fb_d9d1, 0x21da_9a9b, 0xb0fa_238e, 0xc064_5fde,
            0x846e_e454, 0x8034_229c, 0x0759_0dcd, 0x0b92_f20c)
  {
  }

  lemma Sha256Words()
    ensures Sha2Next(Words2x32(), [
      0x6162_6380, 0, 0, 0, 0, 0, 0, 0,
      0, 0, 0, 0, 0, 0, 0, 0x0000_0018]) == 0x6162_6380
    ensures Sha2Next(Words2x32(), [
      0, 0, 0, 0, 0, 0, 0, 0,
      0, 0, 0, 0, 0, 0x0000_0018, 0x6162_6380, 0x000f_0000]) == 0x7da8_6405
    ensures Sha2Next(Words2x32(), [
      0x0000_0018, 0x6162_6380, 0x000f_0000, 0x7da8_6405, 0x6000_03c6, 0x3e9d_7b78, 0x0183_fc00, 0x12dc_bfdb,
      0xe2e2_c38e, 0xc821_5c1a, 0xb736_79a2, 0xe5bc_3909, 0x3266_3c5b, 0x9d20_9d67, 0xec87_26cb, 0x7021_38a4]) == 0xd3b7_973b
  {
  }

  lemma Sha512Round0()
    ensures Sha2Round(Words2x64(),
      Work2(0x6a09_e667_f3bc_c908, 0xbb67_ae85_84ca_a73b, 0x3c6e_f372_fe94_f82b, 0xa54f_f53a_5f1d_36f1,
            0x510e_527f_ade6_82d1, 0x9b05_688c_2b3e_6c1f, 0x1f83_d9ab_fb41_bd6b, 0x5be0_cd19_137e_2179),
      0, 0x6162_6380_0000_0000)
      == Work2(0xf6af_ceb8_bcfc_ddf5, 0x6a09_e667_f3bc_c908, 0xbb67_ae85_84ca_a73b, 0x3c6e_f372_fe94_f82b,
            0x58cb_0234_7ab5_1f91, 0x510e_527f_ade6_82d1, 0x9b05_688c_2b3e_6c1f, 0x1f83_d9ab_fb41_bd6b)
  {
  }

  lemma Sha512Round17()
    ensures Sha2Round(Words2x64(),
      Work2(0xcaf8_1a42_5d80_0537, 0x0ae0_7c86_b118_1c75, 0xfa96_7eed_85a0_8028, 0x4424_9631_255d_2ca0,
            0x2dee_cc6b_39d6_4d78, 0xa77b_7c03_5dd4_c161, 0x874b_fe5f_6aae_9f2f, 0x860a_cf9e_ffba_6f61),
      17, 0x0003_0000_0000_00c0)
      == Work2(0x4725_be24_9ad1_9e6b, 0xcaf8_1a42_5d80_0537, 0x0ae0_7c86_b118_1c75, 0xfa96_7eed_85a0_8028,
            0xf47e_8353_f804_7455, 0x2dee_cc6b_39d6_4d78, 0xa77b_7c03_5dd4_c161, 0x874b_fe5f_6aae_9f2f)
  {
  }

  lemma Sha512Words()
    ensures Sha2Next(Words2x64(), [
      0x6162_6380_0000_0000, 0, 0, 0, 0, 0, 0, 0,
      0, 0, 0, 0, 0, 0, 0, 0x0000_0000_0000_0018]) == 0x6162_6380_0000_0000
    ensures Sha2Next(Words2x64(), [
      0, 0, 0, 0, 0, 0, 0, 0,
      0, 0, 0, 0, 0, 0x0000_0000_0000_0018, 0x6162_6380_0000_0000, 0x0003_0000_0000_00c0]) == 0x0a96_99a2_4c70_0003
    ensures Sha2Next(Words2x64(), [
      0x0000_0000_0000_0018, 0x6162_6380_0000_0000, 0x0003_0000_0000_00c0, 0x0a96_99a2_4c70_0003, 0x0000_0c00_6000_0603, 0x549e_f626_3985_8996, 0x00c0_0033_0000_3c00, 0x1497_007a_8a0e_9dbc,
      0x62e5_6500_cc07_80f0, 0x7760_dd47_5a53_8797, 0xf155_4b71_1c1c_0003, 0xca29_93a4_345d_9ff2, 0x5e0e_66b5_c783_dd32, 0xe25a_625d_0049_4b62, 0x9f44_486f_b1e4_fbd2, 0xb31b_8c2b_0608_5f2f]) == 0x0e98_7660_9341_42f6
  {
  }
}
