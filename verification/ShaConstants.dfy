/** Where the constants of crypto/src/sha.cpp come from. The constants of the rounds of SHA-2 are cube roots of
    the first primes, those of SHA-1 square roots, and so are the initial values of the digests whose values
    are not themselves made by a hash (sections 4.2 and 5.3 of FIPS 180-4). Each statement is an inequality on
    integers: with the next greater constant the power would exceed the prime. */
module ShaConstants {
  import opened ShaFunctions
  import opened ShaDigest

  const TWO32: nat := 0x1_0000_0000
  const TWO64: nat := 0x1_0000_0000_0000_0000

  /** k / w is the fractional part of the cube root of p, cut off; whole is the other part. */
  ghost predicate CubeFraction(p: nat, whole: nat, k: nat, w: nat) {
    var n := whole * w + k;
    k < w && n * n * n <= p * (w * w * w) < (n + 1) * (n + 1) * (n + 1)
  }

  ghost predicate SquareFraction(p: nat, whole: nat, k: nat, w: nat) {
    var n := whole * w + k;
    k < w && n * n <= p * (w * w) < (n + 1) * (n + 1)
  }

  function CubeRoot(p: nat): nat {
    if p < 8 then 1 else if p < 27 then 2 else if p < 64 then 3 else if p < 125 then 4
    else if p < 216 then 5 else if p < 343 then 6 else 7
  }

  /** The first eighty primes. */
  function PrimeRow(i: nat): (r: seq<nat>)
    ensures |r| == 8
  {
    if i == 0 then [2, 3, 5, 7, 11, 13, 17, 19]
    else if i == 1 then [23, 29, 31, 37, 41, 43, 47, 53]
    else if i == 2 then [59, 61, 67, 71, 73, 79, 83, 89]
    else if i == 3 then [97, 101, 103, 107, 109, 113, 127, 131]
    else if i == 4 then [137, 139, 149, 151, 157, 163, 167, 173]
    else if i == 5 then [179, 181, 191, 193, 197, 199, 211, 223]
    else if i == 6 then [227, 229, 233, 239, 241, 251, 257, 263]
    else if i == 7 then [269, 271, 277, 281, 283, 293, 307, 311]
    else if i == 8 then [313, 317, 331, 337, 347, 349, 353, 359]
    else [367, 373, 379, 383, 389, 397, 401, 409]
  }

  function Prime(t: nat): nat { PrimeRow(t / 8)[t % 8] }

  lemma K32Row0()
    ensures CubeFraction(Prime(0), CubeRoot(Prime(0)), K32(0) as nat, TWO32)
    ensures CubeFraction(Prime(1), CubeRoot(Prime(1)), K32(1) as nat, TWO32)
    ensures CubeFraction(Prime(2), CubeRoot(Prime(2)), K32(2) as nat, TWO32)
    ensures CubeFraction(Prime(3), CubeRoot(Prime(3)), K32(3) as nat, TWO32)
    ensures CubeFraction(Prime(4), CubeRoot(Prime(4)), K32(4) as nat, TWO32)
    ensures CubeFraction(Prime(5), CubeRoot(Prime(5)), K32(5) as nat, TWO32)
    ensures CubeFraction(Prime(6), CubeRoot(Prime(6)), K32(6) as nat, TWO32)
    ensures CubeFraction(Prime(7), CubeRoot(Prime(7)), K32(7) as nat, TWO32)
  {
  }

  lemma K32Row1()
    ensures CubeFraction(Prime(8), CubeRoot(Prime(8)), K32(8) as nat, TWO32)
    ensures CubeFraction(Prime(9), CubeRoot(Prime(9)), K32(9) as nat, TWO32)
    ensures CubeFraction(Prime(10), CubeRoot(Prime(10)), K32(10) as nat, TWO32)
    ensures CubeFraction(Prime(11), CubeRoot(Prime(11)), K32(11) as nat, TWO32)
    ensures CubeFraction(Prime(12), CubeRoot(Prime(12)), K32(12) as nat, TWO32)
    ensures CubeFraction(Prime(13), CubeRoot(Prime(13)), K32(13) as nat, TWO32)
    ensures CubeFraction(Prime(14), CubeRoot(Prime(14)), K32(14) as nat, TWO32)
    ensures CubeFraction(Prime(15), CubeRoot(Prime(15)), K32(15) as nat, TWO32)
  {
  }

  lemma K32Row2()
    ensures CubeFraction(Prime(16), CubeRoot(Prime(16)), K32(16) as nat, TWO32)
    ensures CubeFraction(Prime(17), CubeRoot(Prime(17)), K32(17) as nat, TWO32)
    ensures CubeFraction(Prime(18), CubeRoot(Prime(18)), K32(18) as nat, TWO32)
    ensures CubeFraction(Prime(19), CubeRoot(Prime(19)), K32(19) as nat, TWO32)
    ensures CubeFraction(Prime(20), CubeRoot(Prime(20)), K32(20) as nat, TWO32)
    ensures CubeFraction(Prime(21), CubeRoot(Prime(21)), K32(21) as nat, TWO32)
    ensures CubeFraction(Prime(22), CubeRoot(Prime(22)), K32(22) as nat, TWO32)
    ensures CubeFraction(Prime(23), CubeRoot(Prime(23)), K32(23) as nat, TWO32)
  {
  }

  lemma K32Row3()
    ensures CubeFraction(Prime(24), CubeRoot(Prime(24)), K32(24) as nat, TWO32)
    ensures CubeFraction(Prime(25), CubeRoot(Prime(25)), K32(25) as nat, TWO32)
    ensures CubeFraction(Prime(26), CubeRoot(Prime(26)), K32(26) as nat, TWO32)
    ensures CubeFraction(Prime(27), CubeRoot(Prime(27)), K32(27) as nat, TWO32)
    ensures CubeFraction(Prime(28), CubeRoot(Prime(28)), K32(28) as nat, TWO32)
    ensures CubeFraction(Prime(29), CubeRoot(Prime(29)), K32(29) as nat, TWO32)
    ensures CubeFraction(Prime(30), CubeRoot(Prime(30)), K32(30) as nat, TWO32)
    ensures CubeFraction(Prime(31), CubeRoot(Prime(31)), K32(31) as nat, TWO32)
  {
  }

  lemma K32Row4()
    ensures CubeFraction(Prime(32), CubeRoot(Prime(32)), K32(32) as nat, TWO32)
    ensures CubeFraction(Prime(33), CubeRoot(Prime(33)), K32(33) as nat, TWO32)
    ensures CubeFraction(Prime(34), CubeRoot(Prime(34)), K32(34) as nat, TWO32)
    ensures CubeFraction(Prime(35), CubeRoot(Prime(35)), K32(35) as nat, TWO32)
    ensures CubeFraction(Prime(36), CubeRoot(Prime(36)), K32(36) as nat, TWO32)
    ensures CubeFraction(Prime(37), CubeRoot(Prime(37)), K32(37) as nat, TWO32)
    ensures CubeFraction(Prime(38), CubeRoot(Prime(38)), K32(38) as nat, TWO32)
    ensures CubeFraction(Prime(39), CubeRoot(Prime(39)), K32(39) as nat, TWO32)
  {
  }

  lemma K32Row5()
    ensures CubeFraction(Prime(40), CubeRoot(Prime(40)), K32(40) as nat, TWO32)
    ensures CubeFraction(Prime(41), CubeRoot(Prime(41)), K32(41) as nat, TWO32)
    ensures CubeFraction(Prime(42), CubeRoot(Prime(42)), K32(42) as nat, TWO32)
    ensures CubeFraction(Prime(43), CubeRoot(Prime(43)), K32(43) as nat, TWO32)
    ensures CubeFraction(Prime(44), CubeRoot(Prime(44)), K32(44) as nat, TWO32)
    ensures CubeFraction(Prime(45), CubeRoot(Prime(45)), K32(45) as nat, TWO32)
    ensures CubeFraction(Prime(46), CubeRoot(Prime(46)), K32(46) as nat, TWO32)
    ensures CubeFraction(Prime(47), CubeRoot(Prime(47)), K32(47) as nat, TWO32)
  {
  }

  lemma K32Row6()
    ensures CubeFraction(Prime(48), CubeRoot(Prime(48)), K32(48) as nat, TWO32)
    ensures CubeFraction(Prime(49), CubeRoot(Prime(49)), K32(49) as nat, TWO32)
    ensures CubeFraction(Prime(50), CubeRoot(Prime(50)), K32(50) as nat, TWO32)
    ensures CubeFraction(Prime(51), CubeRoot(Prime(51)), K32(51) as nat, TWO32)
    ensures CubeFraction(Prime(52), CubeRoot(Prime(52)), K32(52) as nat, TWO32)
    ensures CubeFraction(Prime(53), CubeRoot(Prime(53)), K32(53) as nat, TWO32)
    ensures CubeFraction(Prime(54), CubeRoot(Prime(54)), K32(54) as nat, TWO32)
    ensures CubeFraction(Prime(55), CubeRoot(Prime(55)), K32(55) as nat, TWO32)
  {
  }

  lemma K32Row7()
    ensures CubeFraction(Prime(56), CubeRoot(Prime(56)), K32(56) as nat, TWO32)
    ensures CubeFraction(Prime(57), CubeRoot(Prime(57)), K32(57) as nat, TWO32)
    ensures CubeFraction(Prime(58), CubeRoot(Prime(58)), K32(58) as nat, TWO32)
    ensures CubeFraction(Prime(59), CubeRoot(Prime(59)), K32(59) as nat, TWO32)
    ensures CubeFraction(Prime(60), CubeRoot(Prime(60)), K32(60) as nat, TWO32)
    ensures CubeFraction(Prime(61), CubeRoot(Prime(61)), K32(61) as nat, TWO32)
    ensures CubeFraction(Prime(62), CubeRoot(Prime(62)), K32(62) as nat, TWO32)
    ensures CubeFraction(Prime(63), CubeRoot(Prime(63)), K32(63) as nat, TWO32)
  {
  }

  /** The round constants of words of 32 bits are the first bits of the fractional parts of the cube roots of the
      first primes. */
  lemma K32Are(t: nat)
    requires t < 64
    ensures CubeFraction(Prime(t), CubeRoot(Prime(t)), K32(t) as nat, TWO32)
  {
    hide CubeFraction, Prime, CubeRoot, K32;
    if t < 8 {
      K32Row0();
      assert t == 0 || t == 1 || t == 2 || t == 3 || t == 4 || t == 5 || t == 6 || t == 7;
    } else if t < 16 {
      K32Row1();
      assert t == 8 || t == 9 || t == 10 || t == 11 || t == 12 || t == 13 || t == 14 || t == 15;
    } else if t < 24 {
      K32Row2();
      assert t == 16 || t == 17 || t == 18 || t == 19 || t == 20 || t == 21 || t == 22 || t == 23;
    } else if t < 32 {
      K32Row3();
      assert t == 24 || t == 25 || t == 26 || t == 27 || t == 28 || t == 29 || t == 30 || t == 31;
    } else if t < 40 {
      K32Row4();
      assert t == 32 || t == 33 || t == 34 || t == 35 || t == 36 || t == 37 || t == 38 || t == 39;
    } else if t < 48 {
      K32Row5();
      assert t == 40 || t == 41 || t == 42 || t == 43 || t == 44 || t == 45 || t == 46 || t == 47;
    } else if t < 56 {
      K32Row6();
      assert t == 48 || t == 49 || t == 50 || t == 51 || t == 52 || t == 53 || t == 54 || t == 55;
    } else {
      K32Row7();
      assert t == 56 || t == 57 || t == 58 || t == 59 || t == 60 || t == 61 || t == 62 || t == 63;
    }
  }

  lemma K64Row0()
    ensures CubeFraction(Prime(0), CubeRoot(Prime(0)), K64(0) as nat, TWO64)
    ensures CubeFraction(Prime(1), CubeRoot(Prime(1)), K64(1) as nat, TWO64)
    ensures CubeFraction(Prime(2), CubeRoot(Prime(2)), K64(2) as nat, TWO64)
    ensures CubeFraction(Prime(3), CubeRoot(Prime(3)), K64(3) as nat, TWO64)
    ensures CubeFraction(Prime(4), CubeRoot(Prime(4)), K64(4) as nat, TWO64)
    ensures CubeFraction(Prime(5), CubeRoot(Prime(5)), K64(5) as nat, TWO64)
    ensures CubeFraction(Prime(6), CubeRoot(Prime(6)), K64(6) as nat, TWO64)
    ensures CubeFraction(Prime(7), CubeRoot(Prime(7)), K64(7) as nat, TWO64)
  {
  }

  lemma K64Row1()
    ensures CubeFraction(Prime(8), CubeRoot(Prime(8)), K64(8) as nat, TWO64)
    ensures CubeFraction(Prime(9), CubeRoot(Prime(9)), K64(9) as nat, TWO64)
    ensures CubeFraction(Prime(10), CubeRoot(Prime(10)), K64(10) as nat, TWO64)
    ensures CubeFraction(Prime(11), CubeRoot(Prime(11)), K64(11) as nat, TWO64)
    ensures CubeFraction(Prime(12), CubeRoot(Prime(12)), K64(12) as nat, TWO64)
    ensures CubeFraction(Prime(13), CubeRoot(Prime(13)), K64(13) as nat, TWO64)
    ensures CubeFraction(Prime(14), CubeRoot(Prime(14)), K64(14) as nat, TWO64)
    ensures CubeFraction(Prime(15), CubeRoot(Prime(15)), K64(15) as nat, TWO64)
  {
  }

  lemma K64Row2()
    ensures CubeFraction(Prime(16), CubeRoot(Prime(16)), K64(16) as nat, TWO64)
    ensures CubeFraction(Prime(17), CubeRoot(Prime(17)), K64(17) as nat, TWO64)
    ensures CubeFraction(Prime(18), CubeRoot(Prime(18)), K64(18) as nat, TWO64)
    ensures CubeFraction(Prime(19), CubeRoot(Prime(19)), K64(19) as nat, TWO64)
    ensures CubeFraction(Prime(20), CubeRoot(Prime(20)), K64(20) as nat, TWO64)
    ensures CubeFraction(Prime(21), CubeRoot(Prime(21)), K64(21) as nat, TWO64)
    ensures CubeFraction(Prime(22), CubeRoot(Prime(22)), K64(22) as nat, TWO64)
    ensures CubeFraction(Prime(23), CubeRoot(Prime(23)), K64(23) as nat, TWO64)
  {
  }

  lemma K64Row3()
    ensures CubeFraction(Prime(24), CubeRoot(Prime(24)), K64(24) as nat, TWO64)
    ensures CubeFraction(Prime(25), CubeRoot(Prime(25)), K64(25) as nat, TWO64)
    ensures CubeFraction(Prime(26), CubeRoot(Prime(26)), K64(26) as nat, TWO64)
    ensures CubeFraction(Prime(27), CubeRoot(Prime(27)), K64(27) as nat, TWO64)
    ensures CubeFraction(Prime(28), CubeRoot(Prime(28)), K64(28) as nat, TWO64)
    ensures CubeFraction(Prime(29), CubeRoot(Prime(29)), K64(29) as nat, TWO64)
    ensures CubeFraction(Prime(30), CubeRoot(Prime(30)), K64(30) as nat, TWO64)
    ensures CubeFraction(Prime(31), CubeRoot(Prime(31)), K64(31) as nat, TWO64)
  {
  }

  lemma K64Row4()
    ensures CubeFraction(Prime(32), CubeRoot(Prime(32)), K64(32) as nat, TWO64)
    ensures CubeFraction(Prime(33), CubeRoot(Prime(33)), K64(33) as nat, TWO64)
    ensures CubeFraction(Prime(34), CubeRoot(Prime(34)), K64(34) as nat, TWO64)
    ensures CubeFraction(Prime(35), CubeRoot(Prime(35)), K64(35) as nat, TWO64)
    ensures CubeFraction(Prime(36), CubeRoot(Prime(36)), K64(36) as nat, TWO64)
    ensures CubeFraction(Prime(37), CubeRoot(Prime(37)), K64(37) as nat, TWO64)
    ensures CubeFraction(Prime(38), CubeRoot(Prime(38)), K64(38) as nat, TWO64)
    ensures CubeFraction(Prime(39), CubeRoot(Prime(39)), K64(39) as nat, TWO64)
  {
  }

  lemma K64Row5()
    ensures CubeFraction(Prime(40), CubeRoot(Prime(40)), K64(40) as nat, TWO64)
    ensures CubeFraction(Prime(41), CubeRoot(Prime(41)), K64(41) as nat, TWO64)
    ensures CubeFraction(Prime(42), CubeRoot(Prime(42)), K64(42) as nat, TWO64)
    ensures CubeFraction(Prime(43), CubeRoot(Prime(43)), K64(43) as nat, TWO64)
    ensures CubeFraction(Prime(44), CubeRoot(Prime(44)), K64(44) as nat, TWO64)
    ensures CubeFraction(Prime(45), CubeRoot(Prime(45)), K64(45) as nat, TWO64)
    ensures CubeFraction(Prime(46), CubeRoot(Prime(46)), K64(46) as nat, TWO64)
    ensures CubeFraction(Prime(47), CubeRoot(Prime(47)), K64(47) as nat, TWO64)
  {
  }

  lemma K64Row6()
    ensures CubeFraction(Prime(48), CubeRoot(Prime(48)), K64(48) as nat, TWO64)
    ensures CubeFraction(Prime(49), CubeRoot(Prime(49)), K64(49) as nat, TWO64)
    ensures CubeFraction(Prime(50), CubeRoot(Prime(50)), K64(50) as nat, TWO64)
    ensures CubeFraction(Prime(51), CubeRoot(Prime(51)), K64(51) as nat, TWO64)
    ensures CubeFraction(Prime(52), CubeRoot(Prime(52)), K64(52) as nat, TWO64)
    ensures CubeFraction(Prime(53), CubeRoot(Prime(53)), K64(53) as nat, TWO64)
    ensures CubeFraction(Prime(54), CubeRoot(Prime(54)), K64(54) as nat, TWO64)
    ensures CubeFraction(Prime(55), CubeRoot(Prime(55)), K64(55) as nat, TWO64)
  {
  }

  lemma K64Row7()
    ensures CubeFraction(Prime(56), CubeRoot(Prime(56)), K64(56) as nat, TWO64)
    ensures CubeFraction(Prime(57), CubeRoot(Prime(57)), K64(57) as nat, TWO64)
    ensures CubeFraction(Prime(58), CubeRoot(Prime(58)), K64(58) as nat, TWO64)
    ensures CubeFraction(Prime(59), CubeRoot(Prime(59)), K64(59) as nat, TWO64)
    ensures CubeFraction(Prime(60), CubeRoot(Prime(60)), K64(60) as nat, TWO64)
    ensures CubeFraction(Prime(61), CubeRoot(Prime(61)), K64(61) as nat, TWO64)
    ensures CubeFraction(Prime(62), CubeRoot(Prime(62)), K64(62) as nat, TWO64)
    ensures CubeFraction(Prime(63), CubeRoot(Prime(63)), K64(63) as nat, TWO64)
  {
  }

  lemma K64Row8()
    ensures CubeFraction(Prime(64), CubeRoot(Prime(64)), K64(64) as nat, TWO64)
    ensures CubeFraction(Prime(65), CubeRoot(Prime(65)), K64(65) as nat, TWO64)
    ensures CubeFraction(Prime(66), CubeRoot(Prime(66)), K64(66) as nat, TWO64)
    ensures CubeFraction(Prime(67), CubeRoot(Prime(67)), K64(67) as nat, TWO64)
    ensures CubeFraction(Prime(68), CubeRoot(Prime(68)), K64(68) as nat, TWO64)
    ensures CubeFraction(Prime(69), CubeRoot(Prime(69)), K64(69) as nat, TWO64)
    ensures CubeFraction(Prime(70), CubeRoot(Prime(70)), K64(70) as nat, TWO64)
    ensures CubeFraction(Prime(71), CubeRoot(Prime(71)), K64(71) as nat, TWO64)
  {
  }

  lemma K64Row9()
    ensures CubeFraction(Prime(72), CubeRoot(Prime(72)), K64(72) as nat, TWO64)
    ensures CubeFraction(Prime(73), CubeRoot(Prime(73)), K64(73) as nat, TWO64)
    ensures CubeFraction(Prime(74), CubeRoot(Prime(74)), K64(74) as nat, TWO64)
    ensures CubeFraction(Prime(75), CubeRoot(Prime(75)), K64(75) as nat, TWO64)
    ensures CubeFraction(Prime(76), CubeRoot(Prime(76)), K64(76) as nat, TWO64)
    ensures CubeFraction(Prime(77), CubeRoot(Prime(77)), K64(77) as nat, TWO64)
    ensures CubeFraction(Prime(78), CubeRoot(Prime(78)), K64(78) as nat, TWO64)
    ensures CubeFraction(Prime(79), CubeRoot(Prime(79)), K64(79) as nat, TWO64)
  {
  }

  /** The round constants of words of 64 bits are the first bits of the fractional parts of the cube roots of the
      first primes. */
  lemma K64Are(t: nat)
    requires t < 80
    ensures CubeFraction(Prime(t), CubeRoot(Prime(t)), K64(t) as nat, TWO64)
  {
    hide CubeFraction, Prime, CubeRoot, K64;
    if t < 8 {
      K64Row0();
      assert t == 0 || t == 1 || t == 2 || t == 3 || t == 4 || t == 5 || t == 6 || t == 7;
    } else if t < 16 {
      K64Row1();
      assert t == 8 || t == 9 || t == 10 || t == 11 || t == 12 || t == 13 || t == 14 || t == 15;
    } else if t < 24 {
      K64Row2();
      assert t == 16 || t == 17 || t == 18 || t == 19 || t == 20 || t == 21 || t == 22 || t == 23;
    } else if t < 32 {
      K64Row3();
      assert t == 24 || t == 25 || t == 26 || t == 27 || t == 28 || t == 29 || t == 30 || t == 31;
    } else if t < 40 {
      K64Row4();
      assert t == 32 || t == 33 || t == 34 || t == 35 || t == 36 || t == 37 || t == 38 || t == 39;
    } else if t < 48 {
      K64Row5();
      assert t == 40 || t == 41 || t == 42 || t == 43 || t == 44 || t == 45 || t == 46 || t == 47;
    } else if t < 56 {
      K64Row6();
      assert t == 48 || t == 49 || t == 50 || t == 51 || t == 52 || t == 53 || t == 54 || t == 55;
    } else if t < 64 {
      K64Row7();
      assert t == 56 || t == 57 || t == 58 || t == 59 || t == 60 || t == 61 || t == 62 || t == 63;
    } else if t < 72 {
      K64Row8();
      assert t == 64 || t == 65 || t == 66 || t == 67 || t == 68 || t == 69 || t == 70 || t == 71;
    } else {
      K64Row9();
      assert t == 72 || t == 73 || t == 74 || t == 75 || t == 76 || t == 77 || t == 78 || t == 79;
    }
  }

  /** The initial values of SHA-256 and SHA-512 are those of the square roots of the first eight primes. */
  lemma Iv256Are()
    ensures SquareFraction(2, 1, Iv256().a as nat, TWO32)
    ensures SquareFraction(3, 1, Iv256().b as nat, TWO32)
    ensures SquareFraction(5, 2, Iv256().c as nat, TWO32)
    ensures SquareFraction(7, 2, Iv256().d as nat, TWO32)
    ensures SquareFraction(11, 3, Iv256().e as nat, TWO32)
    ensures SquareFraction(13, 3, Iv256().f as nat, TWO32)
    ensures SquareFraction(17, 4, Iv256().g as nat, TWO32)
    ensures SquareFraction(19, 4, Iv256().h as nat, TWO32)
  {
  }

  lemma Iv512Are()
    ensures SquareFraction(2, 1, Iv512().a as nat, TWO64)
    ensures SquareFraction(3, 1, Iv512().b as nat, TWO64)
    ensures SquareFraction(5, 2, Iv512().c as nat, TWO64)
    ensures SquareFraction(7, 2, Iv512().d as nat, TWO64)
    ensures SquareFraction(11, 3, Iv512().e as nat, TWO64)
    ensures SquareFraction(13, 3, Iv512().f as nat, TWO64)
    ensures SquareFraction(17, 4, Iv512().g as nat, TWO64)
    ensures SquareFraction(19, 4, Iv512().h as nat, TWO64)
  {
  }

  /** Those of SHA-384 are those of the next eight. */
  lemma Iv384Are()
    ensures SquareFraction(23, 4, Iv384().a as nat, TWO64)
    ensures SquareFraction(29, 5, Iv384().b as nat, TWO64)
    ensures SquareFraction(31, 5, Iv384().c as nat, TWO64)
    ensures SquareFraction(37, 6, Iv384().d as nat, TWO64)
    ensures SquareFraction(41, 6, Iv384().e as nat, TWO64)
    ensures SquareFraction(43, 6, Iv384().f as nat, TWO64)
    ensures SquareFraction(47, 6, Iv384().g as nat, TWO64)
    ensures SquareFraction(53, 7, Iv384().h as nat, TWO64)
  {
  }

  /** Those of SHA-224 are the second halves of those of SHA-384. */
  lemma Iv224Are()
    ensures Iv384().a & 0xffff_ffff == Iv224().a as bv64
    ensures Iv384().b & 0xffff_ffff == Iv224().b as bv64
    ensures Iv384().c & 0xffff_ffff == Iv224().c as bv64
    ensures Iv384().d & 0xffff_ffff == Iv224().d as bv64
    ensures Iv384().e & 0xffff_ffff == Iv224().e as bv64
    ensures Iv384().f & 0xffff_ffff == Iv224().f as bv64
    ensures Iv384().g & 0xffff_ffff == Iv224().g as bv64
    ensures Iv384().h & 0xffff_ffff == Iv224().h as bv64
  {
  }

  /** Those of the rounds of SHA-1 are 2^30 times the square roots of 2, 3, 5 and 10, cut off. */
  lemma K1Are(t: nat)
    ensures
      var n := K1(t) as nat;
      var p := if t <= 19 then 2 else if t <= 39 then 3 else if t <= 59 then 5 else 10;
      n * n <= p * 0x1000_0000_0000_0000 < (n + 1) * (n + 1)
  {
  }
}
