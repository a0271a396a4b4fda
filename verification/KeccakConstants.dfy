/** The round constants of crypto/src/keccak.cpp from the shift register of section 3.2.5 of FIPS 202. Each
    step of the register gives one bit, and the first seven bits of a round, which go to the places 2^j - 1 of
    a word, make its constant. Rounds are seven steps apart, so the values of the register at the start of
    every round are found one from the other. */
module KeccakConstants {
  import opened KeccakPermutation

  /** One step of the register; bit i is R[i]. The bit pushed out is added at places 0, 4, 5 and 6. */
  function Shifted(x: bv8): bv8 {
    (x << 1) ^ (if x & 0x80 == 0x80 then 0x71 else 0)
  }

  /** The register after t steps. */
  function Register(t: nat): bv8 {
    if t == 0 then 1 else Shifted(Register(t - 1))
  }

  /** Bit 2^j - 1 of the constant of round r is the lowest bit of the register after j + 7r steps. */
  function Constant(r: nat): bv64 {
    Place(Register(7 * r), 0x1) | Place(Register(7 * r + 1), 0x2) | Place(Register(7 * r + 2), 0x8)
    | Place(Register(7 * r + 3), 0x80) | Place(Register(7 * r + 4), 0x8000) | Place(Register(7 * r + 5), 0x8000_0000)
    | Place(Register(7 * r + 6), 0x8000_0000_0000_0000)
  }

  function Place(x: bv8, place: bv64): bv64 { if x & 1 == 1 then place else 0 }

  /** What seven steps from x give, and what they leave. */
  function ConstantFrom(x: bv8): bv64 {
    var x1 := Shifted(x); var x2 := Shifted(x1); var x3 := Shifted(x2);
    var x4 := Shifted(x3); var x5 := Shifted(x4); var x6 := Shifted(x5);
    Place(x, 0x1) | Place(x1, 0x2) | Place(x2, 0x8) | Place(x3, 0x80) | Place(x4, 0x8000) | Place(x5, 0x8000_0000)
    | Place(x6, 0x8000_0000_0000_0000)
  }

  function SevenOn(x: bv8): bv8 {
    Shifted(Shifted(Shifted(Shifted(Shifted(Shifted(Shifted(x)))))))
  }

  lemma OneStep(t: nat)
    ensures Register(t + 1) == Shifted(Register(t))
  {
    hide Shifted;
  }

  lemma SevenSteps(t: nat)
    ensures Register(t + 7) == SevenOn(Register(t))
    ensures Register(t + 1) == Shifted(Register(t)) && Register(t + 2) == Shifted(Register(t + 1))
    ensures Register(t + 3) == Shifted(Register(t + 2)) && Register(t + 4) == Shifted(Register(t + 3))
    ensures Register(t + 5) == Shifted(Register(t + 4)) && Register(t + 6) == Shifted(Register(t + 5))
  {
    hide Shifted, Register;
    OneStep(t);
    OneStep(t + 1);
    OneStep(t + 2);
    OneStep(t + 3);
    OneStep(t + 4);
    OneStep(t + 5);
    OneStep(t + 6);
  }

  /** Seven steps on, from round to round. */
  lemma RoundOn(r: nat, x: bv8)
    requires Register(7 * r) == x
    ensures Constant(r) == ConstantFrom(x) && Register(7 * (r + 1)) == SevenOn(x)
  {
    hide Register, Shifted, Place;
    var t := 7 * r;
    SevenSteps(t);
    assert 7 * (r + 1) == t + 7;
  }

  lemma FirstValues()
    ensures ConstantFrom(0x01) == 0x0000000000000001 && SevenOn(0x01) == 0x80
    ensures ConstantFrom(0x80) == 0x0000000000008082 && SevenOn(0x80) == 0xd8
    ensures ConstantFrom(0xd8) == 0x800000000000808a && SevenOn(0xd8) == 0x1a
    ensures ConstantFrom(0x1a) == 0x8000000080008000 && SevenOn(0x1a) == 0xdf
    ensures ConstantFrom(0xdf) == 0x000000000000808b && SevenOn(0xdf) == 0x09
    ensures ConstantFrom(0x09) == 0x0000000080000001 && SevenOn(0x09) == 0x35
    ensures ConstantFrom(0x35) == 0x8000000080008081 && SevenOn(0x35) == 0x4f
    ensures ConstantFrom(0x4f) == 0x8000000000008009 && SevenOn(0x4f) == 0xca
  {
  }

  lemma MiddleValues()
    ensures ConstantFrom(0xca) == 0x000000000000008a && SevenOn(0xca) == 0x70
    ensures ConstantFrom(0x70) == 0x0000000000000088 && SevenOn(0x70) == 0x41
    ensures ConstantFrom(0x41) == 0x0000000080008009 && SevenOn(0x41) == 0xec
    ensures ConstantFrom(0xec) == 0x000000008000000a && SevenOn(0xec) == 0xd5
    ensures ConstantFrom(0xd5) == 0x000000008000808b && SevenOn(0xd5) == 0xcd
    ensures ConstantFrom(0xcd) == 0x800000000000008b && SevenOn(0xcd) == 0x63
    ensures ConstantFrom(0x63) == 0x8000000000008089 && SevenOn(0x63) == 0xab
    ensures ConstantFrom(0xab) == 0x8000000000008003 && SevenOn(0xab) == 0xaa
  {
  }

  lemma LastValues()
    ensures ConstantFrom(0xaa) == 0x8000000000008002 && SevenOn(0xaa) == 0x2a
    ensures ConstantFrom(0x2a) == 0x8000000000000080 && SevenOn(0x2a) == 0xf2
    ensures ConstantFrom(0xf2) == 0x000000000000800a && SevenOn(0xf2) == 0xe8
    ensures ConstantFrom(0xe8) == 0x800000008000000a && SevenOn(0xe8) == 0x37
    ensures ConstantFrom(0x37) == 0x8000000080008081 && SevenOn(0x37) == 0x3e
    ensures ConstantFrom(0x3e) == 0x8000000000008080 && SevenOn(0x3e) == 0x0b
    ensures ConstantFrom(0x0b) == 0x0000000080000001 && SevenOn(0x0b) == 0x44
    ensures ConstantFrom(0x44) == 0x8000000080008008
  {
  }

  lemma FirstRounds()
    ensures Constant(0) == 0x0000000000000001
    ensures Constant(1) == 0x0000000000008082
    ensures Constant(2) == 0x800000000000808a
    ensures Constant(3) == 0x8000000080008000
    ensures Constant(4) == 0x000000000000808b
    ensures Constant(5) == 0x0000000080000001
    ensures Constant(6) == 0x8000000080008081
    ensures Constant(7) == 0x8000000000008009
    ensures Register(7 * 8) == 0xca
  {
    hide Register, Constant, ConstantFrom, SevenOn;
    RegisterStart();
    FirstValues();
    RoundOn(0, 0x01);
    RoundOn(1, 0x80);
    RoundOn(2, 0xd8);
    RoundOn(3, 0x1a);
    RoundOn(4, 0xdf);
    RoundOn(5, 0x09);
    RoundOn(6, 0x35);
    RoundOn(7, 0x4f);
  }

  lemma MiddleRounds()
    ensures Constant(8) == 0x000000000000008a
    ensures Constant(9) == 0x0000000000000088
    ensures Constant(10) == 0x0000000080008009
    ensures Constant(11) == 0x000000008000000a
    ensures Constant(12) == 0x000000008000808b
    ensures Constant(13) == 0x800000000000008b
    ensures Constant(14) == 0x8000000000008089
    ensures Constant(15) == 0x8000000000008003
    ensures Register(7 * 16) == 0xaa
  {
    hide Register, Constant, ConstantFrom, SevenOn;
    FirstRounds();
    MiddleValues();
    RoundOn(8, 0xca);
    RoundOn(9, 0x70);
    RoundOn(10, 0x41);
    RoundOn(11, 0xec);
    RoundOn(12, 0xd5);
    RoundOn(13, 0xcd);
    RoundOn(14, 0x63);
    RoundOn(15, 0xab);
  }

  lemma LastRounds()
    ensures Constant(16) == 0x8000000000008002
    ensures Constant(17) == 0x8000000000000080
    ensures Constant(18) == 0x000000000000800a
    ensures Constant(19) == 0x800000008000000a
    ensures Constant(20) == 0x8000000080008081
    ensures Constant(21) == 0x8000000000008080
    ensures Constant(22) == 0x0000000080000001
    ensures Constant(23) == 0x8000000080008008
  {
    hide Register, Constant, ConstantFrom, SevenOn;
    MiddleRounds();
    LastValues();
    RoundOn(16, 0xaa);
    RoundOn(17, 0x2a);
    RoundOn(18, 0xf2);
    RoundOn(19, 0xe8);
    RoundOn(20, 0x37);
    RoundOn(21, 0x3e);
    RoundOn(22, 0x0b);
    RoundOn(23, 0x44);
  }

  lemma RegisterStart()
    ensures Register(7 * 0) == 0x01
  {
  }

  lemma FirstTable()
    ensures RoundConstant(0) == 0x0000000000000001
    ensures RoundConstant(1) == 0x0000000000008082
    ensures RoundConstant(2) == 0x800000000000808a
    ensures RoundConstant(3) == 0x8000000080008000
    ensures RoundConstant(4) == 0x000000000000808b
    ensures RoundConstant(5) == 0x0000000080000001
    ensures RoundConstant(6) == 0x8000000080008081
    ensures RoundConstant(7) == 0x8000000000008009
  {
    hide RoundConstant;
    TableFrom0();
    TableFrom4();
  }

  lemma TableFrom0()
    ensures RoundConstant(0) == 0x0000000000000001
    ensures RoundConstant(1) == 0x0000000000008082
    ensures RoundConstant(2) == 0x800000000000808a
    ensures RoundConstant(3) == 0x8000000080008000
  {
  }

  lemma TableFrom4()
    ensures RoundConstant(4) == 0x000000000000808b
    ensures RoundConstant(5) == 0x0000000080000001
    ensures RoundConstant(6) == 0x8000000080008081
    ensures RoundConstant(7) == 0x8000000000008009
  {
  }

  lemma MiddleTable()
    ensures RoundConstant(8) == 0x000000000000008a
    ensures RoundConstant(9) == 0x0000000000000088
    ensures RoundConstant(10) == 0x0000000080008009
    ensures RoundConstant(11) == 0x000000008000000a
    ensures RoundConstant(12) == 0x000000008000808b
    ensures RoundConstant(13) == 0x800000000000008b
    ensures RoundConstant(14) == 0x8000000000008089
    ensures RoundConstant(15) == 0x8000000000008003
  {
  }

  lemma LastTable()
    ensures RoundConstant(16) == 0x8000000000008002
    ensures RoundConstant(17) == 0x8000000000000080
    ensures RoundConstant(18) == 0x000000000000800a
    ensures RoundConstant(19) == 0x800000008000000a
    ensures RoundConstant(20) == 0x8000000080008081
    ensures RoundConstant(21) == 0x8000000000008080
    ensures RoundConstant(22) == 0x0000000080000001
    ensures RoundConstant(23) == 0x8000000080008008
  {
  }

  /** The constants of the code are those of the register. */
  lemma RoundConstantIs(r: nat)
    requires r < 24
    ensures RoundConstant(r) == Constant(r)
  {
    hide Constant, RoundConstant, Register;
    if r < 8 {
      FirstRounds();
      FirstTable();
      assert r == 0 || r == 1 || r == 2 || r == 3 || r == 4 || r == 5 || r == 6 || r == 7;
    } else if r < 16 {
      MiddleRounds();
      MiddleTable();
      assert r == 8 || r == 9 || r == 10 || r == 11 || r == 12 || r == 13 || r == 14 || r == 15;
    } else {
      LastRounds();
      LastTable();
      assert r == 16 || r == 17 || r == 18 || r == 19 || r == 20 || r == 21 || r == 22 || r == 23;
    }
  }
}
