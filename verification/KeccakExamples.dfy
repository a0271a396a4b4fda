/** From the second round of the permutation of the zero state: the directions in which theta, chi and the
    rotations of crypto/src/keccak.cpp go. */
module KeccakExamples {
  import opened KeccakPermutation

  /** The state after the first round has a single one. */
  ghost predicate Single(s: Lanes) {
    s[0] == 1 && forall i :: 0 < i < 25 ==> s[i] == 0
  }

  lemma RotlExample()
    ensures Rotl(1, 1) == 2 && Rotl(0, 1) == 0 && Rotl(0x8000_0000_0000_0000, 1) == 1 && Rotl(2, 27) == 0x1000_0000
  {
  }

  lemma ParityExample(s: Lanes, x: nat)
    requires Single(s) && x < 5
    ensures Parity(s, x) == if x == 0 then 1 else 0
  {
  }

  /** The columns beside that of the one get it, on one side turned. */
  lemma MixingExample(s: Lanes, x: nat)
    requires Single(s) && x < 5
    ensures Mixing(s, x) == if x == 1 then 1 else if x == 4 then 2 else 0
  {
    hide Parity, Single, Rotl;
    RotlExample();
    ParityExample(s, (x + 4) % 5);
    ParityExample(s, (x + 1) % 5);
  }

  /** The first row, and the fourth. */
  lemma ChiExample()
    ensures ChiLane(1, 0x1000_0000_0000, 0) == 1 && ChiLane(0x1000_0000_0000, 0, 0) == 0x1000_0000_0000
    ensures ChiLane(0, 0, 0x8000) == 0x8000 && ChiLane(0, 0x8000, 1) == 1
    ensures ChiLane(0x8000, 1, 0x1000_0000_0000) == 0x1000_0000_8000
    ensures ChiLane(0x1000_0000, 0, 0x400) == 0x1000_0400
  {
  }

  /** Each lane with the two after it, around. */
  lemma ChiRowIs(c: seq<bv64>)
    requires |c| == 5
    ensures
      var r := ChiRow(c);
      && r[0] == ChiLane(c[0], c[1], c[2]) && r[1] == ChiLane(c[1], c[2], c[3]) && r[2] == ChiLane(c[2], c[3], c[4])
      && r[3] == ChiLane(c[3], c[4], c[0]) && r[4] == ChiLane(c[4], c[0], c[1])
  {
    hide ChiLane;
  }
}
