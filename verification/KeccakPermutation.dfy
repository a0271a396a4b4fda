/** The permutation of crypto/src/keccak.cpp, in place; section 3 of FIPS 202. */
module KeccakPermutation {

  /** The lane in row y and column x is at 5y + x. */
  type Lanes = s: seq<bv64> | |s| == 25 witness seq(25, _ => 0)

  function Xor(x: bv64, y: bv64): bv64 { x ^ y }

  function Rotl(x: bv64, n: nat): bv64
    requires n < 64
  {
    x.RotateLeft(n)
  }

  // ----- The steps, each lane from the lanes before it -----

  function Parity(s: Lanes, x: nat): bv64
    requires x < 5
  {
    Xor(Xor(Xor(Xor(s[x], s[5 + x]), s[10 + x]), s[15 + x]), s[20 + x])
  }

  function Mixing(s: Lanes, x: nat): bv64
    requires x < 5
  {
    Xor(Parity(s, (x + 4) % 5), Rotl(Parity(s, (x + 1) % 5), 1))
  }

  function Theta(s: Lanes): Lanes {
    seq(25, i requires 0 <= i < 25 => Xor(s[i], Mixing(s, i % 5)))
  }

  /** The offsets of table 2 of FIPS 202, modulo 64. */
  function Offset(i: nat): (n: nat)
    requires i < 25
    ensures n < 64
  {
    [0, 1, 62, 28, 27, 36, 44, 6, 55, 20, 3, 10, 43,
     25, 39, 41, 45, 15, 21, 8, 18, 2, 61, 56, 14][i]
  }

  function Rho(s: Lanes): Lanes {
    seq(25, i requires 0 <= i < 25 => Rotl(s[i], Offset(i)))
  }

  /** Lane (x, y) comes from lane (x + 3y, x). */
  function Source(i: nat): (j: nat)
    requires i < 25
    ensures j < 25
  {
    5 * (i % 5) + (i % 5 + 3 * (i / 5)) % 5
  }

  function Pi(s: Lanes): Lanes {
    seq(25, i requires 0 <= i < 25 => s[Source(i)])
  }

  function ChiLane(c0: bv64, c1: bv64, c2: bv64): bv64 { c0 ^ (!c1 & c2) }

  function ChiAt(c: seq<bv64>, x: nat): bv64
    requires |c| == 5 && x < 5
  {
    ChiLane(c[x], c[(x + 1) % 5], c[(x + 2) % 5])
  }

  /** A row, each lane with the two after it, around. */
  function ChiRow(c: seq<bv64>): (r: seq<bv64>)
    requires |c| == 5
    ensures |r| == 5
  {
    seq(5, x requires 0 <= x < 5 => ChiAt(c, x))
  }

  /** The first y rows. */
  function ChiRows(s: Lanes, y: nat): (r: seq<bv64>)
    requires y <= 5
    ensures |r| == 5 * y
  {
    if y == 0 then [] else ChiRows(s, y - 1) + ChiRow(s[5 * y - 5..5 * y])
  }

  function Chi(s: Lanes): Lanes {
    ChiRows(s, |s| / 5)
  }

  function RoundConstant(r: nat): bv64
    requires r < 24
  {
    [0x0000000000000001, 0x0000000000008082, 0x800000000000808a, 0x8000000080008000,
     0x000000000000808b, 0x0000000080000001, 0x8000000080008081, 0x8000000000008009,
     0x000000000000008a, 0x0000000000000088, 0x0000000080008009, 0x000000008000000a,
     0x000000008000808b, 0x800000000000008b, 0x8000000000008089, 0x8000000000008003,
     0x8000000000008002, 0x8000000000000080, 0x000000000000800a, 0x800000008000000a,
     0x8000000080008081, 0x8000000000008080, 0x0000000080000001, 0x8000000080008008][r]
  }

  function Iota(s: Lanes, r: nat): Lanes
    requires r < 24
  {
    s[0 := Xor(s[0], RoundConstant(r))]
  }

  // ----- The walk over the lanes -----

  /** The lane after lane i: (x, y) goes to (y, 2x + 3y). */
  function Next(i: nat): (j: nat)
    requires i < 25
    ensures j < 25
  {
    5 * ((2 * (i % 5) + 3 * (i / 5)) % 5) + i / 5
  }

  /** Where the walk from lane 1 is after t steps. */
  function Walk(t: nat): nat
    requires t <= 24
  {
    [1, 10, 7, 11, 17, 18, 3, 5, 16, 8, 21, 24, 4,
     15, 23, 19, 13, 12, 2, 20, 14, 22, 9, 6, 1][t]
  }

  /** When the walk comes to a lane, for the first time after its start. */
  function Arrival(i: nat): nat
    requires i < 25
  {
    [0, 24, 18, 6, 12, 7, 23, 2, 9, 22, 1, 3, 17,
     16, 20, 13, 8, 4, 5, 15, 19, 10, 21, 14, 11][i]
  }

  lemma WalkRange(t: nat)
    requires t <= 24
    ensures 1 <= Walk(t) < 25
  {
  }

  lemma WalkStep(t: nat)
    requires t < 24
    ensures Walk(t) < 25 && Walk(t + 1) == Next(Walk(t))
  {
    hide Walk, Next, Offset;
    if t < 8 {
      WalkStepFrom0(t);
    } else if t < 16 {
      WalkStepFrom8(t);
    } else {
      WalkStepFrom16(t);
    }
  }

  lemma WalkStepFrom0(t: nat)
    requires 0 <= t < 8
    ensures Walk(t) < 25 && Walk(t + 1) == Next(Walk(t))
  {
  }

  lemma WalkStepFrom8(t: nat)
    requires 8 <= t < 16
    ensures Walk(t) < 25 && Walk(t + 1) == Next(Walk(t))
  {
  }

  lemma WalkStepFrom16(t: nat)
    requires 16 <= t < 24
    ensures Walk(t) < 25 && Walk(t + 1) == Next(Walk(t))
  {
  }

  lemma WalkArrival(t: nat)
    requires t < 24
    ensures Walk(t + 1) < 25 && Arrival(Walk(t + 1)) == t + 1
  {
  }

  lemma ArrivalWalk(i: nat)
    requires 1 <= i < 25
    ensures 1 <= Arrival(i) <= 24 && Walk(Arrival(i)) == i
  {
  }

  /** The offsets are the triangular numbers in the order of the walk. */
  lemma OffsetWalk(t: nat)
    requires t < 24
    ensures Walk(t) < 25 && Offset(Walk(t)) == ((t + 1) * (t + 2) / 2) % 64
  {
    hide Walk, Next, Offset;
    if t < 8 {
      OffsetWalkFrom0(t);
    } else if t < 16 {
      OffsetWalkFrom8(t);
    } else {
      OffsetWalkFrom16(t);
    }
  }

  lemma OffsetWalkFrom0(t: nat)
    requires 0 <= t < 8
    ensures Walk(t) < 25 && Offset(Walk(t)) == ((t + 1) * (t + 2) / 2) % 64
  {
  }

  lemma OffsetWalkFrom8(t: nat)
    requires 8 <= t < 16
    ensures Walk(t) < 25 && Offset(Walk(t)) == ((t + 1) * (t + 2) / 2) % 64
  {
  }

  lemma OffsetWalkFrom16(t: nat)
    requires 16 <= t < 24
    ensures Walk(t) < 25 && Offset(Walk(t)) == ((t + 1) * (t + 2) / 2) % 64
  {
  }
}
