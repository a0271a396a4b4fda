/** The counter block of crypto/src/types.cpp. */
module Counter {
  import opened ByteType
  import opened ModArith
  import opened Magnitude

  // ----- A counter from a number -----

  /** The low bytes of the value, as many as there are and at most eight, in place. */
  method FromValue(size: nat, value: nat) returns (c: array<byte>)
    requires value < 0x1_0000_0000_0000_0000
    ensures fresh(c) && c.Length == size
    ensures
      var n := if size < 8 then size else 8;
      Scale(1, n) > 0 && LowValue(c[..], n) == value % Scale(1, n)
    ensures size >= 8 ==> LowValue(c[..], 8) == value
    ensures forall i :: 0 <= i < size - 8 ==> c[i] == 0
  {
    c := new byte[size](_ => 0);
    var b, place := 0, 1;
    while b < 8 && b < size
      invariant 0 <= b <= 8 && b <= size && place == Scale(1, b) > 0
      invariant LowValue(c[..], b) == value % place
      invariant forall i :: 0 <= i < size - b ==> c[i] == 0
    {
      ghost var s := c[..];
      c[size - 1 - b] := value / place % 0x100;
      LowDigits(s, c[..], b);
      NextDigit(value, place);
      ScaleTimes(value / place % 0x100, b);
      b, place := b + 1, 0x100 * place;
    }
    if size >= 8 {
      EightBytes();
      ModUnique(value, 0, value, Scale(1, 8));
    }
  }

  /** Writing byte b adds it at its place. */
  lemma LowDigits(s: seq<byte>, t: seq<byte>, b: nat)
    requires b < |s| == |t| && t == s[|s| - 1 - b := t[|s| - 1 - b]]
    ensures LowValue(t, b + 1) == LowValue(s, b) + Scale(t[|s| - 1 - b], b)
  {
    LowValueEqual(s, t, b);
  }

  lemma NextDigit(value: int, place: int)
    requires place > 0
    ensures value % (0x100 * place) == value % place + (value / place % 0x100) * place
  {
    var q, r := value / place, value % place;
    Regroup(q / 0x100, q % 0x100, r, place);
    ModUnique(value, q / 0x100, r + (q % 0x100) * place, 0x100 * place);
  }

  lemma Regroup(h: int, d: int, r: int, place: int)
    requires 0 <= r < place && 0 <= d < 0x100
    ensures (0x100 * h + d) * place + r == h * (0x100 * place) + (r + d * place)
    ensures 0 <= r + d * place < 0x100 * place
  {
    var f := 0xFF - d;
    assert d * place + f * place == 0xFF * place && d * place >= 0 && f * place >= 0;
  }

  // ----- Counting -----

  /** One more, carrying within the n last bytes. */
  function Successor(c: seq<byte>, n: nat): (d: seq<byte>)
    ensures |d| == |c|
  {
    if n == 0 || |c| == 0 then c
    else
      var last := |c| - 1;
      if c[last] < 255 then c[..last] + [c[last] + 1]
      else Successor(c[..last], n - 1) + [0]
  }

  /** The counter after one step: the carry stops after eight bytes. */
  function Next(c: seq<byte>): (d: seq<byte>)
    ensures |d| == |c|
  {
    Successor(c, 8)
  }

  ghost function Carried(c: seq<byte>, incr: int, n: nat): seq<byte> {
    if incr == 0 then c else Successor(c, n)
  }

  /** The bytes up to p are the old ones, and carrying on from them gives the next counter. */
  ghost predicate Carrying(s: seq<byte>, cur: seq<byte>, p: int, carry: int, n: nat) {
    && -1 <= p < |s| == |cur| && cur[..p + 1] == s[..p + 1]
    && Next(s) == Carried(s[..p + 1], carry, n) + cur[p + 1..]
  }

  method Increment(c: array<byte>)
    modifies c
    ensures c[..] == Next(old(c[..]))
  {
    hide Next, Carrying;
    ghost var s := c[..];
    var incr := 1;
    var b := 0;
    var cptr := c.Length - 1;
    CarryStarts(s);
    while b < 8 && cptr >= 0
      invariant 0 <= b <= 8 && cptr == c.Length - 1 - b >= -1 && (incr == 0 || incr == 1)
      invariant Carrying(s, c[..], cptr, incr, 8 - b)
      decreases 8 - b
    {
      ghost var before := c[..];
      ghost var carry := incr;
      var value := c[cptr] as int + incr;
      c[cptr] := value % 0x100;
      incr := value / 0x100;
      assert c[..] == before[cptr := c[cptr]];
      CarryOn(s, before, c[cptr], cptr, carry, incr, 8 - b);
      b, cptr := b + 1, cptr - 1;
    }
    CarryEnds(s, c[..], cptr, incr, 8 - b);
  }

  lemma CarryStarts(s: seq<byte>)
    ensures Carrying(s, s, |s| - 1, 1, 8)
  {
    hide Successor;
    assert s[..|s|] == s && s[|s|..] == [] && Next(s) + [] == Next(s);
  }

  /** One byte further up, with the carry out of byte p. */
  lemma CarryOn(s: seq<byte>, before: seq<byte>, d: byte, p: nat, carry: int, carry': int, n: nat)
    requires p < |s| && n > 0 && 0 <= carry <= 1 && Carrying(s, before, p, carry, n)
    requires d as int + 256 * carry' == before[p] as int + carry
    ensures Carrying(s, before[p := d], p - 1, carry', n - 1)
  {
    hide Successor, Next, Carried;
    var after := before[p := d];
    assert after[..p] == before[..p + 1][..p] && s[..p + 1][..p] == s[..p];
    assert s[..p + 1][p] == before[..p + 1][p];
    CarryStep(s[..p + 1], carry, carry', n, d, before[p + 1..]);
    assert after[p..] == [d] + before[p + 1..];
  }

  lemma CarryEnds(s: seq<byte>, cur: seq<byte>, p: int, carry: int, n: nat)
    requires Carrying(s, cur, p, carry, n) && (n == 0 || p == -1)
    ensures cur == Next(s)
  {
    assert Carried(s[..p + 1], carry, n) == s[..p + 1];
    hide Successor, Next, Carried;
    assert cur == cur[..p + 1] + cur[p + 1..];
  }

  lemma CarryStep(s: seq<byte>, carry: int, carry': int, n: nat, d: byte, tail: seq<byte>)
    requires |s| > 0 && n > 0 && 0 <= carry <= 1
    requires d as int + 256 * carry' == s[|s| - 1] as int + carry
    ensures Carried(s, carry, n) + tail == Carried(s[..|s| - 1], carry', n - 1) + ([d] + tail)
  {
    var last := |s| - 1;
    assert s == s[..last] + [s[last]];
    assert Carried(s, carry, n) == Carried(s[..last], carry', n - 1) + [d];
  }

  /** The counter after n steps. */
  ghost function Steps(c: seq<byte>, n: nat): (d: seq<byte>)
    ensures |d| == |c|
  {
    if n == 0 then c else Next(Steps(c, n - 1))
  }

  lemma ModStep(x: int, m: int)
    requires m > 0
    ensures (x % m + 1) % m == (x + 1) % m
  {
    assert x + 1 == (x % m + 1) + (x / m) * m;
    ModWitness(x % m + 1, x / m, m);
  }

  /** The carrying bytes count modulo 256^n, the others stay. */
  lemma {:induction false} SuccessorValue(c: seq<byte>, n: nat)
    requires n <= |c|
    ensures Scale(1, n) > 0 && LowValue(Successor(c, n), n) == (LowValue(c, n) + 1) % Scale(1, n)
    ensures Successor(c, n)[..|c| - n] == c[..|c| - n]
  {
    if n != 0 {
      var last := |c| - 1;
      var high := c[..last];
      SuccessorValue(high, n - 1);
      assert c == high + [c[last]] && high[..last - (n - 1)] == c[..|c| - n];
      LowValueAppend(high, c[last], n - 1);
      LowValueRange(c, n);
      if c[last] < 255 {
        LowValueAppend(high, c[last] + 1, n - 1);
        LowValueRange(high + [c[last] + 1], n);
        ModUnique(LowValue(c, n) + 1, 0, LowValue(c, n) + 1, Scale(1, n));
      } else {
        LowValueAppend(Successor(high, n - 1), 0, n - 1);
        ModTimes256(LowValue(high, n - 1) + 1, Scale(1, n - 1));
      }
    }
  }

  lemma ModTimes256(x: int, m: int)
    requires m > 0
    ensures 256 * (x % m) == (256 * x) % (256 * m)
  {
    var q := x / m;
    assert 256 * x == q * (256 * m) + 256 * (x % m);
    ModUnique(256 * x, q, 256 * (x % m), 256 * m);
  }

  /** After n steps the counter part has moved by n, around its range. */
  lemma {:induction false} StepsValue(c: seq<byte>, n: nat)
    requires |c| >= 8
    ensures Scale(1, 8) > 0 && LowValue(Steps(c, n), 8) == (LowValue(c, 8) + n) % Scale(1, 8)
    ensures Steps(c, n)[..|c| - 8] == c[..|c| - 8]
  {
    ScaleTimes(1, 8);
    if n == 0 {
      LowValueRange(c, 8);
      ModUnique(LowValue(c, 8), 0, LowValue(c, 8), Scale(1, 8));
    } else {
      StepsValue(c, n - 1);
      hide Successor, LowValue, Scale;
      SuccessorValue(Steps(c, n - 1), 8);
      ModStep(LowValue(c, 8) + n - 1, Scale(1, 8));
    }
  }

  lemma {:induction false} SameLowBytes(c: seq<byte>, d: seq<byte>, n: nat)
    requires n <= |c| == |d| && c[..|c| - n] == d[..|c| - n] && LowValue(c, n) == LowValue(d, n)
    ensures c == d
  {
    if n == 0 {
      assert c[..|c| - 0] == c && d[..|d| - 0] == d;
    } else {
      var last := |c| - 1;
      assert c == c[..last] + [c[last]] && d == d[..last] + [d[last]];
      LowValueAppend(c[..last], c[last], n - 1);
      LowValueAppend(d[..last], d[last], n - 1);
      assert c[..last][..last - (n - 1)] == c[..|c| - n] && d[..last][..last - (n - 1)] == d[..|c| - n];
      SameLowBytes(c[..last], d[..last], n - 1);
    }
  }

  /** A counter of eight bytes or more repeats exactly every 2^64 steps. */
  lemma CountersRepeat(c: seq<byte>, i: nat, j: nat)
    requires |c| >= 8
    ensures Steps(c, i) == Steps(c, j) <==> (j - i) % 0x1_0000_0000_0000_0000 == 0
  {
    StepsValue(c, i);
    StepsValue(c, j);
    EightBytes();
    hide Steps, LowValue, Scale;
    SameResidue(LowValue(c, 8) + i, LowValue(c, 8) + j, Scale(1, 8));
    if (j - i) % 0x1_0000_0000_0000_0000 == 0 {
      SameLowBytes(Steps(c, i), Steps(c, j), 8);
    }
  }

  lemma FourBytes()
    ensures Scale(1, 4) == 0x1_0000_0000
  {
    assert Scale(1, 2) == 256 * Scale(1, 1);
    hide Scale;
    ScaleTwice(1, 2, 2);
    ScaleTimes(Scale(1, 2), 2);
  }

  lemma EightBytes()
    ensures Scale(1, 8) == 0x1_0000_0000_0000_0000
  {
    hide Scale;
    FourBytes();
    ScaleTwice(1, 4, 4);
    ScaleTimes(Scale(1, 4), 4);
  }

  lemma SameResidue(x: int, y: int, m: int)
    requires m > 0
    ensures x % m == y % m <==> (y - x) % m == 0
  {
    if x % m == y % m {
      assert y - x == 0 + (y / m - x / m) * m;
      ModWitness(0, y / m - x / m, m);
    }
    if (y - x) % m == 0 {
      var k := (y - x) / m;
      assert y == x + k * m;
      ModWitness(x, k, m);
    }
  }
}
