/** Multiplication in the field of 256 elements in crypto/src/aes.cpp: by tables and by shifting and
    adding; section 4.2 of FIPS 197. Both agree since every element but zero is a power of three, and
    multiplying by three is one step in the power table and one more in the logarithm. */
module AesField {
  import opened AesTables

  /** Addition in the field. */
  function Add(x: bv8, y: bv8): bv8 { x ^ y }

  /** With logarithms: the implementation that is compiled in. */
  function Multiply(x: bv8, y: bv8): bv8 {
    if x != 0 && y != 0 then Alog(LogSum(Log(x), Log(y))) else 0
  }

  function LogSum(i: bv8, j: bv8): bv8 {
    ((i as bv16 + j as bv16) % 255) as bv8
  }

  predicate Odd(y: bv8) { y & 1 == 1 }

  function Half(y: bv8): bv8 { y >> 1 }

  /** The product so far after one step. */
  function Selected(y: bv8, m: bv8, x: bv8): bv8 {
    if Odd(y) then Add(m, x) else m
  }

  /** n steps of shifting and adding. */
  function ShiftAdd(x: bv8, y: bv8, m: bv8, n: nat): bv8
    decreases n
  {
    if n == 0 then m else ShiftAdd(Twice(x), Half(y), Selected(y, m, x), n - 1)
  }

  /** The bits of a factor. Lemmas about all of them take the number as a parameter, since the verifier
      unfolds a recursion over a literal. */
  const BITS: nat := 8

  /** The other implementation: the sum of the doublings of x selected by the bits of y. */
  method GfMul(x0: bv8, y0: bv8) returns (m: bv8)
    ensures m == ShiftAdd(x0, y0, 0, BITS)
  {
    hide ShiftAdd;
    var x, y := x0, y0;
    m := 0;
    for cnt := 0 to BITS
      invariant ShiftAdd(x, y, m, BITS - cnt) == ShiftAdd(x0, y0, 0, BITS)
    {
      hide Twice, Half, Selected;
      ghost var x1, y1, m1 := x, y, m;
      if y & 1 == 1 {
        m := m ^ x;
      }
      var hiBit := x & 0x80;
      x := x << 1;
      if hiBit == 0x80 {
        x := x ^ 0x1b;
      }
      y := y >> 1;
      Step(x1, y1, m1, x, m, y);
      BitStep(x1, y1, m1, BITS - cnt, y, m);
    }
    NoSteps(x, y, m, 0);
  }

  lemma Step(x: bv8, y: bv8, m: bv8, x': bv8, m': bv8, y': bv8)
    requires m' == (if y & 1 == 1 then m ^ x else m) && y' == y >> 1
    requires x' == if x & 0x80 == 0x80 then (x << 1) ^ 0x1b else x << 1
    ensures x' == Twice(x) && y' == Half(y) && m' == Selected(y, m, x)
  {
  }

  // ----- The field's addition -----

  lemma AddLaws(x: bv8, y: bv8, z: bv8)
    ensures Add(x, y) == Add(y, x) && Add(Add(x, y), z) == Add(x, Add(y, z))
    ensures Add(x, 0) == x && Add(0, x) == x && Add(x, x) == 0
  {
  }

  lemma Rearrange(m: bv8, m': bv8, x: bv8, x': bv8)
    ensures Add(Add(m, m'), Add(x, x')) == Add(Add(m, x), Add(m', x'))
  {
    AddLaws(m, m', Add(x, x'));
    AddLaws(m', x, x');
    AddLaws(x, m', x');
    AddLaws(m, x, Add(m', x'));
    hide Add;
  }

  // ----- Doubling is linear -----

  lemma ShiftSum(x: bv8, y: bv8)
    ensures (x ^ y) << 1 == (x << 1) ^ (y << 1)
  {
  }

  lemma TopSum(x: bv8, y: bv8)
    ensures ((x ^ y) & 0x80 == 0x80) <==> ((x & 0x80 == 0x80) != (y & 0x80 == 0x80))
  {
  }

  /** The reduction a doubling adds. */
  function Carry(x: bv8): bv8 {
    if x & 0x80 == 0x80 then 0x1b else 0
  }

  lemma TwiceIs(x: bv8)
    ensures Twice(x) == Add(x << 1, Carry(x))
  {
    AddLaws(x << 1, 0, 0);
  }

  lemma CarrySum(x: bv8, y: bv8)
    ensures Carry(x ^ y) == Add(Carry(x), Carry(y))
  {
    TopSum(x, y);
  }

  lemma TwiceSum(x: bv8, y: bv8)
    ensures Twice(Add(x, y)) == Add(Twice(x), Twice(y))
  {
    TwiceIs(x);
    TwiceIs(y);
    TwiceIs(x ^ y);
    ShiftSum(x, y);
    CarrySum(x, y);
    hide Twice, Carry;
    Rearrange(x << 1, y << 1, Carry(x), Carry(y));
  }

  // ----- Shifting and adding is linear in its first factor -----

  lemma SelectedSum(y: bv8, m: bv8, x: bv8, m': bv8, x': bv8)
    ensures Selected(y, Add(m, m'), Add(x, x')) == Add(Selected(y, m, x), Selected(y, m', x'))
  {
    hide Add, Odd;
    Rearrange(m, m', x, x');
  }

  lemma {:induction false} ShiftAddSum(x: bv8, x': bv8, y: bv8, m: bv8, m': bv8, n: nat)
    ensures ShiftAdd(Add(x, x'), y, Add(m, m'), n) == Add(ShiftAdd(x, y, m, n), ShiftAdd(x', y, m', n))
    decreases n
  {
    hide Add, Twice, Half, Selected;
    if n != 0 {
      TwiceSum(x, x');
      SelectedSum(y, m, x, m', x');
      ShiftAddSum(Twice(x), Twice(x'), Half(y), Selected(y, m, x), Selected(y, m', x'), n - 1);
    }
  }

  lemma SelectedTwice(y: bv8, m: bv8, x: bv8)
    ensures Selected(y, Twice(m), Twice(x)) == Twice(Selected(y, m, x))
  {
    hide Add, Twice, Odd;
    TwiceSum(m, x);
  }

  lemma {:induction false} ShiftAddTwice(x: bv8, y: bv8, m: bv8, n: nat)
    ensures ShiftAdd(Twice(x), y, Twice(m), n) == Twice(ShiftAdd(x, y, m, n))
    decreases n
  {
    hide Twice, Half, Selected;
    if n != 0 {
      SelectedTwice(y, m, x);
      ShiftAddTwice(Twice(x), Half(y), Selected(y, m, x), n - 1);
    }
  }

  lemma TwiceZero()
    ensures Twice(0) == 0
  {
  }

  /** Three times an element. */
  function Thrice(x: bv8): bv8 { Add(x, Twice(x)) }

  /** Three times a factor gives three times the product. */
  lemma ShiftAddThrice(x: bv8, y: bv8, n: nat)
    ensures ShiftAdd(Thrice(x), y, 0, n) == Thrice(ShiftAdd(x, y, 0, n))
  {
    hide ShiftAdd, Twice, Add;
    TwiceZero();
    AddLaws(0, 0, 0);
    ShiftAddTwice(x, y, 0, n);
    ShiftAddSum(x, Twice(x), y, 0, 0, n);
  }

  // ----- One is neutral -----

  lemma BitStep(x: bv8, y: bv8, m: bv8, n: nat, y': bv8, m': bv8)
    requires n > 0 && y' == Half(y) && m' == Selected(y, m, x)
    ensures ShiftAdd(x, y, m, n) == ShiftAdd(Twice(x), y', m', n - 1)
  {
    hide Twice, Half, Selected;
  }

  lemma Doublings()
    ensures Twice(1) == 2 && Twice(2) == 4 && Twice(4) == 8 && Twice(8) == 16
    ensures Twice(16) == 32 && Twice(32) == 64 && Twice(64) == 128
  {
  }

  lemma ShiftAddOne(y: bv8, n: nat)
    requires n == BITS
    ensures ShiftAdd(1, y, 0, n) == y
  {
    Doublings();
    Halves(y);
    LowBits(y);
    hide Twice, Half, Selected, ShiftAdd;
    BitStep(1, y, 0, n, y >> 1, y & 1);
    BitStep(2, y >> 1, y & 1, n - 1, y >> 2, y & 3);
    BitStep(4, y >> 2, y & 3, n - 2, y >> 3, y & 7);
    BitStep(8, y >> 3, y & 7, n - 3, y >> 4, y & 15);
    BitStep(16, y >> 4, y & 15, n - 4, y >> 5, y & 31);
    BitStep(32, y >> 5, y & 31, n - 5, y >> 6, y & 63);
    BitStep(64, y >> 6, y & 63, n - 6, y >> 7, y & 127);
    BitStep(128, y >> 7, y & 127, n - 7, 0, y);
    NoSteps(Twice(128), 0, y, n - 8);
  }

  lemma NoSteps(x: bv8, y: bv8, m: bv8, n: nat)
    requires n == 0
    ensures ShiftAdd(x, y, m, n) == m
  {
  }

  lemma Halves(y: bv8)
    ensures Half(y) == y >> 1 && Half(y >> 1) == y >> 2 && Half(y >> 2) == y >> 3 && Half(y >> 3) == y >> 4
    ensures Half(y >> 4) == y >> 5 && Half(y >> 5) == y >> 6 && Half(y >> 6) == y >> 7 && Half(y >> 7) == 0
  {
  }

  lemma LowBits(y: bv8)
    ensures Selected(y, 0, 1) == y & 1 && Selected(y >> 1, y & 1, 2) == y & 3
    ensures Selected(y >> 2, y & 3, 4) == y & 7 && Selected(y >> 3, y & 7, 8) == y & 15
    ensures Selected(y >> 4, y & 15, 16) == y & 31 && Selected(y >> 5, y & 31, 32) == y & 63
    ensures Selected(y >> 6, y & 63, 64) == y & 127 && Selected(y >> 7, y & 127, 128) == y
  {
  }

  // ----- Powers of three -----

  /** y times the i-th power of 3. */
  function Powers(i: bv8, y: bv8): bv8 {
    if i == 0 then y else Thrice(Powers(i - 1, y))
  }

  lemma AlogThrice(i: bv8)
    requires i != 0xff
    ensures Alog(i + 1) == Thrice(Alog(i))
  {
    AlogStep(i);
    hide Alog, Twice;
  }

  /** Multiplying a power of 3 is tripling that often. */
  lemma {:induction false} ShiftAddPower(i: bv8, y: bv8, n: nat)
    requires i != 0xff && n == BITS
    ensures ShiftAdd(Alog(i), y, 0, n) == Powers(i, y)
  {
    hide Alog, ShiftAdd, Thrice;
    if i == 0 {
      AlogEnds();
      ShiftAddOne(y, n);
    } else {
      ShiftAddPower(i - 1, y, n);
      AlogThrice(i - 1);
      ShiftAddThrice(Alog(i - 1), y, n);
    }
  }

  lemma AlogEnds()
    ensures Alog(0) == 1 && Alog(255) == 1
  {
  }

  /** Counting in the exponent, around 255. */
  lemma LogSumStep(i: bv8, j: bv8)
    requires i != 0 && i != 0xff && j != 0xff
    ensures LogSum(i - 1, j) != 0xff
    ensures LogSum(i, j) == if LogSum(i - 1, j) == 254 then 0 else LogSum(i - 1, j) + 1
  {
  }

  lemma LogSumZero(j: bv8)
    requires j != 0xff
    ensures LogSum(0, j) == j
  {
  }

  lemma {:induction false} PowersOfPower(i: bv8, j: bv8)
    requires i != 0xff && j != 0xff
    ensures Powers(i, Alog(j)) == Alog(LogSum(i, j))
  {
    hide Alog, Thrice, LogSum;
    if i == 0 {
      LogSumZero(j);
    } else {
      PowersOfPower(i - 1, j);
      LogSumStep(i, j);
      AlogThrice(LogSum(i - 1, j));
      AlogEnds();
    }
  }

  lemma {:induction false} ShiftAddZero(x: bv8, y: bv8, n: nat)
    requires x == 0 || y == 0
    ensures ShiftAdd(x, y, 0, n) == 0
    decreases n
  {
    hide Twice, Add, Half;
    if n != 0 {
      TwiceZero();
      AddLaws(0, 0, 0);
      ZeroBits();
      ShiftAddZero(Twice(x), Half(y), n - 1);
    }
  }

  lemma ZeroBits()
    ensures !Odd(0) && Half(0) == 0
  {
  }

  /** Both implementations compute the same product. */
  lemma TablesAgree(x: bv8, y: bv8)
    ensures Multiply(x, y) == ShiftAdd(x, y, 0, BITS)
  {
    hide Multiply, ShiftAdd;
    TablesAgreeIn(x, y, BITS);
  }

  lemma TablesAgreeIn(x: bv8, y: bv8, n: nat)
    requires n == BITS
    ensures Multiply(x, y) == ShiftAdd(x, y, 0, n)
  {
    hide Alog, Log, LogSum, ShiftAdd;
    if x != 0 && y != 0 {
      AlogLog(x);
      AlogLog(y);
      ShiftAddPower(Log(x), y, n);
      PowersOfPower(Log(x), Log(y));
    } else {
      ShiftAddZero(x, y, n);
    }
  }
}
