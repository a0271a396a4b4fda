/** The sponge of crypto/src/keccak.cpp over any permutation of 200 bytes; sections 4 and 6 of FIPS 202. */
module Keccak {
  import opened ByteType
  import opened ByteXor
  import opened BlockFold
  import ModArith

  /** The state of a sponge. */
  type Wide = s: Bytes | |s| == 200 witness seq(200, _ => 0)

  function Zeros(n: nat): (z: Bytes)
    ensures |z| == n
  {
    seq(n, _ => 0)
  }

  /** A block added to the front of the state. */
  function Added(s: Wide, block: Bytes): Wide
    requires |block| <= 200
  {
    XorBytes(s[..|block|], block) + s[|block|..]
  }

  function Absorb(f: Wide -> Wide, s: Wide, block: Bytes): Wide {
    if |block| <= 200 then f(Added(s, block)) else s
  }

  function Step(f: Wide -> Wide): (Wide, Bytes) -> Wide {
    (s: Wide, block: Bytes) => Absorb(f, s, block)
  }

  /** The suffix, a one bit at the end, and zeros between to make whole blocks. */
  function Padding(n: nat, rate: nat, d: byte): (p: Bytes)
    requires 1 <= rate <= 200
    ensures |p| >= 1 && (n + |p|) % rate == 0
  {
    var q := rate - n % rate;
    PaddedWhole(n, rate);
    if q > 1 then [d] + Zeros(q - 2) + [0x80]
    else if d >= 0x80 then [d] + Zeros(rate - 1) + [0x80]
    else [XorByte(d, 0x80)]
  }

  lemma PaddedWhole(n: nat, rate: nat)
    requires rate >= 1
    ensures (n + (rate - n % rate)) % rate == 0 && (n + (rate - n % rate) + rate) % rate == 0
  {
    var q := n / rate;
    assert n + (rate - n % rate) == 0 + (q + 1) * rate;
    ModArith.ModWitness(0, q + 1, rate);
    assert n + (rate - n % rate) + rate == 0 + (q + 2) * rate;
    ModArith.ModWitness(0, q + 2, rate);
  }

  /** The output: the front of the state, and of the permuted states after it. */
  function Squeezed(f: Wide -> Wide, rate: nat, s: Wide, n: nat): (r: Bytes)
    requires 1 <= rate <= 200
    ensures |r| == n
    decreases n
  {
    if n <= rate then s[..n] else s[..rate] + Squeezed(f, rate, f(s), n - rate)
  }

  function Start(): Wide { Zeros(200) }

  /** Hashing what was given has come to this state, with some bytes waiting. */
  ghost predicate Reached(f: Wide -> Wide, rate: nat, given: Bytes, s: Wide, waiting: Bytes)
    requires rate > 0
  {
    Progress<Wide>(Step(f), rate, Start(), given, s, waiting)
  }

  lemma ReachedBytes(f: Wide -> Wide, rate: nat, given: Bytes, s: Wide, waiting: Bytes, part: Bytes)
    requires rate > 0 && Reached(f, rate, given, s, waiting)
    ensures Reached(f, rate, given + part, s, waiting + part)
  {
    ProgressBytes<Wide>(Step(f), rate, Start(), given, s, waiting, part);
  }

  lemma ReachedBlock(f: Wide -> Wide, rate: nat, given: Bytes, s: Wide, waiting: Bytes)
    requires 0 < rate <= 200 && Reached(f, rate, given, s, waiting) && |waiting| == rate
    ensures Reached(f, rate, given, f(Added(s, waiting)), [])
  {
    hide Progress, Added;
    ProgressBlock<Wide>(Step(f), rate, Start(), given, s, waiting);
  }

  /** The state and the block that padding leads to, from a state and what is waiting. */
  ghost predicate LastBlock(f: Wide -> Wide, rate: nat, d: byte, s: Wide, w: Bytes, s': Wide, block: Bytes)
    requires |w| < rate <= 200
  {
    var q := rate - |w|;
    if q == 1 && d >= 0x80 then s' == f(Added(s, w + [d])) && block == Zeros(rate - 1) + [0x80]
    else s' == s && block == w + if q == 1 then [XorByte(d, 0x80)] else [d] + Zeros(q - 2) + [0x80]
  }

  function AddedAt(m: Bytes, i: nat, v: byte): (r: Bytes)
    requires i < |m|
    ensures |r| == |m|
  {
    m[i := XorByte(m[i], v)]
  }

  /** The block of the code and that of the standard, where nothing is computed in between. */
  lemma PadBytes(m: Wide, size: nat, rate: nat, d: byte)
    requires size < rate <= 200 && m[size..] == Zeros(200 - size)
    ensures AddedAt(m, size, d)[..size + 1] == m[..size] + [d]
    ensures AddedAt(AddedAt(m, size, d), rate - 1, 0x80)[rate..] == Zeros(200 - rate)
    ensures AddedAt(AddedAt(m, size, d), rate - 1, 0x80)[..rate]
      == m[..size] + if size == rate - 1 then [XorByte(d, 0x80)] else [d] + Zeros(rate - size - 2) + [0x80]
    ensures AddedAt(Zeros(200), rate - 1, 0x80)[..rate] == Zeros(rate - 1) + [0x80]
    ensures AddedAt(Zeros(200), rate - 1, 0x80)[rate..] == Zeros(200 - rate)
  {
    XorByteLaws(0, d, 0);
    XorByteLaws(d, 0, 0);
    XorByteLaws(0, 0x80, 0);
    XorByteLaws(0x80, 0, 0);
    hide XorByte;
    assert m[size] == Zeros(200 - size)[0];
    forall i | size <= i < 200
      ensures m[i] == 0
    {
      assert m[i] == Zeros(200 - size)[i - size];
    }
  }

  lemma PadCase(f: Wide -> Wide, rate: nat, d: byte, s: Wide, w: Bytes)
    requires |w| < rate <= 200
    ensures d >= 0x80 && |w| == rate - 1 ==>
      LastBlock(f, rate, d, s, w, f(Added(s, w + [d])), Zeros(rate - 1) + [0x80])
    ensures !(d >= 0x80 && |w| == rate - 1) ==>
      LastBlock(f, rate, d, s, w, s, w + if |w| == rate - 1 then [XorByte(d, 0x80)] else [d] + Zeros(rate - |w| - 2) + [0x80])
  {
    hide Added, XorByte;
  }

  /** Computing the last block finishes the padded message. */
  lemma LastState(f: Wide -> Wide, rate: nat, d: byte, given: Bytes, s: Wide, w: Bytes, s': Wide, block: Bytes)
    requires 1 <= rate <= 200 && |w| < rate && |w| == |given| % rate && Reached(f, rate, given, s, w)
    requires LastBlock(f, rate, d, s, w, s', block)
    ensures |block| == rate
    ensures Fold<Wide>(Step(f), rate, Start(), given + Padding(|given|, rate, d)) == f(Added(s', block))
  {
    var p := Padding(|given|, rate, d);
    hide Added, XorByte;
    assert Fold<Wide>(Step(f), rate, Start(), given + p) == Fold<Wide>(Step(f), rate, s, w + p);
    if rate - |w| == 1 && d >= 0x80 {
      assert w + p == (w + [d]) + block;
      FoldBlock<Wide>(Step(f), rate, s, w + [d], block);
    } else {
      assert w + p == block;
    }
    assert block == block + [];
    FoldBlock<Wide>(Step(f), rate, s', block, []);
  }

  class Sponge {
    const f: Wide -> Wide
    const rate: nat
    const digestSize: nat
    const d: byte
    var s: Wide
    const m: array<byte>
    var size: nat
    var hash: Bytes
    /** All bytes given so far. */
    ghost var given: Bytes

    ghost predicate Sized()
      reads `size
    {
      1 <= rate <= 200 && m.Length == 200 && size <= rate
    }

    ghost predicate Shaped()
      reads `size, m
    {
      Sized() && m[size..] == Zeros(200 - size)
    }

    ghost predicate Valid()
      reads this, m
    {
      && Shaped() && size == |given| % rate
      && Reached(f, rate, given, s, m[..size])
    }

    constructor (f: Wide -> Wide, rate: nat, digestSize: nat, d: byte)
      requires 1 <= rate <= 200
      ensures Valid() && fresh(m) && given == [] && this.f == f && this.rate == rate
      ensures this.digestSize == digestSize && this.d == d
    {
      this.f, this.rate, this.digestSize, this.d := f, rate, digestSize, d;
      s, size, hash, given := Start(), 0, [], [];
      m := new byte[200](_ => 0);
      new;
      ProgressStart<Wide>(Step(f), rate, s);
      assert m[..0] == [] && m[0..] == Zeros(200);
    }

    /** Adds the block to the state and permutes. */
    method Compute()
      requires Sized()
      modifies m, `size, `s
      ensures Shaped() && size == 0
      ensures s == f(Added(old(s), old(m[..rate])))
    {
      hide XorByte;
      ghost var s0 := s;
      var state := s;
      var b := new byte[200](i requires 0 <= i < 200 => state[i]);
      for i := 0 to rate
        invariant b.Length == 200 && m[..] == old(m[..]) && size == old(size)
        invariant forall k :: 0 <= k < i ==> b[k] == XorByte(s0[k], m[k])
        invariant forall k :: i <= k < 200 ==> b[k] == s0[k]
      {
        b[i] := XorByte(b[i], m[i]);
      }
      assert b[..] == Added(s0, m[..rate]);
      s := f(b[..]);
      ClearBlock();
    }

    method ClearBlock()
      requires Sized()
      modifies m, `size
      ensures Shaped() && size == 0
    {
      for i := 0 to 200
        invariant forall k :: 0 <= k < i ==> m[k] == 0
      {
        m[i] := 0;
      }
      size := 0;
    }

    /** Copies bytes into the block. */
    method Copy(part: Bytes)
      requires Shaped() && size + |part| <= rate
      modifies m, `size
      ensures Shaped() && size == old(size) + |part| && m[..size] == old(m[..size]) + part
    {
      for i := 0 to |part|
        invariant size == old(size) && m[..size] == old(m[..size])
        invariant m[size..size + i] == part[..i] && m[size + i..] == old(m[size + i..])
      {
        m[size + i] := part[i];
      }
      assert m[..size + |part|] == m[..size] + m[size..size + |part|];
      assert m[size + |part|..] == old(m[size..])[|part|..];
      size := size + |part|;
    }

    /** Fills up the block, and computes it when it is full; g is what was taken before. */
    method Take(part: Bytes, ghost g: Bytes)
      requires Shaped() && size == |g| % rate && size + |part| <= rate
      requires Reached(f, rate, g, s, m[..size])
      modifies `s, `size, m
      ensures Shaped() && size == |g + part| % rate
      ensures Reached(f, rate, g + part, s, m[..size])
    {
      hide Reached, Added;
      ReachedBytes(f, rate, g, s, m[..size], part);
      ModArith.ModNext(|g|, |part|, rate);
      Copy(part);
      if size == rate {
        ReachedBlock(f, rate, g + part, s, m[..size]);
        Compute();
        assert m[..0] == [];
      }
    }

    /** Any part of a message. */
    method Update(chunk: Bytes)
      requires Valid()
      modifies this, m
      ensures Valid() && given == old(given) + chunk
    {
      hide Reached;
      var src, sz := 0, |chunk|;
      assert given + chunk[..0] == given;
      while sz > 0
        invariant 0 <= src && 0 <= sz && src + sz == |chunk| && Shaped()
        invariant given == old(given) && size == |given + chunk[..src]| % rate
        invariant Reached(f, rate, given + chunk[..src], s, m[..size])
      {
        var available := rate - size;
        var copy := if sz > available then available else sz;
        assert given + chunk[..src + copy] == given + chunk[..src] + chunk[src..src + copy];
        Take(chunk[src..src + copy], given + chunk[..src]);
        sz := sz - copy;
        src := src + copy;
      }
      assert chunk[..src] == chunk;
      given := given + chunk;
    }

    /** The block before the last computation: what waits, the suffix and the final bit. */
    method PadBlock()
      requires Shaped() && size < rate
      modifies m, `size, `s
      ensures Sized() && m[rate..] == Zeros(200 - rate)
      ensures LastBlock(f, rate, d, old(s), old(m[..size]), s, m[..rate])
    {
      hide Added, LastBlock, AddedAt;
      PadCase(f, rate, d, s, m[..size]);
      AddSuffix();
      AddTo(rate - 1, 0x80);
    }

    /** Adds the suffix; the block is computed when the final bit would fall on the suffix. */
    method AddSuffix()
      requires Shaped() && size < rate
      modifies m, `size, `s
      ensures Sized() && var last := AddedAt(m[..], rate - 1, 0x80);
        && last[rate..] == Zeros(200 - rate)
        && if d >= 0x80 && old(size) == rate - 1 then
             s == f(Added(old(s), old(m[..size]) + [d])) && last[..rate] == Zeros(rate - 1) + [0x80]
           else
             s == old(s) && last[..rate] == old(m[..size])
               + if old(size) == rate - 1 then [XorByte(d, 0x80)] else [d] + Zeros(rate - old(size) - 2) + [0x80]
    {
      hide Added, AddedAt, XorByte;
      PadBytes(m[..], size, rate, d);
      AddTo(size, d);
      if d >= 0x80 && size == rate - 1 {
        Compute();
        assert m[..] == m[0..];
      }
    }

    /** Adds a bit pattern to one byte of the block. */
    method AddTo(i: nat, v: byte)
      requires m.Length == 200 && i < 200
      modifies m
      ensures m[..] == AddedAt(old(m[..]), i, v)
    {
      hide XorByte;
      m[i] := XorByte(m[i], v);
    }

    /** Reads the output off the state, permuting it whenever a block was read. */
    method Finalise()
      requires Sized() && m[..] == Zeros(200)
      modifies this, m
      ensures hash == Squeezed(f, rate, old(s), digestSize)
    {
      hide Added, Squeezed;
      hash := [];
      ghost var s0 := s;
      var offset := 0;
      assert [] + Squeezed(f, rate, s, digestSize) == Squeezed(f, rate, s, digestSize);
      while offset < digestSize
        invariant 0 <= offset <= digestSize && Sized() && m[..] == Zeros(200)
        invariant hash + Squeezed(f, rate, s, digestSize - offset) == Squeezed(f, rate, s0, digestSize)
      {
        var sz := if rate < digestSize - offset then rate else digestSize - offset;
        SqueezeStep(f, rate, s, digestSize - offset, hash, sz);
        hash := hash + s[..sz];
        offset := offset + sz;
        if offset < digestSize {
          PermuteAgain();
        } else {
          assert hash + Squeezed(f, rate, s, 0) == hash;
        }
      }
      assert hash + Squeezed(f, rate, s, digestSize - offset) == hash;
    }

    method PermuteAgain()
      requires Sized() && m[..] == Zeros(200)
      modifies m, `size, `s
      ensures Sized() && m[..] == Zeros(200) && s == f(old(s))
    {
      hide Added;
      AddedNothing(s, rate);
      assert m[..rate] == Zeros(rate);
      Compute();
      assert m[0..] == m[..];
    }

    /** The digest of all that was given, in whatever parts: the sponge over the padded message. */
    method Close()
      requires Valid()
      modifies this, m
      ensures hash == Squeezed(f, rate,
        Fold<Wide>(Step(f), rate, Start(), old(given) + Padding(|old(given)|, rate, d)), digestSize)
    {
      hide Added, LastBlock, Padding, Fold, Squeezed, Reached;
      ghost var s0, w := s, m[..size];
      PadBlock();
      LastState(f, rate, d, given, s0, w, s, m[..rate]);
      Compute();
      Finalise();
    }
  }

  lemma SqueezeStep(f: Wide -> Wide, rate: nat, s: Wide, n: nat, hash: Bytes, sz: nat)
    requires 1 <= rate <= 200 && n > 0 && sz == if rate < n then rate else n
    ensures sz < n ==> hash + Squeezed(f, rate, s, n) == hash + s[..sz] + Squeezed(f, rate, f(s), n - sz)
    ensures sz == n ==> hash + Squeezed(f, rate, s, n) == hash + s[..sz]
  {
  }

  /** A zero block changes nothing. */
  lemma AddedNothing(s: Wide, n: nat)
    requires n <= 200
    ensures Added(s, Zeros(n)) == s
  {
    forall i | 0 <= i < n
      ensures Added(s, Zeros(n))[i] == s[i]
    {
      XorByteLaws(s[i], 0, 0);
    }
  }
}
