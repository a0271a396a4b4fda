/** Hashing a byte string block by block, however it arrives. */
module BlockFold {
  import opened ByteType
  import opened ByteXor

  /** The state after all whole blocks of s. */
  function Fold<H>(f: (H, Bytes) -> H, size: nat, h: H, s: Bytes): H
    requires size > 0
    decreases |s|
  {
    if |s| < size then h else Fold(f, size, f(h, s[..size]), s[size..])
  }

  /** Whatever follows, hashing all that was given comes to hashing on from here. */
  ghost predicate Progress<H(!new)>(f: (H, Bytes) -> H, size: nat, h0: H, given: Bytes, h: H, waiting: Bytes)
    requires size > 0
  {
    forall rest {:trigger given + rest} :: Fold(f, size, h0, given + rest) == Fold(f, size, h, waiting + rest)
  }

  lemma ProgressStart<H(!new)>(f: (H, Bytes) -> H, size: nat, h: H)
    requires size > 0
    ensures Progress(f, size, h, [], h, [])
  {
    hide Fold;
  }

  lemma ProgressBytes<H(!new)>(f: (H, Bytes) -> H, size: nat, h0: H, given: Bytes, h: H, waiting: Bytes, s: Bytes)
    requires size > 0 && Progress(f, size, h0, given, h, waiting)
    ensures Progress(f, size, h0, given + s, h, waiting + s)
  {
    hide Fold;
    forall rest: Bytes {:trigger given + s + rest}
      ensures Fold(f, size, h0, given + s + rest) == Fold(f, size, h, waiting + s + rest)
    {
      assert given + s + rest == given + (s + rest) && waiting + s + rest == waiting + (s + rest);
    }
  }

  lemma ProgressBlock<H(!new)>(f: (H, Bytes) -> H, size: nat, h0: H, given: Bytes, h: H, waiting: Bytes)
    requires size > 0 && Progress(f, size, h0, given, h, waiting) && |waiting| == size
    ensures Progress(f, size, h0, given, f(h, waiting), [])
  {
    forall rest: Bytes {:trigger given + rest}
      ensures Fold(f, size, h0, given + rest) == Fold(f, size, f(h, waiting), [] + rest)
    {
      FoldBlock(f, size, h, waiting, rest);
      assert [] + rest == rest;
      hide Fold;
    }
  }

  lemma FoldBlock<H>(f: (H, Bytes) -> H, size: nat, h: H, block: Bytes, rest: Bytes)
    requires size > 0 && |block| == size
    ensures Fold(f, size, h, block + rest) == Fold(f, size, f(h, block), rest)
  {
    assert (block + rest)[..size] == block && (block + rest)[size..] == rest;
  }

  /** Less than a block is waiting. */
  lemma ProgressEnd<H(!new)>(f: (H, Bytes) -> H, size: nat, h0: H, given: Bytes, h: H, waiting: Bytes)
    requires size > 0 && Progress(f, size, h0, given, h, waiting) && |waiting| < size
    ensures Fold(f, size, h0, given) == h
  {
    assert given + [] == given && waiting + [] == waiting;
  }
}
