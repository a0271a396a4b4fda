/** The growing byte buffer of core/src/buffer.cpp. The contents are the first bytes of a larger
    allocation, which is kept when the buffer shrinks, and used again when it grows; insertion and removal
    move the bytes behind the place they happen at. */
module BufferHolder {
  import opened ByteType
  import opened ByteXor

  const BOUNDARY: nat := 16

  function Zeros(n: nat): Bytes { seq(n, _ => 0) }

  ghost function Inserted(c: Bytes, offset: nat, xs: Bytes): Bytes
    requires offset <= |c|
  {
    c[..offset] + xs + c[offset..]
  }

  ghost function Erased(c: Bytes, offset: nat, count: nat): Bytes
    requires offset + count <= |c|
  {
    c[..offset] + c[offset + count..]
  }

  /** Erasing what was inserted, and inserting what was erased, lead back. */
  lemma InsertErase(c: Bytes, offset: nat, xs: Bytes)
    requires offset <= |c|
    ensures Erased(Inserted(c, offset, xs), offset, |xs|) == c
    ensures offset + |xs| <= |c| && c[offset..offset + |xs|] == xs ==> Inserted(Erased(c, offset, |xs|), offset, xs) == c
  {
    assert Inserted(c, offset, xs)[..offset] == c[..offset];
    assert Inserted(c, offset, xs)[offset + |xs|..] == c[offset..];
    if offset + |xs| <= |c| && c[offset..offset + |xs|] == xs {
      var rest := Erased(c, offset, |xs|);
      assert rest[..offset] == c[..offset] && rest[offset..] == c[offset + |xs|..];
      assert c == c[..offset] + c[offset..offset + |xs|] + c[offset + |xs|..];
    }
  }

  lemma Assembled(c: Bytes, before: Bytes, offset: nat, xs: Bytes)
    requires offset <= |before| && |c| == |before| + |xs|
    requires c[..offset] == before[..offset] && c[offset..offset + |xs|] == xs
    requires c[offset + |xs|..] == before[offset..]
    ensures c == Inserted(before, offset, xs)
  {
    assert c == c[..offset] + c[offset..offset + |xs|] + c[offset + |xs|..];
  }

  /** data.Length is the capacity. A byte past the contents is always allocated, so that their end has
      an address. */
  class Holder {
    var data: array<byte>
    var size: nat

    ghost predicate Valid()
      reads this
    {
      size < data.Length || size == data.Length == 0
    }

    ghost function Contents(): Bytes
      requires Valid()
      reads this, data
    {
      data[..size]
    }

    /** The spare bytes a later growth may bring to light are zero. */
    ghost predicate Clean()
      reads this, data
    {
      forall i :: size <= i < data.Length - 1 ==> data[i] == 0
    }

    constructor (sz: nat)
      ensures Valid() && Clean() && Contents() == Zeros(sz) && fresh(data)
    {
      data, size := new byte[0], 0;
      new;
      Resize(sz);
    }

    /** Grows with a new allocation when the capacity does not hold one byte more than the size. */
    method Resize(sz: nat)
      requires Valid()
      modifies this
      ensures Valid() && size == sz && (if sz <= old(size) || sz < old(data.Length) then data == old(data) else fresh(data))
      ensures sz <= old(size) ==> Contents() == old(Contents())[..sz]
      ensures sz > old(size) ==> Contents()[..old(size)] == old(Contents())
      ensures sz > old(size) && sz >= old(data.Length) ==> Contents()[old(size)..] == Zeros(sz - old(size))
      ensures old(size) < sz < old(data.Length) ==> Contents()[old(size)..] == old(data[size..sz])
      ensures sz > old(size) ==> (Contents()[old(size)..] == Zeros(sz - old(size))
        <==> sz >= old(data.Length) || old(data[size..sz]) == Zeros(sz - old(size)))
      ensures sz >= old(size) && old(Clean()) ==> Clean()
    {
      if sz > size && sz + 1 > data.Length {
        var capacity := sz + (BOUNDARY - sz % BOUNDARY);
        var larger := new byte[capacity];
        if data.Length != 0 {
          forall i | 0 <= i < size {
            larger[i] := data[i];
          }
          forall i | size <= i < capacity - 1 {
            larger[i] := 0;
          }
        } else {
          forall i | 0 <= i < capacity {
            larger[i] := 0;
          }
        }
        data := larger;
      }
      size := sz;
    }

    /** Moves the bytes from the offset on up to the end, by count. */
    method MoveUp(offset: nat, count: nat)
      requires Valid() && offset + count <= size
      modifies data
      ensures data[..offset] == old(data[..offset])
      ensures data[offset + count..size] == old(data[offset..size - count])
      ensures data[size..] == old(data[size..])
    {
      forall i | offset + count <= i < size {
        data[i] := data[i - count];
      }
    }

    /** Makes room for count bytes; the bytes of the gap are still to be written. */
    method Open(offset: nat, count: nat)
      requires Valid() && offset <= size && count > 0
      modifies this, data
      ensures Valid() && size == old(size) + count && (data == old(data) || fresh(data))
      ensures Contents()[..offset] == old(Contents())[..offset]
      ensures Contents()[offset + count..] == old(Contents())[offset..]
      ensures old(Clean()) ==> Clean()
    {
      ghost var before := Contents();
      Resize(size + count);
      assert data[..size - count] == before;
      assert data[..offset] == before[..offset] && data[offset..size - count] == before[offset..];
      ghost var spare := data[size..];
      MoveUp(offset, count);
      assert Contents()[..offset] == data[..offset];
      assert Contents()[offset + count..] == data[offset + count..size];
      assert forall i :: size <= i < data.Length ==> data[i] == spare[i - size];
    }

    /** Writes xs over the bytes from the offset on. */
    method Overwrite(offset: nat, xs: Bytes)
      requires Valid() && offset + |xs| <= size
      modifies data
      ensures |Contents()| == |old(Contents())| && Contents()[offset..offset + |xs|] == xs
      ensures Contents()[..offset] == old(Contents())[..offset]
      ensures Contents()[offset + |xs|..] == old(Contents())[offset + |xs|..]
      ensures old(Clean()) ==> Clean()
    {
      forall i | 0 <= i < |xs| {
        data[offset + i] := xs[i];
      }
      assert data[offset..offset + |xs|] == xs;
    }

    method Insert(offset: nat, xs: Bytes)
      requires Valid() && offset <= size
      modifies this, data
      ensures Valid() && (data == old(data) || fresh(data))
      ensures Contents() == Inserted(old(Contents()), offset, xs)
      ensures old(Clean()) ==> Clean()
    {
      ghost var before := Contents();
      if |xs| == 0 {
        return;
      }
      Open(offset, |xs|);
      Overwrite(offset, xs);
      Assembled(Contents(), before, offset, xs);
    }

    method Fill(offset: nat, count: nat, value: byte)
      requires Valid() && offset <= size
      modifies this, data
      ensures Valid() && (data == old(data) || fresh(data))
      ensures Contents() == Inserted(old(Contents()), offset, seq(count, _ => value))
      ensures old(Clean()) ==> Clean()
    {
      Insert(offset, seq(count, _ => value));
    }

    method Erase(offset: nat, count: nat)
      requires Valid() && offset + count <= size
      modifies this`size, data
      ensures Valid() && Contents() == Erased(old(Contents()), offset, count)
    {
      if count == 0 {
        return;
      }
      forall i | 0 <= i < size - offset - count {
        data[offset + i] := data[offset + count + i];
      }
      size := size - count;
    }
  }

  /** Growing again after shrinking, within the capacity, shows the old bytes. */
  method GrowAgain(xs: Bytes) returns (seen: Bytes)
    requires |xs| > 0
    ensures seen == xs
  {
    var holder := new Holder(0);
    holder.Insert(0, xs);
    holder.Resize(0);
    holder.Resize(|xs|);
    seen := holder.data[..holder.size];
  }
}
