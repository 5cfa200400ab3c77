/** The bounds-checked cursors of core/src/net/packets.h: `BufferWriter`
    copies bytes into a caller's buffer at an advancing offset, and
    `BufferReader` copies them back out. The `assert`s guarding each copy
    are preconditions here. */
module PacketBuffers {
  import opened ByteOrder

  class BufferWriter {
    const data: array<byte>
    const capacity: nat
    var offset: nat

    /** The cursor stays within the capacity, and the capacity within the
        buffer the caller handed over. */
    ghost predicate Valid()
      reads this
    {
      offset <= capacity <= data.Length
    }

    constructor (d: array<byte>, cap: nat)
      requires cap <= d.Length
      ensures Valid() && data == d && capacity == cap && offset == 0
    {
      data := d;
      capacity := cap;
      offset := 0;
    }

    /** `writeRaw`, and `write<T>` on the value's bytes: the bytes land at
        the offset, the offset moves past them, and no other byte of the
        buffer changes. */
    method WriteRaw(src: seq<byte>)
      requires Valid() && offset + |src| <= capacity
      modifies this, data
      ensures Valid() && offset == old(offset) + |src|
      ensures data[..] == old(data[..])[..old(offset)] + src + old(data[..])[old(offset) + |src|..]
    {
      ghost var before := data[..];
      for k := 0 to |src|
        invariant offset == old(offset)
        invariant data[..] == before[..offset] + src[..k] + before[offset + k..]
      {
        data[offset + k] := src[k];
        assert src[..k + 1] == src[..k] + [src[k]];
      }
      assert src[..|src|] == src;
      offset := offset + |src|;
    }
  }

  class BufferReader {
    const data: array<byte>
    const size: nat
    var offset: nat

    /** The cursor stays within the readable size, and the size within the
        buffer. */
    ghost predicate Valid()
      reads this
    {
      offset <= size <= data.Length
    }

    constructor (d: array<byte>, s: nat)
      requires s <= d.Length
      ensures Valid() && data == d && size == s && offset == 0
    {
      data := d;
      size := s;
      offset := 0;
    }

    /** `readRaw`, and `read<T>` of a value's bytes: returns the next `n`
        bytes and moves past them; the buffer is only read. */
    method ReadRaw(n: nat) returns (r: seq<byte>)
      requires Valid() && offset + n <= size
      modifies this
      ensures Valid() && offset == old(offset) + n
      ensures r == data[old(offset)..old(offset) + n]
    {
      r := data[offset..offset + n];
      offset := offset + n;
    }
  }

  /** A writer and a reader over the same buffer agree: two values written
      one after the other from the start are read back, in order, by a
      reader over the bytes written, and the buffer past them is untouched. */
  method WriteThenRead(buf: array<byte>, cap: nat, a: seq<byte>, b: seq<byte>)
    returns (ra: seq<byte>, rb: seq<byte>)
    requires cap <= buf.Length && |a| + |b| <= cap
    modifies buf
    ensures ra == a && rb == b
    ensures buf[..] == a + b + old(buf[..])[|a| + |b|..]
  {
    var w := new BufferWriter(buf, cap);
    w.WriteRaw(a);
    w.WriteRaw(b);
    assert buf[..] == a + b + old(buf[..])[|a| + |b|..];
    var r := new BufferReader(buf, w.offset);
    ra := r.ReadRaw(|a|);
    assert buf[0..|a|] == buf[..][0..|a|];
    rb := r.ReadRaw(|b|);
    assert buf[|a|..|a| + |b|] == buf[..][|a|..|a| + |b|];
  }
}
