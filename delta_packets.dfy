/** `serializeDeltaSnapshot` of core/src/net/packets.h: for each index
    whose entity changed between two equally long lists, a record with the
    index, a five-bit field mask and the new values of the changed fields;
    the header and count are rewritten in place once the records are out.
    A decoder that applies the records to the old list is its inverse. */
module DeltaPackets {
  import opened Wrappers
  import opened ByteOrder
  import opened PacketBuffers
  import opened Packets

  // ---------- Field mask ----------

  /** The bits of `entityMask`: bit 0 x, bit 1 y, bit 2 vx, bit 3 vy,
      bit 4 id. */
  datatype FieldMask = FieldMask(x: bool, y: bool, vx: bool, vy: bool, id: bool)

  const NO_FIELDS := FieldMask(false, false, false, false, false)

  /** The mask byte, written low bit first. */
  function FieldMaskByte(m: FieldMask): (b: byte)
    ensures b < 0x20
    ensures b == 0 <==> m == NO_FIELDS
  {
    Bit(m.x, 1) + 2 * (Bit(m.y, 1) + 2 * (Bit(m.vx, 1) + 2 * (Bit(m.vy, 1) + 2 * Bit(m.id, 1))))
  }

  /** The byte is the OR of the `1 << k` of the fields it names. */
  lemma FieldMaskByteIsOrOfBits(m: FieldMask)
    ensures FieldMaskByte(m) == Bit(m.x, 1) + Bit(m.y, 2) + Bit(m.vx, 4) + Bit(m.vy, 8) + Bit(m.id, 16)
  {
  }

  /** The `entityMask & (1 << k)` tests on a received byte; bits 5 to 7 are
      ignored. */
  function FieldMaskOfByte(b: byte): FieldMask
  {
    var b1 := b / 2;
    var b2 := b1 / 2;
    var b3 := b2 / 2;
    var b4 := b3 / 2;
    FieldMask(b % 2 == 1, b1 % 2 == 1, b2 % 2 == 1, b3 % 2 == 1, b4 % 2 == 1)
  }

  lemma FieldMaskRoundTrip(m: FieldMask)
    ensures FieldMaskOfByte(FieldMaskByte(m)) == m
  {
    var r4 := Bit(m.id, 1);
    var r3 := Bit(m.vy, 1) + 2 * r4;
    var r2 := Bit(m.vx, 1) + 2 * r3;
    var r1 := Bit(m.y, 1) + 2 * r2;
    var b := FieldMaskByte(m);
    assert b == Bit(m.x, 1) + 2 * r1;
    assert b % 2 == Bit(m.x, 1) && b / 2 == r1 by { Halve(Bit(m.x, 1), r1); }
    assert r1 % 2 == Bit(m.y, 1) && r1 / 2 == r2 by { Halve(Bit(m.y, 1), r2); }
    assert r2 % 2 == Bit(m.vx, 1) && r2 / 2 == r3 by { Halve(Bit(m.vx, 1), r3); }
    assert r3 % 2 == Bit(m.vy, 1) && r3 / 2 == r4 by { Halve(Bit(m.vy, 1), r4); }
    assert r4 % 2 == Bit(m.id, 1);
  }

  /** The mask for one index: a bit for each field that differs; it is
      empty exactly when `operator!=` says the two entities agree. */
  function Diff(a: NetEntity, b: NetEntity): (m: FieldMask)
    ensures m == NO_FIELDS <==> !Differs(a, b)
  {
    FieldMask(a.x != b.x, a.y != b.y, a.vx != b.vx, a.vy != b.vy, a.id != b.id)
  }

  /** The `entityMask |= (1 << k)` steps. */
  method ComputeMask(a: NetEntity, b: NetEntity) returns (mask: FieldMask)
    ensures mask == Diff(a, b)
  {
    mask := NO_FIELDS;
    if a.x != b.x { mask := mask.(x := true); }
    if a.y != b.y { mask := mask.(y := true); }
    if a.vx != b.vx { mask := mask.(vx := true); }
    if a.vy != b.vy { mask := mask.(vy := true); }
    if a.id != b.id { mask := mask.(id := true); }
  }

  // ---------- Records ----------

  /** One record: `(u16)i`, the mask byte, then the new values of the
      fields the mask names, in bit order (the id last). */
  function NetRecord(i: nat, e: NetEntity, m: FieldMask): (r: seq<byte>)
    ensures |r| >= 3
  {
    U16Bytes(i % 0x1_0000) + [FieldMaskByte(m)] + NetFields(e, m)
  }

  /** The new values of the fields a mask names, in bit order. */
  function NetFields(e: NetEntity, m: FieldMask): seq<byte>
  {
    Field(m.x, e.x) + Field(m.y, e.y) + Field(m.vx, e.vx) + Field(m.vy, e.vy) + Field(m.id, U32Bytes(e.id))
  }

  /** What index `i` contributes: nothing when the entity did not change. */
  function EntryAt(before: seq<NetEntity>, after: seq<NetEntity>, i: nat): seq<byte>
    requires |before| == |after| && i < |before|
  {
    var m := Diff(before[i], after[i]);
    if m == NO_FIELDS then [] else NetRecord(i, after[i], m)
  }

  /** The records of the indices `lo` to `hi - 1`, in increasing order. */
  function RecordsFrom(before: seq<NetEntity>, after: seq<NetEntity>, lo: nat, hi: nat): seq<byte>
    requires |before| == |after| && lo <= hi <= |before|
    decreases hi - lo
  {
    if lo == hi then [] else EntryAt(before, after, lo) + RecordsFrom(before, after, lo + 1, hi)
  }

  /** How many of the indices `lo` to `hi - 1` changed. */
  function ChangedFrom(before: seq<NetEntity>, after: seq<NetEntity>, lo: nat, hi: nat): (n: nat)
    requires |before| == |after| && lo <= hi <= |before|
    ensures n <= hi - lo
    decreases hi - lo
  {
    if lo == hi then 0
    else (if Diff(before[lo], after[lo]) == NO_FIELDS then 0 else 1) + ChangedFrom(before, after, lo + 1, hi)
  }

  /** The header after the rewrite: the final size cut to 16 bits. */
  function DeltaHeader(before: seq<NetEntity>, after: seq<NetEntity>, tick: u32): PacketHeader
    requires |before| == |after|
  {
    PacketHeader((HEADER_SIZE + 2 + |RecordsFrom(before, after, 0, |before|)|) % 0x1_0000, ServerSnapshotDelta, tick)
  }

  /** The delta packet: the rewritten header, the number of records cut to
      16 bits, then the records. */
  function DeltaPacketBytes(before: seq<NetEntity>, after: seq<NetEntity>, tick: u32): seq<byte>
    requires |before| == |after|
  {
    HeaderBytes(DeltaHeader(before, after, tick)) +
    U16Bytes(ChangedFrom(before, after, 0, |before|) % 0x1_0000) +
    RecordsFrom(before, after, 0, |before|)
  }

  lemma {:induction false} RecordsExtend(before: seq<NetEntity>, after: seq<NetEntity>, lo: nat, hi: nat)
    requires |before| == |after| && lo <= hi < |before|
    ensures RecordsFrom(before, after, lo, hi + 1) == RecordsFrom(before, after, lo, hi) + EntryAt(before, after, hi)
    decreases hi - lo
  {
    if lo == hi {
      assert RecordsFrom(before, after, hi + 1, hi + 1) == [];
    } else {
      RecordsExtend(before, after, lo + 1, hi);
      AppendAssoc(EntryAt(before, after, lo), RecordsFrom(before, after, lo + 1, hi), EntryAt(before, after, hi));
    }
  }

  lemma {:induction false} ChangedExtend(before: seq<NetEntity>, after: seq<NetEntity>, lo: nat, hi: nat)
    requires |before| == |after| && lo <= hi < |before|
    ensures ChangedFrom(before, after, lo, hi + 1) ==
            ChangedFrom(before, after, lo, hi) + (if Diff(before[hi], after[hi]) == NO_FIELDS then 0 else 1)
    decreases hi - lo
  {
    if lo < hi {
      ChangedExtend(before, after, lo + 1, hi);
    }
  }

  /** The records of a prefix of the indices are no longer than all of them. */
  lemma {:induction false} RecordsGrow(before: seq<NetEntity>, after: seq<NetEntity>, i: nat, n: nat)
    requires |before| == |after| && i <= n <= |before|
    ensures |RecordsFrom(before, after, 0, i)| <= |RecordsFrom(before, after, 0, n)|
    decreases n - i
  {
    if i < n {
      RecordsGrow(before, after, i, n - 1);
      RecordsExtend(before, after, 0, n - 1);
    }
  }

  // ---------- Serialiser ----------

  /** A record's fields, one `write(B.f)` per set bit. */
  method EmitField(w: BufferWriter, present: bool, value: seq<byte>, ghost written: seq<byte>, ghost orig: seq<byte>)
    requires Wrote(w, written, orig) && |written| + |Field(present, value)| <= w.capacity
    modifies w, w.data
    ensures Wrote(w, written + Field(present, value), orig)
  {
    if present {
      Emit(w, value, written, orig);
    } else {
      AppendNil(written);
    }
  }

  /** The body of the loop for a changed index: `(u16)i`, the mask, and
      the changed fields of `B`. */
  method WriteNetRecord(w: BufferWriter, i: nat, e: NetEntity, mask: FieldMask,
                        ghost written: seq<byte>, ghost orig: seq<byte>)
    requires Wrote(w, written, orig) && |written| + |NetRecord(i, e, mask)| <= w.capacity
    modifies w, w.data
    ensures Wrote(w, written + NetRecord(i, e, mask), orig)
  {
    var f0 := U16Bytes(i % 0x1_0000);
    var f1 := [FieldMaskByte(mask)];
    Emit(w, f0, written, orig);
    Emit(w, f1, written + f0, orig);
    WriteNetFields(w, e, mask, written + f0 + f1, orig);
    AppendAssoc(written, f0, f1);
    AppendAssoc(written, f0 + f1, NetFields(e, mask));
  }

  /** The `if (entityMask & (1 << k)) w.write(B.f)` lines. */
  method WriteNetFields(w: BufferWriter, e: NetEntity, mask: FieldMask, ghost written: seq<byte>, ghost orig: seq<byte>)
    requires Wrote(w, written, orig) && |written| + |NetFields(e, mask)| <= w.capacity
    modifies w, w.data
    ensures Wrote(w, written + NetFields(e, mask), orig)
  {
    var f1 := Field(mask.x, e.x);
    var f2 := Field(mask.y, e.y);
    var f3 := Field(mask.vx, e.vx);
    var f4 := Field(mask.vy, e.vy);
    var f5 := Field(mask.id, U32Bytes(e.id));
    ghost var acc := written;
    EmitField(w, mask.x, e.x, acc, orig);
    acc := acc + f1;
    EmitField(w, mask.y, e.y, acc, orig);
    acc := acc + f2;
    EmitField(w, mask.vx, e.vx, acc, orig);
    acc := acc + f3;
    EmitField(w, mask.vy, e.vy, acc, orig);
    acc := acc + f4;
    EmitField(w, mask.id, U32Bytes(e.id), acc, orig);
    AppendAssoc(written, f1, f2);
    AppendAssoc(written, f1 + f2, f3);
    AppendAssoc(written, f1 + f2 + f3, f4);
    AppendAssoc(written, f1 + f2 + f3 + f4, f5);
  }

  /** The body of the loop for index `i`: computes the mask, skips an
      unchanged entity, and otherwise writes its record and bumps the
      16-bit count. */
  method WriteEntry(w: BufferWriter, before: seq<NetEntity>, after: seq<NetEntity>, i: nat,
                    entityCount: u16, ghost prefix: seq<byte>, ghost orig: seq<byte>) returns (count: u16)
    requires |before| == |after| && i < |before|
    requires Wrote(w, prefix + RecordsFrom(before, after, 0, i), orig)
    requires |prefix| + |RecordsFrom(before, after, 0, |before|)| <= w.capacity
    requires entityCount == ChangedFrom(before, after, 0, i) % 0x1_0000
    modifies w, w.data
    ensures Wrote(w, prefix + RecordsFrom(before, after, 0, i + 1), orig)
    ensures count == ChangedFrom(before, after, 0, i + 1) % 0x1_0000
  {
    ghost var done := prefix + RecordsFrom(before, after, 0, i);
    assert done + EntryAt(before, after, i) == prefix + RecordsFrom(before, after, 0, i + 1) by {
      RecordsExtend(before, after, 0, i);
      AppendAssoc(prefix, RecordsFrom(before, after, 0, i), EntryAt(before, after, i));
    }
    CountStep(before, after, i, entityCount);
    var a := before[i];
    var b := after[i];
    var mask := ComputeMask(a, b);
    if mask == NO_FIELDS {
      assert EntryAt(before, after, i) == [];
      AppendNil(done);
      return entityCount;
    }
    assert |done| + |EntryAt(before, after, i)| <= w.capacity by {
      RecordsExtend(before, after, 0, i);
      RecordsGrow(before, after, i + 1, |before|);
    }
    WriteNetRecord(w, i, b, mask, done, orig);
    count := (entityCount + 1) % 0x1_0000;
  }

  /** The loop of `serializeDeltaSnapshot`: the records of every changed
      index in increasing order, counted in a `uint16_t`. */
  method WriteRecords(w: BufferWriter, before: seq<NetEntity>, after: seq<NetEntity>,
                      ghost prefix: seq<byte>, ghost orig: seq<byte>) returns (entityCount: u16)
    requires |before| == |after|
    requires Wrote(w, prefix, orig) && |prefix| + |RecordsFrom(before, after, 0, |before|)| <= w.capacity
    modifies w, w.data
    ensures Wrote(w, prefix + RecordsFrom(before, after, 0, |before|), orig)
    ensures entityCount == ChangedFrom(before, after, 0, |before|) % 0x1_0000
  {
    entityCount := 0;
    assert prefix + [] == prefix;
    for i := 0 to |before|
      invariant Wrote(w, prefix + RecordsFrom(before, after, 0, i), orig)
      invariant entityCount == ChangedFrom(before, after, 0, i) % 0x1_0000
    {
      entityCount := WriteEntry(w, before, after, i, entityCount, prefix, orig);
    }
  }

  /** One turn of the loop bumps the 16-bit count exactly when index `i`
      got a record. */
  lemma CountStep(before: seq<NetEntity>, after: seq<NetEntity>, i: nat, count: u16)
    requires |before| == |after| && i < |before|
    requires count == ChangedFrom(before, after, 0, i) % 0x1_0000
    ensures ChangedFrom(before, after, 0, i + 1) % 0x1_0000 ==
            if Diff(before[i], after[i]) == NO_FIELDS then count else (count + 1) % 0x1_0000
  {
    ChangedExtend(before, after, 0, i);
    Wrap16Succ(ChangedFrom(before, after, 0, i));
  }

  /** `entityCount++` on a `uint16_t` keeps the count modulo 2^16. */
  lemma Wrap16Succ(n: nat)
    ensures (n % 0x1_0000 + 1) % 0x1_0000 == (n + 1) % 0x1_0000
  {
    var q := n / 0x1_0000;
    assert n == q * 0x1_0000 + n % 0x1_0000;
  }

  /** `serializeDeltaSnapshot`: the packet sits at the front of the
      caller's buffer and the rest of the buffer is as it was; `outSize` is
      the final offset, which the asserted capacity must hold. */
  method SerializeDeltaSnapshot(before: seq<NetEntity>, after: seq<NetEntity>, outBuffer: array<byte>,
                                outCapacity: nat, tick: u32) returns (outSize: nat)
    requires |before| == |after|
    requires outCapacity <= outBuffer.Length
    requires HEADER_SIZE + 2 + |RecordsFrom(before, after, 0, |before|)| <= outCapacity
    modifies outBuffer
    ensures outSize == HEADER_SIZE + 2 + |RecordsFrom(before, after, 0, |before|)|
    ensures outBuffer[..] == DeltaPacketBytes(before, after, tick) + old(outBuffer[..])[outSize..]
  {
    var w := new BufferWriter(outBuffer, outCapacity);
    outSize := WriteDelta(w, before, after, tick);
  }

  /** The body of `serializeDeltaSnapshot` on a fresh writer: header and
      zero count, the records, then the seek back to offset 0 and the
      rewrite of the header and count. */
  method WriteDelta(w: BufferWriter, before: seq<NetEntity>, after: seq<NetEntity>, tick: u32) returns (outSize: nat)
    requires |before| == |after|
    requires w.Valid() && w.offset == 0
    requires HEADER_SIZE + 2 + |RecordsFrom(before, after, 0, |before|)| <= w.capacity
    modifies w, w.data
    ensures outSize == HEADER_SIZE + 2 + |RecordsFrom(before, after, 0, |before|)|
    ensures w.data[..] == DeltaPacketBytes(before, after, tick) + old(w.data[..])[outSize..]
  {
    ghost var orig := w.data[..];
    var headerOffset := w.offset;
    var header := PacketHeader(0, ServerSnapshotDelta, tick);
    ghost var prefix := HeaderBytes(header) + U16Bytes(0);
    ghost var body := RecordsFrom(before, after, 0, |before|);
    WritePrefix(w, HeaderBytes(header), U16Bytes(0), orig);
    var entityCount := WriteRecords(w, before, after, prefix, orig);
    var finalOffset := w.offset;
    assert finalOffset == |prefix| + |body| && w.data[..] == prefix + body + orig[|prefix| + |body|..];
    w.offset := headerOffset;
    header := header.(size := finalOffset % 0x1_0000);
    assert header == DeltaHeader(before, after, tick);
    PatchPrefix(w, before, after, header, entityCount, prefix, body, orig);
    outSize := finalOffset;
  }

  /** The seek back and the rewrite of the header and count: what was
      written becomes the finished packet, and the buffer beyond it is
      untouched. */
  method PatchPrefix(w: BufferWriter, before: seq<NetEntity>, after: seq<NetEntity>, header: PacketHeader,
                     entityCount: u16, ghost prefix: seq<byte>, ghost body: seq<byte>, ghost orig: seq<byte>)
    requires |before| == |after| && body == RecordsFrom(before, after, 0, |before|)
    requires header == DeltaHeader(before, after, header.tick)
    requires entityCount == ChangedFrom(before, after, 0, |before|) % 0x1_0000
    requires |prefix| == HEADER_SIZE + 2 && |prefix| + |body| <= |orig|
    requires w.Valid() && w.offset == 0 && HEADER_SIZE + 2 <= w.capacity
    requires w.data[..] == prefix + body + orig[|prefix| + |body|..]
    modifies w, w.data
    ensures w.data[..] == DeltaPacketBytes(before, after, header.tick) + orig[|prefix| + |body|..]
  {
    ghost var full := w.data[..];
    RewritePrefix(w, HeaderBytes(header), U16Bytes(entityCount), full);
    RewriteKeepsRecords(prefix, body, orig, full);
    Assemble(before, after, header.tick, HeaderBytes(header), U16Bytes(entityCount), orig[|prefix| + |body|..]);
  }

  /** The first two writes: the header (size still 0) and a zero count. */
  method WritePrefix(w: BufferWriter, hb: seq<byte>, cb: seq<byte>, ghost orig: seq<byte>)
    requires w.Valid() && w.offset == 0 && w.data[..] == orig
    requires |hb| == HEADER_SIZE && |cb| == 2 && HEADER_SIZE + 2 <= w.capacity
    modifies w, w.data
    ensures Wrote(w, hb + cb, orig)
  {
    assert Wrote(w, [], orig) by {
      assert orig[0..] == orig;
    }
    Emit(w, hb, [], orig);
    assert [] + hb == hb;
    Emit(w, cb, hb, orig);
  }

  /** The rewritten prefix in front of the untouched records is the packet. */
  lemma Assemble(before: seq<NetEntity>, after: seq<NetEntity>, tick: u32, hb: seq<byte>, cb: seq<byte>, rest: seq<byte>)
    requires |before| == |after|
    requires hb == HeaderBytes(DeltaHeader(before, after, tick))
    requires cb == U16Bytes(ChangedFrom(before, after, 0, |before|) % 0x1_0000)
    ensures hb + cb + (RecordsFrom(before, after, 0, |before|) + rest) == DeltaPacketBytes(before, after, tick) + rest
  {
    AppendAssoc(hb + cb, RecordsFrom(before, after, 0, |before|), rest);
  }

  /** `w.offset = headerOffset` followed by the two writes: the first nine
      bytes are replaced and nothing else changes. */
  method RewritePrefix(w: BufferWriter, hb: seq<byte>, cb: seq<byte>, ghost full: seq<byte>)
    requires w.Valid() && w.offset == 0 && w.data[..] == full
    requires |hb| == HEADER_SIZE && |cb| == 2 && HEADER_SIZE + 2 <= w.capacity
    modifies w, w.data
    ensures w.Valid() && w.data[..] == hb + cb + full[HEADER_SIZE + 2..]
  {
    WritePrefix(w, hb, cb, full);
  }

  /** The rewrite of the 9-byte prefix leaves the records, and the bytes
      after them, as they were. */
  lemma RewriteKeepsRecords(prefix: seq<byte>, body: seq<byte>, orig: seq<byte>, full: seq<byte>)
    requires |prefix| == HEADER_SIZE + 2 && |prefix| + |body| <= |orig|
    requires full == prefix + body + orig[|prefix| + |body|..]
    ensures full[HEADER_SIZE + 2..] == body + orig[|prefix| + |body|..]
  {
  }

  // ---------- Reading a delta back ----------

  /** Reads an optional float field: four bytes when its bit is set,
      otherwise the value held so far. */
  function TakeFloat(b: seq<byte>, present: bool, current: Float32): Option<(Float32, seq<byte>)>
  {
    if !present then Some((current, b))
    else if |b| < 4 then None
    else Some((b[..4], b[4..]))
  }

  /** Reads the optional id field. */
  function TakeId(b: seq<byte>, present: bool, current: u32): Option<(u32, seq<byte>)>
  {
    if !present then Some((current, b))
    else if |b| < 4 then None
    else Some((U32Value(b[..4]), b[4..]))
  }

  lemma TakeFloatInverts(v: Float32, present: bool, current: Float32, tail: seq<byte>)
    requires present || current == v
    ensures TakeFloat(Field(present, v) + tail, present, current) == Some((v, tail))
  {
    var b := Field(present, v) + tail;
    if present {
      assert b[..4] == v && b[4..] == tail;
    } else {
      assert b == tail;
    }
  }

  lemma TakeIdInverts(v: u32, present: bool, current: u32, tail: seq<byte>)
    requires present || current == v
    ensures TakeId(Field(present, U32Bytes(v)) + tail, present, current) == Some((v, tail))
  {
    var b := Field(present, U32Bytes(v)) + tail;
    if present {
      assert b[..4] == U32Bytes(v) && b[4..] == tail;
      U32RoundTrip(v);
    } else {
      assert b == tail;
    }
  }

  /** Reads the fields a mask names, in bit order, into the entity held so
      far at that index; also returns the bytes after them. */
  function ReadNetFields(mask: FieldMask, base: NetEntity, b: seq<byte>): Option<(NetEntity, seq<byte>)>
  {
    var x :- TakeFloat(b, mask.x, base.x);
    var y :- TakeFloat(x.1, mask.y, base.y);
    var vx :- TakeFloat(y.1, mask.vx, base.vx);
    var vy :- TakeFloat(vx.1, mask.vy, base.vy);
    var id :- TakeId(vy.1, mask.id, base.id);
    Some((NetEntity(id.0, x.0, y.0, vx.0, vy.0), id.1))
  }

  /** Applies one record to the receiver's list: the entity at the
      record's index takes the fields the record carries. */
  function ApplyNetRecord(cur: seq<NetEntity>, b: seq<byte>): Option<(seq<NetEntity>, seq<byte>)>
  {
    if |b| < 3 then None
    else
      var i := U16Value(b[..2]);
      if i >= |cur| then None
      else
        var read :- ReadNetFields(FieldMaskOfByte(b[2]), cur[i], b[3..]);
        Some((cur[i := read.0], read.1))
  }

  function ApplyNetRecords(cur: seq<NetEntity>, b: seq<byte>, n: nat): Option<(seq<NetEntity>, seq<byte>)>
    decreases n
  {
    if n == 0 then Some((cur, b))
    else
      var step :- ApplyNetRecord(cur, b);
      ApplyNetRecords(step.0, step.1, n - 1)
  }

  /** Decodes a delta packet against the receiver's list: the header and
      the updated list, or None when the bytes are not exactly a header,
      a count and that many records. */
  function DecodeDelta(before: seq<NetEntity>, b: seq<byte>): Option<(PacketHeader, seq<NetEntity>)>
  {
    if |b| < HEADER_SIZE + 2 then None
    else
      var h :- DecodeHeader(b);
      var res :- ApplyNetRecords(before, b[9..], U16Value(b[7..9]));
      if res.1 != [] then None else Some((h, res.0))
  }

  /** The fields a mask leaves out already hold the entity's values. */
  predicate Covers(mask: FieldMask, base: NetEntity, e: NetEntity)
  {
    (mask.x || base.x == e.x) && (mask.y || base.y == e.y) && (mask.vx || base.vx == e.vx) &&
    (mask.vy || base.vy == e.vy) && (mask.id || base.id == e.id)
  }

  /** A record's fields, right-nested in front of the bytes after it. */
  function FieldsThen(e: NetEntity, mask: FieldMask, tail: seq<byte>): seq<byte>
  {
    Field(mask.x, e.x) + (Field(mask.y, e.y) + (Field(mask.vx, e.vx) +
    (Field(mask.vy, e.vy) + (Field(mask.id, U32Bytes(e.id)) + tail))))
  }

  lemma ReadNetFieldsInverts(e: NetEntity, mask: FieldMask, base: NetEntity, tail: seq<byte>)
    requires Covers(mask, base, e)
    ensures ReadNetFields(mask, base, FieldsThen(e, mask, tail)) == Some((e, tail))
  {
    var t4 := Field(mask.id, U32Bytes(e.id)) + tail;
    var t3 := Field(mask.vy, e.vy) + t4;
    var t2 := Field(mask.vx, e.vx) + t3;
    var t1 := Field(mask.y, e.y) + t2;
    TakeFloatInverts(e.x, mask.x, base.x, t1);
    TakeFloatInverts(e.y, mask.y, base.y, t2);
    TakeFloatInverts(e.vx, mask.vx, base.vx, t3);
    TakeFloatInverts(e.vy, mask.vy, base.vy, t4);
    TakeIdInverts(e.id, mask.id, base.id, tail);
    ReadNetFieldsChain(e, mask, base, FieldsThen(e, mask, tail), t1, t2, t3, t4, tail);
  }

  lemma ReadNetFieldsChain(e: NetEntity, mask: FieldMask, base: NetEntity, b: seq<byte>,
                           t1: seq<byte>, t2: seq<byte>, t3: seq<byte>, t4: seq<byte>, tail: seq<byte>)
    requires TakeFloat(b, mask.x, base.x) == Some((e.x, t1))
    requires TakeFloat(t1, mask.y, base.y) == Some((e.y, t2))
    requires TakeFloat(t2, mask.vx, base.vx) == Some((e.vx, t3))
    requires TakeFloat(t3, mask.vy, base.vy) == Some((e.vy, t4))
    requires TakeId(t4, mask.id, base.id) == Some((e.id, tail))
    ensures ReadNetFields(mask, base, b) == Some((e, tail))
  {
  }

  lemma NetRecordLayout(i: nat, e: NetEntity, mask: FieldMask, tail: seq<byte>)
    ensures NetRecord(i, e, mask) + tail == U16Bytes(i % 0x1_0000) + [FieldMaskByte(mask)] + FieldsThen(e, mask, tail)
  {
    var f1 := Field(mask.x, e.x);
    var f2 := Field(mask.y, e.y);
    var f3 := Field(mask.vx, e.vx);
    var f4 := Field(mask.vy, e.vy);
    var f5 := Field(mask.id, U32Bytes(e.id));
    var h := U16Bytes(i % 0x1_0000) + [FieldMaskByte(mask)];
    assert NetFields(e, mask) + tail == FieldsThen(e, mask, tail) by {
      AppendAssoc(f1 + f2 + f3 + f4, f5, tail);
      AppendAssoc(f1 + f2 + f3, f4, f5 + tail);
      AppendAssoc(f1 + f2, f3, f4 + (f5 + tail));
      AppendAssoc(f1, f2, f3 + (f4 + (f5 + tail)));
    }
    AppendAssoc(h, NetFields(e, mask), tail);
  }

  /** A record for index `i` applied to a list whose entry there holds the
      fields the mask omits installs exactly `e` and consumes the record. */
  lemma ApplyNetRecordInverts(cur: seq<NetEntity>, i: nat, e: NetEntity, mask: FieldMask, tail: seq<byte>)
    requires i < |cur| && i < 0x1_0000 && Covers(mask, cur[i], e)
    ensures ApplyNetRecord(cur, NetRecord(i, e, mask) + tail) == Some((cur[i := e], tail))
  {
    var b := NetRecord(i, e, mask) + tail;
    NetRecordLayout(i, e, mask, tail);
    assert i % 0x1_0000 == i;
    assert b[..2] == U16Bytes(i) && b[2] == FieldMaskByte(mask) && b[3..] == FieldsThen(e, mask, tail);
    U16RoundTrip(i);
    FieldMaskRoundTrip(mask);
    ReadNetFieldsInverts(e, mask, cur[i], tail);
  }

  /** The receiver's list once the records of the indices below `lo` are
      applied: new entries there, old ones from `lo` on. */
  lemma MergeStep(cur: seq<NetEntity>, after: seq<NetEntity>, lo: nat)
    requires |cur| == |after| && lo < |cur|
    ensures cur[lo := after[lo]][..lo + 1] + after[lo + 1..] == cur[..lo] + after[lo..]
  {
  }

  /** A changed index: its record comes first, then the later ones'. */
  lemma ChangedStep(before: seq<NetEntity>, after: seq<NetEntity>, lo: nat, cur: seq<NetEntity>, tail: seq<byte>)
    requires |before| == |after| == |cur| < 0x1_0000 && lo < |before|
    requires cur[lo] == before[lo] && Diff(before[lo], after[lo]) != NO_FIELDS
    requires ApplyNetRecords(cur[lo := after[lo]], RecordsFrom(before, after, lo + 1, |before|) + tail,
                             ChangedFrom(before, after, lo + 1, |before|))
             == Some((cur[lo := after[lo]][..lo + 1] + after[lo + 1..], tail))
    ensures ApplyNetRecords(cur, RecordsFrom(before, after, lo, |before|) + tail, ChangedFrom(before, after, lo, |before|))
            == Some((cur[..lo] + after[lo..], tail))
  {
    var mask := Diff(before[lo], after[lo]);
    var cur' := cur[lo := after[lo]];
    var rec := NetRecord(lo, after[lo], mask);
    var rest := RecordsFrom(before, after, lo + 1, |before|);
    var k := ChangedFrom(before, after, lo + 1, |before|);
    assert RecordsFrom(before, after, lo, |before|) + tail == rec + (rest + tail) by {
      assert RecordsFrom(before, after, lo, |before|) == rec + rest;
      AppendAssoc(rec, rest, tail);
    }
    assert ChangedFrom(before, after, lo, |before|) == k + 1;
    assert ApplyNetRecords(cur, rec + (rest + tail), k + 1) == ApplyNetRecords(cur', rest + tail, k) by {
      ApplyNetRecordsStep(cur, lo, after[lo], mask, rest + tail, k);
    }
    assert cur'[..lo + 1] + after[lo + 1..] == cur[..lo] + after[lo..] by {
      MergeStep(cur, after, lo);
    }
  }

  /** One record at the front of the records still to apply. */
  lemma ApplyNetRecordsStep(cur: seq<NetEntity>, i: nat, e: NetEntity, mask: FieldMask, more: seq<byte>, n: nat)
    requires i < |cur| && i < 0x1_0000 && Covers(mask, cur[i], e)
    ensures ApplyNetRecords(cur, NetRecord(i, e, mask) + more, n + 1) == ApplyNetRecords(cur[i := e], more, n)
  {
    ApplyNetRecordInverts(cur, i, e, mask, more);
  }

  /** An unchanged index: no record, and the receiver already holds it. */
  lemma UnchangedStep(before: seq<NetEntity>, after: seq<NetEntity>, lo: nat, cur: seq<NetEntity>, tail: seq<byte>)
    requires |before| == |after| == |cur| && lo < |before|
    requires cur[lo] == before[lo] && Diff(before[lo], after[lo]) == NO_FIELDS
    requires ApplyNetRecords(cur[lo := after[lo]], RecordsFrom(before, after, lo + 1, |before|) + tail,
                             ChangedFrom(before, after, lo + 1, |before|))
             == Some((cur[lo := after[lo]][..lo + 1] + after[lo + 1..], tail))
    ensures ApplyNetRecords(cur, RecordsFrom(before, after, lo, |before|) + tail, ChangedFrom(before, after, lo, |before|))
            == Some((cur[..lo] + after[lo..], tail))
  {
    assert cur[lo := after[lo]] == cur by {
      assert after[lo] == cur[lo];
    }
    assert RecordsFrom(before, after, lo, |before|) == RecordsFrom(before, after, lo + 1, |before|) by {
      assert EntryAt(before, after, lo) == [];
    }
    assert ChangedFrom(before, after, lo, |before|) == ChangedFrom(before, after, lo + 1, |before|);
    assert cur[..lo + 1] + after[lo + 1..] == cur[..lo] + after[lo..] by {
      MergeStep(cur, after, lo);
    }
  }

  /** The records from index `lo` on, applied in order to a list that still
      holds the old entries from `lo` on, install the new entries there and
      consume exactly the records. */
  lemma {:induction false} ApplyBodyInverts(before: seq<NetEntity>, after: seq<NetEntity>, lo: nat,
                                            cur: seq<NetEntity>, tail: seq<byte>)
    requires |before| == |after| == |cur| < 0x1_0000 && lo <= |before|
    requires forall k :: lo <= k < |cur| ==> cur[k] == before[k]
    ensures ApplyNetRecords(cur, RecordsFrom(before, after, lo, |before|) + tail, ChangedFrom(before, after, lo, |before|))
            == Some((cur[..lo] + after[lo..], tail))
    decreases |before| - lo
  {
    if lo == |before| {
      assert RecordsFrom(before, after, lo, |before|) + tail == tail;
      assert cur[..lo] + after[lo..] == cur;
    } else {
      var cur' := cur[lo := after[lo]];
      ApplyBodyInverts(before, after, lo + 1, cur', tail);
      if Diff(before[lo], after[lo]) == NO_FIELDS {
        UnchangedStep(before, after, lo, cur, tail);
      } else {
        ChangedStep(before, after, lo, cur, tail);
      }
    }
  }

  /** The delta packet is lossless for fewer than 65536 entities: a
      receiver holding `before` decodes the rewritten header and ends with
      exactly `after`. */
  lemma DeltaPacketRoundTrip(before: seq<NetEntity>, after: seq<NetEntity>, tick: u32)
    requires |before| == |after| < 0x1_0000
    ensures DecodeDelta(before, DeltaPacketBytes(before, after, tick)) == Some((DeltaHeader(before, after, tick), after))
  {
    var n := ChangedFrom(before, after, 0, |before|);
    assert n % 0x1_0000 == n;
    var h := HeaderBytes(DeltaHeader(before, after, tick));
    var c := U16Bytes(n);
    var body := RecordsFrom(before, after, 0, |before|);
    var b := DeltaPacketBytes(before, after, tick);
    assert b == h + c + body;
    assert DecodeHeader(b) == Some(DeltaHeader(before, after, tick)) by {
      AppendAssoc(h, c, body);
      HeaderRoundTrip(DeltaHeader(before, after, tick), c + body);
    }
    assert U16Value(b[7..9]) == n && b[9..] == body by {
      PrefixSplit(h, c, body);
      U16RoundTrip(n);
    }
    AppendNil(body);
    ApplyBodyInverts(before, after, 0, before, []);
    assert before[..0] + after[0..] == after;
  }

  /** The header's size field is the packet's length exactly when that
      length fits 16 bits. */
  lemma DeltaSizeField(before: seq<NetEntity>, after: seq<NetEntity>, tick: u32)
    requires |before| == |after|
    ensures |DeltaPacketBytes(before, after, tick)| == HEADER_SIZE + 2 + |RecordsFrom(before, after, 0, |before|)|
    ensures DeltaHeader(before, after, tick).size == |DeltaPacketBytes(before, after, tick)| % 0x1_0000
    ensures DeltaHeader(before, after, tick).size == |DeltaPacketBytes(before, after, tick)|
        <==> |DeltaPacketBytes(before, after, tick)| < 0x1_0000
  {
    Truncate16(|DeltaPacketBytes(before, after, tick)|);
  }

  /** Two equal lists give no record: the packet is the 9-byte prefix with
      a zero count. */
  lemma {:induction false} SameListsNoRecords(es: seq<NetEntity>, lo: nat)
    requires lo <= |es|
    ensures RecordsFrom(es, es, lo, |es|) == [] && ChangedFrom(es, es, lo, |es|) == 0
    decreases |es| - lo
  {
    if lo < |es| {
      SameListsNoRecords(es, lo + 1);
      assert EntryAt(es, es, lo) == [];
    }
  }

  lemma DeltaOfSameLists(es: seq<NetEntity>, tick: u32)
    ensures DeltaPacketBytes(es, es, tick) == HeaderBytes(PacketHeader(HEADER_SIZE + 2, ServerSnapshotDelta, tick)) + U16Bytes(0)
  {
    SameListsNoRecords(es, 0);
    AppendNil(HeaderBytes(PacketHeader(HEADER_SIZE + 2, ServerSnapshotDelta, tick)) + U16Bytes(0));
  }
}
