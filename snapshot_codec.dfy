/** The two little-endian snapshot formats of core/src/deterministic_sim.cpp:
    the full format (`serializeFull`) and the change-masked delta format
    (`serializeDelta`), with decoders that invert them. */
module SnapshotCodec {
  import opened Wrappers
  import opened ByteOrder
  import opened Entities

  /** The growable byte vector the serialisers append to. */
  class ByteVector {
    var bytes: seq<byte>

    constructor ()
      ensures bytes == []
    {
      bytes := [];
    }

    /** `write_u8` */
    method WriteU8(v: byte)
      modifies this
      ensures bytes == old(bytes) + [v]
    {
      bytes := bytes + [v];
    }

    /** `write_u16` */
    method WriteU16(v: u16)
      modifies this
      ensures bytes == old(bytes) + U16Bytes(v)
    {
      bytes := bytes + [v % 0x100];
      bytes := bytes + [(v / 0x100) % 0x100];
    }

    /** `write_u32` */
    method WriteU32(v: u32)
      modifies this
      ensures bytes == old(bytes) + U32Bytes(v)
    {
      bytes := bytes + [v % 0x100];
      bytes := bytes + [(v / 0x100) % 0x100];
      bytes := bytes + [(v / 0x1_0000) % 0x100];
      bytes := bytes + [(v / 0x100_0000) % 0x100];
    }

    /** `write_i32`: the two's-complement pattern through `write_u32`. */
    method WriteI32(v: i32)
      modifies this
      ensures bytes == old(bytes) + I32Bytes(v)
    {
      WriteU32(Unsigned32(v));
    }

    /** `out[i] = b`: overwrites one byte and no other. */
    method Set(i: nat, b: byte)
      requires i < |bytes|
      modifies this
      ensures bytes == old(bytes)[i := b]
    {
      bytes := bytes[i := b];
    }
  }

  // ---------- Full format ----------

  /** One 25-byte full record: id, pos_x, pos_y, vel_x, vel_y, health (4 bytes
      each), then flags (1 byte). */
  function EntityRecord(e: EntityState): (r: seq<byte>)
    ensures |r| == 25
  {
    U32Bytes(e.id) + I32Bytes(e.posX) + I32Bytes(e.posY) + I32Bytes(e.velX) +
    I32Bytes(e.velY) + I32Bytes(e.health) + [e.flags]
  }

  function Records(es: seq<EntityState>): (r: seq<byte>)
    ensures |r| == 25 * |es|
  {
    if es == [] then [] else EntityRecord(es[0]) + Records(es[1..])
  }

  lemma {:induction false} RecordsAppend(es: seq<EntityState>, e: EntityState)
    ensures Records(es + [e]) == Records(es) + EntityRecord(e)
  {
    if es == [] {
      assert es + [e] == [e];
    } else {
      assert (es + [e])[1..] == es[1..] + [e];
      RecordsAppend(es[1..], e);
    }
  }

  /** The full format: LE `u32` tick, LE `u32` entity count (the size
      truncated to 32 bits), then one record per entity. */
  function FullBytes(snap: Snapshot): (r: seq<byte>)
    ensures |r| == 8 + 25 * |snap.entities|
  {
    U32Bytes(snap.serverTick) + U32Bytes(|snap.entities| % 0x1_0000_0000) + Records(snap.entities)
  }

  lemma RecordsStep(header: seq<byte>, es: seq<EntityState>, i: nat)
    requires i < |es|
    ensures header + Records(es[..i]) + EntityRecord(es[i]) == header + Records(es[..i + 1])
  {
    RecordsAppend(es[..i], es[i]);
    assert es[..i + 1] == es[..i] + [es[i]];
  }

  /** The body of `serializeFull`'s loop: one full record. */
  method WriteEntityRecord(out: ByteVector, e: EntityState)
    modifies out
    ensures out.bytes == old(out.bytes) + EntityRecord(e)
  {
    out.WriteU32(e.id);
    out.WriteI32(e.posX);
    out.WriteI32(e.posY);
    out.WriteI32(e.velX);
    out.WriteI32(e.velY);
    out.WriteI32(e.health);
    out.WriteU8(e.flags);
  }

  /** `serializeFull` */
  method SerializeFull(snap: Snapshot) returns (r: seq<byte>)
    ensures r == FullBytes(snap)
  {
    var out := new ByteVector();
    out.WriteU32(snap.serverTick);
    out.WriteU32(|snap.entities| % 0x1_0000_0000);
    ghost var header := out.bytes;
    for i := 0 to |snap.entities|
      invariant out.bytes == header + Records(snap.entities[..i])
    {
      WriteEntityRecord(out, snap.entities[i]);
      RecordsStep(header, snap.entities, i);
    }
    assert snap.entities[..|snap.entities|] == snap.entities;
    r := out.bytes;
  }

  function DecodeRecord(b: seq<byte>): EntityState
    requires |b| == 25
  {
    EntityState(U32Value(b[0..4]), I32Value(b[4..8]), I32Value(b[8..12]), I32Value(b[12..16]),
                I32Value(b[16..20]), I32Value(b[20..24]), b[24])
  }

  /** Consecutive 25-byte records; a trailing partial record is not read. */
  function DecodeRecords(b: seq<byte>): seq<EntityState>
    decreases |b|
  {
    if |b| < 25 then [] else [DecodeRecord(b[..25])] + DecodeRecords(b[25..])
  }

  /** A decoder for the full format: `None` unless the length matches the
      entity count exactly. */
  function DecodeFull(b: seq<byte>): Option<Snapshot>
  {
    if |b| < 8 then None
    else
      var n := U32Value(b[4..8]);
      if |b| != 8 + 25 * n then None
      else Some(Snapshot(U32Value(b[0..4]), DecodeRecords(b[8..])))
  }

  lemma DecodeRecordInverts(e: EntityState)
    ensures DecodeRecord(EntityRecord(e)) == e
  {
    var r := EntityRecord(e);
    U32RoundTrip(e.id);
    I32RoundTrip(e.posX);
    I32RoundTrip(e.posY);
    I32RoundTrip(e.velX);
    I32RoundTrip(e.velY);
    I32RoundTrip(e.health);
    assert r[0..4] == U32Bytes(e.id) && r[4..8] == I32Bytes(e.posX) && r[8..12] == I32Bytes(e.posY);
    assert r[12..16] == I32Bytes(e.velX) && r[16..20] == I32Bytes(e.velY) && r[20..24] == I32Bytes(e.health);
  }

  lemma {:induction false} DecodeRecordsInverts(es: seq<EntityState>)
    ensures DecodeRecords(Records(es)) == es
  {
    if es != [] {
      var r := Records(es);
      assert r[..25] == EntityRecord(es[0]) && r[25..] == Records(es[1..]);
      DecodeRecordInverts(es[0]);
      DecodeRecordsInverts(es[1..]);
    }
  }

  /** The full format is lossless: decoding it recovers the tick and every
      field of every entity, in order (whenever the count fits its 32 bits). */
  lemma FullRoundTrip(snap: Snapshot)
    requires |snap.entities| < 0x1_0000_0000
    ensures DecodeFull(FullBytes(snap)) == Some(snap)
  {
    var n := |snap.entities|;
    assert n % 0x1_0000_0000 == n;
    var b := FullBytes(snap);
    var tick := U32Bytes(snap.serverTick);
    var count := U32Bytes(n);
    var body := Records(snap.entities);
    assert b == tick + count + body;
    HeaderSplit(tick, count, body);
    U32RoundTrip(snap.serverTick);
    U32RoundTrip(n);
    assert U32Value(b[0..4]) == snap.serverTick && U32Value(b[4..8]) == n;
    DecodeRecordsInverts(snap.entities);
    assert DecodeRecords(b[8..]) == snap.entities;
  }

  /** The two 4-byte header fields and the payload of a message. */
  lemma HeaderSplit(a: seq<byte>, b: seq<byte>, c: seq<byte>)
    requires |a| == 4 && |b| == 4
    ensures (a + b + c)[0..4] == a && (a + b + c)[4..8] == b && (a + b + c)[8..] == c
  {
  }

  // ---------- Delta format ----------

  /** A change mask (`ChangeBits`): which of the six fields a delta record
      carries. */
  datatype Changes = Changes(posX: bool, posY: bool, velX: bool, velY: bool, health: bool, flags: bool)

  const NO_CHANGES := Changes(false, false, false, false, false, false)
  /** `CH_PosX | CH_PosY | CH_VelX | CH_VelY | CH_Health | CH_Flags`: the mask
      of an entity the reference map does not know. */
  const ALL_CHANGES := Changes(true, true, true, true, true, true)

  /** The bit weights `1 << k` of the `ChangeBits` enumerators. */
  const CH_POS_X: nat := 1
  const CH_POS_Y: nat := 2
  const CH_VEL_X: nat := 4
  const CH_VEL_Y: nat := 8
  const CH_HEALTH: nat := 16
  const CH_FLAGS: nat := 32

  /** The mask byte `write_u8` sends, written low bit first: bit k is set
      for the k-th field (pos_x, pos_y, vel_x, vel_y, health, flags). */
  function MaskByte(m: Changes): (b: byte)
    ensures b < 0x40
    ensures b == 0 <==> m == NO_CHANGES
  {
    Bit(m.posX, 1) + 2 * (Bit(m.posY, 1) + 2 * (Bit(m.velX, 1) + 2 * (
      Bit(m.velY, 1) + 2 * (Bit(m.health, 1) + 2 * Bit(m.flags, 1)))))
  }

  /** The mask byte is the OR of the `ChangeBits` enumerators of the fields
      it names (distinct bits, so the OR is their sum). */
  lemma MaskByteIsOrOfBits(m: Changes)
    ensures MaskByte(m) == Bit(m.posX, CH_POS_X) + Bit(m.posY, CH_POS_Y) + Bit(m.velX, CH_VEL_X) +
                           Bit(m.velY, CH_VEL_Y) + Bit(m.health, CH_HEALTH) + Bit(m.flags, CH_FLAGS)
  {
  }

  /** Reading the six field bits of a received mask byte, low bit first;
      bits 6 and 7 are ignored. */
  function MaskOfByte(b: byte): Changes
  {
    var b1 := b / 2;
    var b2 := b1 / 2;
    var b3 := b2 / 2;
    var b4 := b3 / 2;
    var b5 := b4 / 2;
    Changes(b % 2 == 1, b1 % 2 == 1, b2 % 2 == 1, b3 % 2 == 1, b4 % 2 == 1, b5 % 2 == 1)
  }

  /** The mask byte determines the mask. */
  lemma MaskRoundTrip(m: Changes)
    ensures MaskOfByte(MaskByte(m)) == m
  {
    var r5 := Bit(m.flags, 1);
    var r4 := Bit(m.health, 1) + 2 * r5;
    var r3 := Bit(m.velY, 1) + 2 * r4;
    var r2 := Bit(m.velX, 1) + 2 * r3;
    var r1 := Bit(m.posY, 1) + 2 * r2;
    var b := MaskByte(m);
    assert b == Bit(m.posX, 1) + 2 * r1;
    assert b % 2 == Bit(m.posX, 1) && b / 2 == r1 by { Halve(Bit(m.posX, 1), r1); }
    assert r1 % 2 == Bit(m.posY, 1) && r1 / 2 == r2 by { Halve(Bit(m.posY, 1), r2); }
    assert r2 % 2 == Bit(m.velX, 1) && r2 / 2 == r3 by { Halve(Bit(m.velX, 1), r3); }
    assert r3 % 2 == Bit(m.velY, 1) && r3 / 2 == r4 by { Halve(Bit(m.velY, 1), r4); }
    assert r4 % 2 == Bit(m.health, 1) && r4 / 2 == r5 by { Halve(Bit(m.health, 1), r5); }
    assert r5 % 2 == Bit(m.flags, 1);
  }

  /** The mask of an entity the reference map holds as `p`: a field's bit is
      set exactly when the field differs, and no bit is set exactly when the
      two agree on every field but the id. */
  function DiffMask(e: EntityState, p: EntityState): (m: Changes)
    ensures m == NO_CHANGES <==> p.(id := e.id) == e
  {
    Changes(e.posX != p.posX, e.posY != p.posY, e.velX != p.velX,
            e.velY != p.velY, e.health != p.health, e.flags != p.flags)
  }

  /** The mask `serializeDelta` computes for `e`: all fields for an id the
      reference map lacks, the changed fields otherwise. It is empty exactly
      when the reference holds the same field values under that id. */
  function MaskFor(e: EntityState, prev: map<u32, EntityState>): (m: Changes)
    ensures e.id !in prev ==> m == ALL_CHANGES && MaskByte(m) == 0x3F
    ensures m == NO_CHANGES <==> e.id in prev && prev[e.id].(id := e.id) == e
  {
    if e.id !in prev then ALL_CHANGES else DiffMask(e, prev[e.id])
  }

  /** One delta record: id, the mask byte, then only the fields whose bit is
      set, in bit order; `flags` takes one byte, the others four. */
  function DeltaRecord(e: EntityState, m: Changes): (r: seq<byte>)
    ensures |r| >= 5
  {
    U32Bytes(e.id) + [MaskByte(m)] +
    Field(m.posX, I32Bytes(e.posX)) + Field(m.posY, I32Bytes(e.posY)) +
    Field(m.velX, I32Bytes(e.velX)) + Field(m.velY, I32Bytes(e.velY)) +
    Field(m.health, I32Bytes(e.health)) + Field(m.flags, [e.flags])
  }

  /** What one entity contributes to the delta payload: nothing when its
      mask is empty. */
  function DeltaEntry(e: EntityState, prev: map<u32, EntityState>): seq<byte>
  {
    var m := MaskFor(e, prev);
    if m == NO_CHANGES then [] else DeltaRecord(e, m)
  }

  function DeltaBody(es: seq<EntityState>, prev: map<u32, EntityState>): seq<byte>
  {
    if es == [] then [] else DeltaEntry(es[0], prev) + DeltaBody(es[1..], prev)
  }

  /** The number of records in the payload. */
  function DeltaCount(es: seq<EntityState>, prev: map<u32, EntityState>): (n: nat)
    ensures n <= |es|
  {
    if es == [] then 0
    else (if MaskFor(es[0], prev) == NO_CHANGES then 0 else 1) + DeltaCount(es[1..], prev)
  }

  /** The delta format: LE `u32` tick, LE `u32` record count (32-bit
      wrap-around), then the records. */
  function DeltaBytes(snap: Snapshot, prev: map<u32, EntityState>): seq<byte>
  {
    U32Bytes(snap.serverTick) + U32Bytes(DeltaCount(snap.entities, prev) % 0x1_0000_0000) +
    DeltaBody(snap.entities, prev)
  }

  lemma {:induction false} DeltaAppend(es: seq<EntityState>, e: EntityState, prev: map<u32, EntityState>)
    ensures DeltaBody(es + [e], prev) == DeltaBody(es, prev) + DeltaEntry(e, prev)
    decreases |es|
  {
    if es == [] {
      assert es + [e] == [e];
      assert DeltaBody([e], prev) == DeltaEntry(e, prev) + [];
    } else {
      assert (es + [e])[0] == es[0] && (es + [e])[1..] == es[1..] + [e];
      DeltaAppend(es[1..], e, prev);
      AppendAssoc(DeltaEntry(es[0], prev), DeltaBody(es[1..], prev), DeltaEntry(e, prev));
    }
  }

  lemma {:induction false} DeltaCountAppend(es: seq<EntityState>, e: EntityState, prev: map<u32, EntityState>)
    ensures DeltaCount(es + [e], prev) == DeltaCount(es, prev) + (if MaskFor(e, prev) == NO_CHANGES then 0 else 1)
    decreases |es|
  {
    if es == [] {
      assert es + [e] == [e];
    } else {
      assert (es + [e])[0] == es[0] && (es + [e])[1..] == es[1..] + [e];
      DeltaCountAppend(es[1..], e, prev);
    }
  }

  /** One turn of the serializer's loop appends the next entity's entry. */
  lemma DeltaStep(header: seq<byte>, es: seq<EntityState>, i: nat, prev: map<u32, EntityState>)
    requires i < |es|
    ensures header + DeltaBody(es[..i + 1], prev) == header + DeltaBody(es[..i], prev) + DeltaEntry(es[i], prev)
  {
    var front := es[..i];
    var e := es[i];
    assert es[..i + 1] == front + [e];
    DeltaAppend(front, e, prev);
    AppendAssoc(header, DeltaBody(front, prev), DeltaEntry(e, prev));
  }

  /** One turn of the serializer's loop bumps the 32-bit count exactly when
      the entity got a record. */
  lemma CountStep(es: seq<EntityState>, i: nat, prev: map<u32, EntityState>)
    requires i < |es|
    ensures Count32(DeltaCount(es[..i + 1], prev)) ==
            if MaskFor(es[i], prev) == NO_CHANGES then Count32(DeltaCount(es[..i], prev))
            else Inc32(Count32(DeltaCount(es[..i], prev)))
  {
    var front := es[..i];
    var e := es[i];
    assert es[..i + 1] == front + [e];
    DeltaCountAppend(front, e, prev);
  }

  /** The body of `serializeDelta`'s loop once the mask is known: the id,
      the mask byte and the fields the mask names. */
  method WriteDeltaRecord(out: ByteVector, e: EntityState, mask: Changes)
    modifies out
    ensures out.bytes == old(out.bytes) + DeltaRecord(e, mask)
  {
    ghost var start := out.bytes;
    out.WriteU32(e.id);
    out.WriteU8(MaskByte(mask));
    ghost var rec := U32Bytes(e.id) + [MaskByte(mask)];
    AppendAssoc(start, U32Bytes(e.id), [MaskByte(mask)]);
    WriteField(out, mask.posX, e.posX);
    AppendAssoc(start, rec, Field(mask.posX, I32Bytes(e.posX)));
    rec := rec + Field(mask.posX, I32Bytes(e.posX));
    WriteField(out, mask.posY, e.posY);
    AppendAssoc(start, rec, Field(mask.posY, I32Bytes(e.posY)));
    rec := rec + Field(mask.posY, I32Bytes(e.posY));
    WriteField(out, mask.velX, e.velX);
    AppendAssoc(start, rec, Field(mask.velX, I32Bytes(e.velX)));
    rec := rec + Field(mask.velX, I32Bytes(e.velX));
    WriteField(out, mask.velY, e.velY);
    AppendAssoc(start, rec, Field(mask.velY, I32Bytes(e.velY)));
    rec := rec + Field(mask.velY, I32Bytes(e.velY));
    WriteField(out, mask.health, e.health);
    AppendAssoc(start, rec, Field(mask.health, I32Bytes(e.health)));
    rec := rec + Field(mask.health, I32Bytes(e.health));
    if mask.flags {
      out.WriteU8(e.flags);
    } else {
      AppendNil(out.bytes);
    }
    AppendAssoc(start, rec, Field(mask.flags, [e.flags]));
  }

  /** `if (mask & CH_X) write_i32(out, e.x);` for one `i32` field. */
  method WriteField(out: ByteVector, present: bool, v: i32)
    modifies out
    ensures out.bytes == old(out.bytes) + Field(present, I32Bytes(v))
  {
    if present {
      out.WriteI32(v);
    } else {
      AppendNil(out.bytes);
    }
  }

  /** The body of `serializeDelta`'s loop for one entity: computes its
      mask, skips an unchanged entity, and otherwise writes its record;
      reports whether a record was written. */
  method WriteDeltaEntry(out: ByteVector, e: EntityState, prevMap: map<u32, EntityState>) returns (written: bool)
    modifies out
    ensures out.bytes == old(out.bytes) + DeltaEntry(e, prevMap)
    ensures written <==> MaskFor(e, prevMap) != NO_CHANGES
  {
    var mask := NO_CHANGES;
    if e.id !in prevMap {
      mask := ALL_CHANGES;
    } else {
      mask := ChangedFields(e, prevMap[e.id]);
      if mask == NO_CHANGES {
        assert out.bytes + [] == out.bytes;
        return false;
      }
    }
    WriteDeltaRecord(out, e, mask);
    return true;
  }

  /** The `mask |= CH_X` steps of `serializeDelta` for an entity the
      reference map holds as `prev`. */
  method ChangedFields(e: EntityState, prev: EntityState) returns (mask: Changes)
    ensures mask == DiffMask(e, prev)
  {
    mask := NO_CHANGES;
    if e.posX != prev.posX { mask := mask.(posX := true); }
    if e.posY != prev.posY { mask := mask.(posY := true); }
    if e.velX != prev.velX { mask := mask.(velX := true); }
    if e.velY != prev.velY { mask := mask.(velY := true); }
    if e.health != prev.health { mask := mask.(health := true); }
    if e.flags != prev.flags { mask := mask.(flags := true); }
  }

  /** The "patch entity_count" step: the four count bytes at `pos` are
      overwritten, low byte first, with the final count. */
  method PatchU32(out: ByteVector, pos: nat, v: u32)
    requires pos + 4 <= |out.bytes|
    modifies out
    ensures out.bytes == old(out.bytes)[..pos] + U32Bytes(v) + old(out.bytes)[pos + 4..]
  {
    out.Set(pos + 0, v % 0x100);
    out.Set(pos + 1, (v / 0x100) % 0x100);
    out.Set(pos + 2, (v / 0x1_0000) % 0x100);
    out.Set(pos + 3, (v / 0x100_0000) % 0x100);
  }

  /** Splicing the real count over the placeholder gives the header of the
      delta format and leaves the records as they were. */
  lemma PatchCount(tick: u32, count: u32, body: seq<byte>)
    ensures var b := U32Bytes(tick) + U32Bytes(0) + body;
            b[..4] + U32Bytes(count) + b[8..] == U32Bytes(tick) + U32Bytes(count) + body
  {
    var b := U32Bytes(tick) + U32Bytes(0) + body;
    assert b[..4] == U32Bytes(tick) && b[8..] == body;
  }

  /** `serializeDelta`'s loop: appends the record of every entity whose
      mask is not empty and counts them in a `uint32_t`. */
  method WriteDeltaBody(out: ByteVector, es: seq<EntityState>, prevMap: map<u32, EntityState>)
    returns (entityCount: u32)
    modifies out
    ensures out.bytes == old(out.bytes) + DeltaBody(es, prevMap)
    ensures entityCount == Count32(DeltaCount(es, prevMap))
  {
    ghost var header := out.bytes;
    entityCount := 0;
    for i := 0 to |es|
      invariant out.bytes == header + DeltaBody(es[..i], prevMap)
      invariant entityCount == Count32(DeltaCount(es[..i], prevMap))
    {
      DeltaStep(header, es, i, prevMap);
      CountStep(es, i, prevMap);
      var written := WriteDeltaEntry(out, es[i], prevMap);
      if written {
        entityCount := Inc32(entityCount);
      }
    }
    assert es[..|es|] == es;
  }

  /** `serializeDelta`: the tick, a placeholder count, the records, and the
      real count patched over the placeholder. */
  method SerializeDelta(snap: Snapshot, prevMap: map<u32, EntityState>) returns (r: seq<byte>)
    ensures r == DeltaBytes(snap, prevMap)
  {
    var out := new ByteVector();
    out.WriteU32(snap.serverTick);
    var countPos := |out.bytes|;
    out.WriteU32(0);
    var entityCount := WriteDeltaBody(out, snap.entities, prevMap);
    Count32IsMod(DeltaCount(snap.entities, prevMap));
    PatchU32(out, countPos, entityCount);
    PatchCount(snap.serverTick, entityCount, DeltaBody(snap.entities, prevMap));
    r := out.bytes;
  }

  // ---------- Reading a delta back ----------

  /** Reads one optional `i32` field: four bytes when its bit is set,
      otherwise the value held so far; returns the unread bytes too. */
  function TakeI32(b: seq<byte>, present: bool, current: i32): Option<(i32, seq<byte>)>
  {
    if !present then Some((current, b))
    else if |b| < 4 then None
    else Some((I32Value(b[..4]), b[4..]))
  }

  /** Reads the optional one-byte `flags` field. */
  function TakeU8(b: seq<byte>, present: bool, current: byte): Option<(byte, seq<byte>)>
  {
    if !present then Some((current, b))
    else if |b| < 1 then None
    else Some((b[0], b[1..]))
  }

  /** Reading an optional field gives back the value it was written from,
      provided that an absent field's value is the one already held. */
  lemma TakeI32Inverts(v: i32, present: bool, current: i32, tail: seq<byte>)
    requires present || current == v
    ensures TakeI32(Field(present, I32Bytes(v)) + tail, present, current) == Some((v, tail))
  {
    var b := Field(present, I32Bytes(v)) + tail;
    if present {
      assert b[..4] == I32Bytes(v) && b[4..] == tail;
      I32RoundTrip(v);
    } else {
      assert b == tail;
    }
  }

  /** The same for the one-byte `flags` field. */
  lemma TakeU8Inverts(v: byte, present: bool, current: byte, tail: seq<byte>)
    requires present || current == v
    ensures TakeU8(Field(present, [v]) + tail, present, current) == Some((v, tail))
  {
    var b := Field(present, [v]) + tail;
    if present {
      assert b[0] == v && b[1..] == tail;
    } else {
      assert b == tail;
    }
  }

  /** The state a receiver holds for `id` before a record: its entry, or an
      all-zero state for an id it has not seen. */
  function Base(m: map<u32, EntityState>, id: u32): EntityState
  {
    if id in m then m[id] else EntityState(id, 0, 0, 0, 0, 0, 0)
  }

  /** Reads the fields a mask names, in bit order, into the state held so
      far for entity `id`; also returns the bytes after them. */
  function ReadFields(id: u32, mask: Changes, base: EntityState, b: seq<byte>): Option<(EntityState, seq<byte>)>
  {
    var px :- TakeI32(b, mask.posX, base.posX);
    var py :- TakeI32(px.1, mask.posY, base.posY);
    var vx :- TakeI32(py.1, mask.velX, base.velX);
    var vy :- TakeI32(vx.1, mask.velY, base.velY);
    var hp :- TakeI32(vy.1, mask.health, base.health);
    var fl :- TakeU8(hp.1, mask.flags, base.flags);
    Some((EntityState(id, px.0, py.0, vx.0, vy.0, hp.0, fl.0), fl.1))
  }

  /** Applies one delta record to the receiver's map: the entity under the
      record's id takes the fields the record carries and keeps the others;
      also returns the bytes after the record. */
  function ApplyRecord(m: map<u32, EntityState>, b: seq<byte>): Option<(map<u32, EntityState>, seq<byte>)>
  {
    if |b| < 5 then None
    else
      var id := U32Value(b[..4]);
      var read :- ReadFields(id, MaskOfByte(b[4]), Base(m, id), b[5..]);
      Some((m[id := read.0], read.1))
  }

  /** Applies `n` consecutive records. */
  function ApplyRecords(m: map<u32, EntityState>, b: seq<byte>, n: nat): Option<(map<u32, EntityState>, seq<byte>)>
    decreases n
  {
    if n == 0 then Some((m, b))
    else
      var step :- ApplyRecord(m, b);
      ApplyRecords(step.0, step.1, n - 1)
  }

  /** Decodes a delta payload against the receiver's map: the tick and the
      updated map, or None when the bytes are not exactly a header and the
      announced number of records. */
  function ApplyDelta(prev: map<u32, EntityState>, b: seq<byte>): Option<(u32, map<u32, EntityState>)>
  {
    if |b| < 8 then None
    else
      var res :- ApplyRecords(prev, b[8..], U32Value(b[4..8]));
      if res.1 != [] then None else Some((U32Value(b[..4]), res.0))
  }

  /** The fields a mask leaves out already hold the entity's values. */
  predicate Covers(mask: Changes, base: EntityState, e: EntityState)
  {
    (mask.posX || base.posX == e.posX) && (mask.posY || base.posY == e.posY) &&
    (mask.velX || base.velX == e.velX) && (mask.velY || base.velY == e.velY) &&
    (mask.health || base.health == e.health) && (mask.flags || base.flags == e.flags)
  }

  /** The fields of a record, right-nested in front of the bytes after it. */
  function FieldsThen(e: EntityState, mask: Changes, tail: seq<byte>): seq<byte>
  {
    Field(mask.posX, I32Bytes(e.posX)) + (Field(mask.posY, I32Bytes(e.posY)) +
    (Field(mask.velX, I32Bytes(e.velX)) + (Field(mask.velY, I32Bytes(e.velY)) +
    (Field(mask.health, I32Bytes(e.health)) + (Field(mask.flags, [e.flags]) + tail)))))
  }

  /** Reading the fields a mask names gives back the entity, given that the
      state held so far has the fields the mask omits. */
  lemma ReadFieldsInverts(e: EntityState, mask: Changes, base: EntityState, tail: seq<byte>)
    requires Covers(mask, base, e)
    ensures ReadFields(e.id, mask, base, FieldsThen(e, mask, tail)) == Some((e, tail))
  {
    var t5 := Field(mask.flags, [e.flags]) + tail;
    var t4 := Field(mask.health, I32Bytes(e.health)) + t5;
    var t3 := Field(mask.velY, I32Bytes(e.velY)) + t4;
    var t2 := Field(mask.velX, I32Bytes(e.velX)) + t3;
    var t1 := Field(mask.posY, I32Bytes(e.posY)) + t2;
    TakeI32Inverts(e.posX, mask.posX, base.posX, t1);
    TakeI32Inverts(e.posY, mask.posY, base.posY, t2);
    TakeI32Inverts(e.velX, mask.velX, base.velX, t3);
    TakeI32Inverts(e.velY, mask.velY, base.velY, t4);
    TakeI32Inverts(e.health, mask.health, base.health, t5);
    TakeU8Inverts(e.flags, mask.flags, base.flags, tail);
    ReadFieldsChain(e, mask, base, FieldsThen(e, mask, tail), t1, t2, t3, t4, t5, tail);
  }

  /** `ReadFields` succeeds with `e` once each field read in turn yields
      `e`'s value and leaves the next stretch of bytes. */
  lemma ReadFieldsChain(e: EntityState, mask: Changes, base: EntityState, b: seq<byte>,
                        t1: seq<byte>, t2: seq<byte>, t3: seq<byte>, t4: seq<byte>, t5: seq<byte>, tail: seq<byte>)
    requires TakeI32(b, mask.posX, base.posX) == Some((e.posX, t1))
    requires TakeI32(t1, mask.posY, base.posY) == Some((e.posY, t2))
    requires TakeI32(t2, mask.velX, base.velX) == Some((e.velX, t3))
    requires TakeI32(t3, mask.velY, base.velY) == Some((e.velY, t4))
    requires TakeI32(t4, mask.health, base.health) == Some((e.health, t5))
    requires TakeU8(t5, mask.flags, base.flags) == Some((e.flags, tail))
    ensures ReadFields(e.id, mask, base, b) == Some((e, tail))
  {
  }

  /** A record followed by more bytes is its id, its mask byte, then its
      fields and the bytes after it. */
  lemma RecordLayout(e: EntityState, mask: Changes, tail: seq<byte>)
    ensures DeltaRecord(e, mask) + tail == U32Bytes(e.id) + [MaskByte(mask)] + FieldsThen(e, mask, tail)
  {
    var f1 := Field(mask.posX, I32Bytes(e.posX));
    var f2 := Field(mask.posY, I32Bytes(e.posY));
    var f3 := Field(mask.velX, I32Bytes(e.velX));
    var f4 := Field(mask.velY, I32Bytes(e.velY));
    var f5 := Field(mask.health, I32Bytes(e.health));
    var f6 := Field(mask.flags, [e.flags]);
    var h := U32Bytes(e.id) + [MaskByte(mask)];
    AppendAssoc(h + f1 + f2 + f3 + f4 + f5, f6, tail);
    AppendAssoc(h + f1 + f2 + f3 + f4, f5, f6 + tail);
    AppendAssoc(h + f1 + f2 + f3, f4, f5 + (f6 + tail));
    AppendAssoc(h + f1 + f2, f3, f4 + (f5 + (f6 + tail)));
    AppendAssoc(h + f1, f2, f3 + (f4 + (f5 + (f6 + tail))));
    AppendAssoc(h, f1, f2 + (f3 + (f4 + (f5 + (f6 + tail)))));
  }

  /** A record applied to a receiver that already holds the fields its mask
      omits installs exactly the entity, and consumes exactly the record. */
  lemma ApplyRecordInverts(m: map<u32, EntityState>, e: EntityState, mask: Changes, tail: seq<byte>)
    requires Covers(mask, Base(m, e.id), e)
    ensures ApplyRecord(m, DeltaRecord(e, mask) + tail) == Some((m[e.id := e], tail))
  {
    var b := DeltaRecord(e, mask) + tail;
    var rest := FieldsThen(e, mask, tail);
    RecordLayout(e, mask, tail);
    assert b[..4] == U32Bytes(e.id) && b[4] == MaskByte(mask) && b[5..] == rest;
    U32RoundTrip(e.id);
    MaskRoundTrip(mask);
    ReadFieldsInverts(e, mask, Base(m, e.id), tail);
  }

  /** The mask sent for `e` leaves out only fields a receiver holding the
      reference entry for `e.id` already has. */
  lemma MaskCovers(e: EntityState, prev: map<u32, EntityState>, m: map<u32, EntityState>)
    requires e.id in prev ==> e.id in m && m[e.id] == prev[e.id]
    ensures Covers(MaskFor(e, prev), Base(m, e.id), e)
  {
  }

  /** One record at the front of the records still to apply. */
  lemma ApplyRecordsStep(m: map<u32, EntityState>, e: EntityState, mask: Changes, more: seq<byte>, n: nat)
    requires Covers(mask, Base(m, e.id), e)
    ensures ApplyRecords(m, DeltaRecord(e, mask) + more, n + 1) == ApplyRecords(m[e.id := e], more, n)
  {
    ApplyRecordInverts(m, e, mask, more);
  }

  /** The first entity's part of a payload followed by the rest. */
  lemma DeltaFront(es: seq<EntityState>, prev: map<u32, EntityState>, tail: seq<byte>)
    requires es != []
    ensures DeltaBody(es, prev) + tail == DeltaEntry(es[0], prev) + (DeltaBody(es[1..], prev) + tail)
  {
    AppendAssoc(DeltaEntry(es[0], prev), DeltaBody(es[1..], prev), tail);
  }

  /** A changed or new entity: its record comes first, then the others'. */
  lemma ChangedStep(es: seq<EntityState>, prev: map<u32, EntityState>, m: map<u32, EntityState>, tail: seq<byte>)
    requires es != [] && MaskFor(es[0], prev) != NO_CHANGES
    requires es[0].id in prev ==> es[0].id in m && m[es[0].id] == prev[es[0].id]
    requires ApplyRecords(m[es[0].id := es[0]], DeltaBody(es[1..], prev) + tail, DeltaCount(es[1..], prev))
             == Some((Insert(m[es[0].id := es[0]], es[1..]), tail))
    ensures ApplyRecords(m, DeltaBody(es, prev) + tail, DeltaCount(es, prev)) == Some((Insert(m, es), tail))
  {
    var e := es[0];
    var mask := MaskFor(e, prev);
    var more := DeltaBody(es[1..], prev) + tail;
    DeltaFront(es, prev, tail);
    assert DeltaEntry(e, prev) == DeltaRecord(e, mask);
    MaskCovers(e, prev, m);
    ApplyRecordsStep(m, e, mask, more, DeltaCount(es[1..], prev));
  }

  /** An unchanged entity: no record, and the receiver already holds it. */
  lemma UnchangedStep(es: seq<EntityState>, prev: map<u32, EntityState>, m: map<u32, EntityState>, tail: seq<byte>)
    requires es != [] && MaskFor(es[0], prev) == NO_CHANGES && Keyed(prev)
    requires es[0].id in prev ==> es[0].id in m && m[es[0].id] == prev[es[0].id]
    requires ApplyRecords(m[es[0].id := es[0]], DeltaBody(es[1..], prev) + tail, DeltaCount(es[1..], prev))
             == Some((Insert(m[es[0].id := es[0]], es[1..]), tail))
    ensures ApplyRecords(m, DeltaBody(es, prev) + tail, DeltaCount(es, prev)) == Some((Insert(m, es), tail))
  {
    var e := es[0];
    assert prev[e.id].id == e.id;
    UpdateSame(m, e.id, e);
    UnchangedFront(es, prev, tail);
  }

  lemma UpdateSame(m: map<u32, EntityState>, k: u32, v: EntityState)
    requires k in m && m[k] == v
    ensures m[k := v] == m
  {
  }

  /** An unchanged first entity contributes neither bytes nor a count. */
  lemma UnchangedFront(es: seq<EntityState>, prev: map<u32, EntityState>, tail: seq<byte>)
    requires es != [] && MaskFor(es[0], prev) == NO_CHANGES
    ensures DeltaBody(es, prev) + tail == DeltaBody(es[1..], prev) + tail
    ensures DeltaCount(es, prev) == DeltaCount(es[1..], prev)
  {
    assert DeltaEntry(es[0], prev) == [];
    assert DeltaBody(es, prev) == DeltaBody(es[1..], prev);
  }

  /** The records of a payload, applied in order to a receiver that holds
      the reference entry for every id the entities share with the
      reference map, install every entity under its id and consume exactly
      the payload. Unchanged entities have no record, and the receiver
      already holds them. */
  lemma {:induction false} ApplyBodyInverts(es: seq<EntityState>, prev: map<u32, EntityState>,
                                            m: map<u32, EntityState>, tail: seq<byte>)
    requires UniqueIds(es) && Keyed(prev)
    requires forall i :: 0 <= i < |es| && es[i].id in prev ==> es[i].id in m && m[es[i].id] == prev[es[i].id]
    ensures ApplyRecords(m, DeltaBody(es, prev) + tail, DeltaCount(es, prev)) == Some((Insert(m, es), tail))
    decreases |es|
  {
    if es == [] {
      assert DeltaBody(es, prev) + tail == tail;
    } else {
      var rest := es[1..];
      var m' := m[es[0].id := es[0]];
      assert UniqueIds(rest) by {
        forall i, j | 0 <= i < j < |rest| ensures rest[i].id != rest[j].id {
          assert rest[i] == es[i + 1] && rest[j] == es[j + 1];
        }
      }
      forall i | 0 <= i < |rest| && rest[i].id in prev
        ensures rest[i].id in m' && m'[rest[i].id] == prev[rest[i].id]
      {
        assert rest[i] == es[i + 1] && es[0].id != es[i + 1].id;
      }
      ApplyBodyInverts(rest, prev, m', tail);
      if MaskFor(es[0], prev) == NO_CHANGES {
        UnchangedStep(es, prev, m, tail);
      } else {
        ChangedStep(es, prev, m, tail);
      }
    }
  }

  /** The delta format is lossless relative to its reference: a receiver
      holding the reference map decodes the tick and ends with the reference
      map updated by every entity of the snapshot (given distinct ids, an
      id-keyed reference, and a count that fits its 32 bits). */
  lemma DeltaRoundTrip(snap: Snapshot, prev: map<u32, EntityState>)
    requires UniqueIds(snap.entities) && Keyed(prev) && |snap.entities| < 0x1_0000_0000
    ensures ApplyDelta(prev, DeltaBytes(snap, prev)) == Some((snap.serverTick, Insert(prev, snap.entities)))
  {
    var n := DeltaCount(snap.entities, prev);
    assert n % 0x1_0000_0000 == n;
    var b := DeltaBytes(snap, prev);
    var tick := U32Bytes(snap.serverTick);
    var count := U32Bytes(n);
    var body := DeltaBody(snap.entities, prev);
    assert b == tick + count + body;
    HeaderSplit(tick, count, body);
    U32RoundTrip(snap.serverTick);
    U32RoundTrip(n);
    assert U32Value(b[..4]) == snap.serverTick && U32Value(b[4..8]) == n;
    AppendNil(body);
    ApplyBodyInverts(snap.entities, prev, prev, []);
  }

  /** What the receiver ends with: every snapshot entity under its id, every
      other entry of the reference untouched, and no other key. */
  lemma DeltaSyncsReceiver(snap: Snapshot, prev: map<u32, EntityState>)
    requires UniqueIds(snap.entities) && Keyed(prev) && |snap.entities| < 0x1_0000_0000
    ensures ApplyDelta(prev, DeltaBytes(snap, prev)).Some?
    ensures var got := ApplyDelta(prev, DeltaBytes(snap, prev)).value.1;
            && got.Keys == prev.Keys + (set e | e in snap.entities :: e.id)
            && (forall i :: 0 <= i < |snap.entities| ==> got[snap.entities[i].id] == snap.entities[i])
            && (forall k :: k in prev && (forall i :: 0 <= i < |snap.entities| ==> snap.entities[i].id != k) ==>
                  got[k] == prev[k])
  {
    DeltaRoundTrip(snap, prev);
    InsertFinds(prev, snap.entities);
  }

  /** Entities the reference already holds unchanged produce no record. */
  lemma {:induction false} UnchangedProduceNothing(es: seq<EntityState>, prev: map<u32, EntityState>)
    requires forall i :: 0 <= i < |es| ==> es[i].id in prev && prev[es[i].id] == es[i]
    ensures DeltaBody(es, prev) == [] && DeltaCount(es, prev) == 0
    decreases |es|
  {
    if es != [] {
      assert es[0].id in prev && prev[es[0].id] == es[0];
      forall i | 0 <= i < |es[1..]| ensures es[1..][i].id in prev && prev[es[1..][i].id] == es[1..][i] {
        assert es[1..][i] == es[i + 1];
      }
      UnchangedProduceNothing(es[1..], prev);
    }
  }

  /** A delta against the snapshot's own map is just the 8-byte header with
      a zero count (the demo's "nothing changing" ticks). */
  lemma DeltaAgainstItself(snap: Snapshot)
    requires UniqueIds(snap.entities)
    ensures DeltaBytes(snap, MapOf(snap.entities)) == U32Bytes(snap.serverTick) + U32Bytes(0)
  {
    InsertFinds(map[], snap.entities);
    UnchangedProduceNothing(snap.entities, MapOf(snap.entities));
    AppendNil(U32Bytes(snap.serverTick) + U32Bytes(0));
  }

  /** Against an empty reference every entity is new and sent whole: one
      26-byte record each (one byte more than the full format's record). */
  lemma {:induction false} NewEntitiesSentWhole(es: seq<EntityState>)
    ensures DeltaCount(es, map[]) == |es|
    ensures |DeltaBody(es, map[])| == 26 * |es|
    decreases |es|
  {
    if es != [] {
      NewEntitiesSentWhole(es[1..]);
    }
  }
}
