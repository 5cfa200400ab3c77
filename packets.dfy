/** The packed wire structures of core/src/net/packets.h: the packet type
    byte, the 7-byte `PacketHeader`, the 20-byte network `EntityState`, the
    fixed-size `ClientInputPacket`, and the full snapshot written by
    `serializeSnapshot` through a `BufferWriter`. */
module Packets {
  import opened Wrappers
  import opened ByteOrder
  import opened PacketBuffers

  // ---------- Framing ----------

  /** `PacketType`, sent as one byte. */
  datatype PacketType = Invalid | ClientInput | ServerSnapshot | ServerSnapshotDelta

  function TypeCode(t: PacketType): (b: byte)
    ensures b < 4
  {
    match t
    case Invalid => 0
    case ClientInput => 1
    case ServerSnapshot => 2
    case ServerSnapshotDelta => 3
  }

  /** The packet type a received byte names, if any. */
  function TypeOfCode(b: byte): (r: Option<PacketType>)
    ensures r.Some? <==> b < 4
    ensures r.Some? ==> TypeCode(r.value) == b
  {
    if b == 0 then Some(Invalid)
    else if b == 1 then Some(ClientInput)
    else if b == 2 then Some(ServerSnapshot)
    else if b == 3 then Some(ServerSnapshotDelta)
    else None
  }

  /** `PacketHeader`: total size, type and tick, packed without padding. */
  datatype PacketHeader = PacketHeader(size: u16, ptype: PacketType, tick: u32)

  /** `sizeof(PacketHeader)` and `sizeof(EntityState)` under `pack(1)`. */
  const HEADER_SIZE: nat := 7
  const ENTITY_SIZE: nat := 20

  /** The bytes `write(header)` copies: size (2), type (1), tick (4). */
  function HeaderBytes(h: PacketHeader): (r: seq<byte>)
    ensures |r| == HEADER_SIZE
  {
    U16Bytes(h.size) + [TypeCode(h.ptype)] + U32Bytes(h.tick)
  }

  /** Reads a header from the front of a packet. */
  function DecodeHeader(b: seq<byte>): Option<PacketHeader>
  {
    if |b| < HEADER_SIZE then None
    else
      var t :- TypeOfCode(b[2]);
      Some(PacketHeader(U16Value(b[..2]), t, U32Value(b[3..7])))
  }

  lemma HeaderRoundTrip(h: PacketHeader, tail: seq<byte>)
    ensures DecodeHeader(HeaderBytes(h) + tail) == Some(h)
  {
    var b := HeaderBytes(h) + tail;
    assert b[..2] == U16Bytes(h.size) && b[2] == TypeCode(h.ptype) && b[3..7] == U32Bytes(h.tick);
    U16RoundTrip(h.size);
    U32RoundTrip(h.tick);
    assert TypeOfCode(TypeCode(h.ptype)) == Some(h.ptype);
  }

  /** A packet's header, its 16-bit count, and the bytes after them. */
  lemma PrefixSplit(h: seq<byte>, c: seq<byte>, rest: seq<byte>)
    requires |h| == HEADER_SIZE && |c| == 2
    ensures (h + c + rest)[7..9] == c && (h + c + rest)[9..] == rest
  {
  }

  // ---------- Entities ----------

  /** A `float` field, kept as the four bytes `memcpy` moves. */
  type Float32 = b: seq<byte> | |b| == 4 witness [0, 0, 0, 0]

  /** The network `EntityState`: an id and four floats. */
  datatype NetEntity = NetEntity(id: u32, x: Float32, y: Float32, vx: Float32, vy: Float32)

  /** `EntityState::operator!=`: some field differs. */
  function Differs(a: NetEntity, b: NetEntity): (r: bool)
    ensures r <==> a != b
  {
    a.id != b.id || a.x != b.x || a.y != b.y || a.vx != b.vx || a.vy != b.vy
  }

  /** The 20 bytes `write(e)` copies: id, x, y, vx, vy. */
  function EntityBytes(e: NetEntity): (r: seq<byte>)
    ensures |r| == ENTITY_SIZE
  {
    U32Bytes(e.id) + e.x + e.y + e.vx + e.vy
  }

  function DecodeEntity(b: seq<byte>): NetEntity
    requires |b| == ENTITY_SIZE
  {
    NetEntity(U32Value(b[..4]), b[4..8], b[8..12], b[12..16], b[16..20])
  }

  lemma DecodeEntityInverts(e: NetEntity)
    ensures DecodeEntity(EntityBytes(e)) == e
  {
    var b := EntityBytes(e);
    assert b[..4] == U32Bytes(e.id) && b[4..8] == e.x && b[8..12] == e.y;
    assert b[12..16] == e.vx;
    assert b[16..] == e.vy;
    assert b[16..20] == e.vy;
    U32RoundTrip(e.id);
  }

  function EntitiesBytes(es: seq<NetEntity>): (r: seq<byte>)
    ensures |r| == ENTITY_SIZE * |es|
  {
    if es == [] then [] else EntityBytes(es[0]) + EntitiesBytes(es[1..])
  }

  lemma {:induction false} EntitiesAppend(es: seq<NetEntity>, e: NetEntity)
    ensures EntitiesBytes(es + [e]) == EntitiesBytes(es) + EntityBytes(e)
  {
    if es == [] {
      assert es + [e] == [e];
    } else {
      assert (es + [e])[1..] == es[1..] + [e];
      EntitiesAppend(es[1..], e);
    }
  }

  /** Consecutive 20-byte entities; a trailing partial entity is not read. */
  function DecodeEntities(b: seq<byte>): seq<NetEntity>
    decreases |b|
  {
    if |b| < ENTITY_SIZE then [] else [DecodeEntity(b[..ENTITY_SIZE])] + DecodeEntities(b[ENTITY_SIZE..])
  }

  lemma {:induction false} DecodeEntitiesInverts(es: seq<NetEntity>)
    ensures DecodeEntities(EntitiesBytes(es)) == es
  {
    if es != [] {
      var b := EntitiesBytes(es);
      assert b[..ENTITY_SIZE] == EntityBytes(es[0]) && b[ENTITY_SIZE..] == EntitiesBytes(es[1..]);
      DecodeEntityInverts(es[0]);
      DecodeEntitiesInverts(es[1..]);
    }
  }

  // ---------- Writing through a cursor ----------

  /** The writer has put `written` at the front of a buffer that held
      `orig`, its cursor sits right after it, and the rest of the buffer
      still holds `orig`. */
  ghost predicate Wrote(w: BufferWriter, written: seq<byte>, orig: seq<byte>)
    reads w, w.data
  {
    w.Valid() && w.offset == |written| && |orig| == w.data.Length && |written| <= |orig| &&
    w.data[..] == written + orig[|written|..]
  }

  /** One `write` through the cursor extends what has been written. */
  method Emit(w: BufferWriter, src: seq<byte>, ghost written: seq<byte>, ghost orig: seq<byte>)
    requires Wrote(w, written, orig) && |written| + |src| <= w.capacity
    modifies w, w.data
    ensures Wrote(w, written + src, orig)
  {
    ghost var d := w.data[..];
    assert d[..|written|] == written;
    assert d[|written| + |src|..] == orig[|written| + |src|..];
    w.WriteRaw(src);
  }

  // ---------- Full snapshot ----------

  /** `SnapshotPacket::computeSize`: header, count, and one packed entity
      per counted entity. */
  function ComputeSize(entityCount: u16): (r: nat)
    ensures r >= HEADER_SIZE + 2 && (r - HEADER_SIZE - 2) % ENTITY_SIZE == 0
    ensures r < 0x1_0000 <==> entityCount <= 3276
  {
    HEADER_SIZE + 2 + entityCount * ENTITY_SIZE
  }

  /** The header `serializeSnapshot` writes for `n` entities: the count and
      then the computed size are each cut to 16 bits. */
  function SnapshotHeader(n: nat, tick: u32): PacketHeader
  {
    PacketHeader(ComputeSize(n % 0x1_0000) % 0x1_0000, ServerSnapshot, tick)
  }

  /** The full snapshot packet: header, `(u16)` count, then every entity in
      order (all of them, whatever the count says). */
  function SnapshotBytes(es: seq<NetEntity>, tick: u32): seq<byte>
  {
    HeaderBytes(SnapshotHeader(|es|, tick)) + U16Bytes(|es| % 0x1_0000) + EntitiesBytes(es)
  }

  /** A decoder for the full snapshot: `None` unless the length matches the
      count exactly. */
  function DecodeSnapshot(b: seq<byte>): Option<(PacketHeader, seq<NetEntity>)>
  {
    if |b| < HEADER_SIZE + 2 then None
    else
      var h :- DecodeHeader(b);
      var count := U16Value(b[7..9]);
      if |b| != HEADER_SIZE + 2 + ENTITY_SIZE * count then None
      else Some((h, DecodeEntities(b[9..])))
  }

  /** The packet is 9 + 20·n bytes long, which is `computeSize()` while the
      count fits 16 bits; its header records that length modulo 2^16, and
      exactly when it fits 16 bits. */
  lemma SnapshotSize(es: seq<NetEntity>, tick: u32)
    ensures |SnapshotBytes(es, tick)| == HEADER_SIZE + 2 + ENTITY_SIZE * |es|
    ensures |es| < 0x1_0000 ==> |SnapshotBytes(es, tick)| == ComputeSize(|es|)
    ensures SnapshotHeader(|es|, tick).size == |SnapshotBytes(es, tick)| % 0x1_0000
    ensures SnapshotHeader(|es|, tick).size == |SnapshotBytes(es, tick)| <==> |es| <= 3276
  {
    var n := |es|;
    var total := HEADER_SIZE + 2 + ENTITY_SIZE * n;
    assert |SnapshotBytes(es, tick)| == total;
    var q, r := n / 0x1_0000, n % 0x1_0000;
    assert n == q * 0x1_0000 + r;
    assert total == ComputeSize(r) + (ENTITY_SIZE * q) * 0x1_0000;
    ModShift(ComputeSize(r), ENTITY_SIZE * q);
    assert SnapshotHeader(n, tick).size == total % 0x1_0000;
    Truncate16(total);
  }

  /** Adding whole multiples of 2^16 does not change a 16-bit truncation. */
  lemma ModShift(x: nat, k: nat)
    ensures (x + k * 0x1_0000) % 0x1_0000 == x % 0x1_0000
  {
  }

  /** A `(uint16_t)` cast keeps a value exactly when it fits. */
  lemma Truncate16(x: nat)
    ensures x % 0x1_0000 == x <==> x < 0x1_0000
  {
  }

  /** The full snapshot is lossless for up to 65535 entities: decoding it
      gives back the header and every entity, in order. */
  lemma SnapshotRoundTrip(es: seq<NetEntity>, tick: u32)
    requires |es| < 0x1_0000
    ensures DecodeSnapshot(SnapshotBytes(es, tick)) == Some((SnapshotHeader(|es|, tick), es))
  {
    assert |es| % 0x1_0000 == |es|;
    DecodeFramed(SnapshotHeader(|es|, tick), es);
  }

  /** A header, a count that fits 16 bits, and that many entities decode
      to the header and the entities. */
  lemma DecodeFramed(header: PacketHeader, es: seq<NetEntity>)
    requires |es| < 0x1_0000
    ensures DecodeSnapshot(HeaderBytes(header) + U16Bytes(|es|) + EntitiesBytes(es)) == Some((header, es))
  {
    var h := HeaderBytes(header);
    var c := U16Bytes(|es|);
    var body := EntitiesBytes(es);
    var b := h + c + body;
    assert DecodeHeader(b) == Some(header) by {
      AppendAssoc(h, c, body);
      HeaderRoundTrip(header, c + body);
    }
    assert U16Value(b[7..9]) == |es| by {
      PrefixSplit(h, c, body);
      U16RoundTrip(|es|);
    }
    assert DecodeEntities(b[9..]) == es by {
      PrefixSplit(h, c, body);
      DecodeEntitiesInverts(es);
    }
    DecodeSnapshotOf(b, header, es);
  }

  lemma DecodeSnapshotOf(b: seq<byte>, header: PacketHeader, es: seq<NetEntity>)
    requires |b| == HEADER_SIZE + 2 + ENTITY_SIZE * |es|
    requires DecodeHeader(b) == Some(header) && U16Value(b[7..9]) == |es|
    requires DecodeEntities(b[9..]) == es
    ensures DecodeSnapshot(b) == Some((header, es))
  {
  }

  lemma EntitiesStep(prefix: seq<byte>, es: seq<NetEntity>, i: nat)
    requires i < |es|
    ensures prefix + EntitiesBytes(es[..i]) + EntityBytes(es[i]) == prefix + EntitiesBytes(es[..i + 1])
  {
    assert es[..i + 1] == es[..i] + [es[i]];
    EntitiesAppend(es[..i], es[i]);
  }

  /** `serializeSnapshot`: writes the packet at the front of the caller's
      buffer and leaves the rest of it as it was; `outSize` is the number
      of bytes written, which the asserted capacity must hold. */
  method SerializeSnapshot(entities: seq<NetEntity>, outBuffer: array<byte>, outCapacity: nat, tick: u32)
    returns (outSize: nat)
    requires outCapacity <= outBuffer.Length
    requires HEADER_SIZE + 2 + ENTITY_SIZE * |entities| <= outCapacity
    modifies outBuffer
    ensures outSize == HEADER_SIZE + 2 + ENTITY_SIZE * |entities|
    ensures outBuffer[..] == SnapshotBytes(entities, tick) + old(outBuffer[..])[outSize..]
  {
    ghost var orig := outBuffer[..];
    var w := new BufferWriter(outBuffer, outCapacity);
    var entityCount: u16 := |entities| % 0x1_0000;
    var header := PacketHeader(ComputeSize(entityCount) % 0x1_0000, ServerSnapshot, tick);
    assert orig[0..] == orig;
    Emit(w, HeaderBytes(header), [], orig);
    assert [] + HeaderBytes(header) == HeaderBytes(header);
    Emit(w, U16Bytes(entityCount), HeaderBytes(header), orig);
    ghost var prefix := HeaderBytes(header) + U16Bytes(entityCount);
    assert entities[..0] == [];
    assert prefix + EntitiesBytes([]) == prefix;
    for i := 0 to |entities|
      invariant Wrote(w, prefix + EntitiesBytes(entities[..i]), orig)
    {
      Emit(w, EntityBytes(entities[i]), prefix + EntitiesBytes(entities[..i]), orig);
      EntitiesStep(prefix, entities, i);
    }
    assert entities[..|entities|] == entities;
    outSize := w.offset;
  }

  // ---------- Client input packet ----------

  /** `sizeof(ClientInputPacket)`: header, count byte, 256 input bytes. */
  const CLIENT_INPUT_SIZE: u16 := 7 + 1 + 256

  /** What `addInput(i)` does to the count and the 256 slots: the guard
      `inputCount < 256` on a `uint8_t` always holds, so the input goes to
      slot `inputCount` and the count wraps from 255 to 0. */
  function Added(count: byte, slots: seq<byte>, i: byte): (r: (byte, seq<byte>))
    requires |slots| == 256
    ensures |r.1| == 256
  {
    ((count + 1) % 0x100, slots[count := i])
  }

  /** A run of `addInput` calls, oldest first. */
  function Filled(count: byte, slots: seq<byte>, xs: seq<byte>): (r: (byte, seq<byte>))
    requires |slots| == 256
    ensures |r.1| == 256
    decreases |xs|
  {
    if xs == [] then (count, slots)
    else
      var before := Filled(count, slots, xs[..|xs| - 1]);
      Added(before.0, before.1, xs[|xs| - 1])
  }

  /** Up to 256 inputs into a fresh packet are stored in order, and the
      count is their number modulo 256 (0 after exactly 256). */
  lemma {:induction false} FilledFromEmpty(slots: seq<byte>, xs: seq<byte>)
    requires |slots| == 256 && |xs| <= 256
    ensures Filled(0, slots, xs).0 == |xs| % 0x100
    ensures forall k :: 0 <= k < |xs| ==> Filled(0, slots, xs).1[k] == xs[k]
    decreases |xs|
  {
    if xs != [] {
      var front := xs[..|xs| - 1];
      FilledFromEmpty(slots, front);
      var r := Filled(0, slots, front);
      assert r.0 == |front|;
      forall k | 0 <= k < |xs| ensures Filled(0, slots, xs).1[k] == xs[k] {
        if k < |front| {
          assert front[k] == xs[k];
        }
      }
    }
  }

  /** The 257th input wraps: the count says one input, and that input sits
      in slot 0 where the first one was. */
  lemma OverflowOverwritesFirst(slots: seq<byte>, xs: seq<byte>)
    requires |slots| == 256 && |xs| == 257
    ensures Filled(0, slots, xs).0 == 1
    ensures Filled(0, slots, xs).1[0] == xs[256]
    ensures forall k :: 1 <= k < 256 ==> Filled(0, slots, xs).1[k] == xs[k]
  {
    var front := xs[..256];
    FilledFromEmpty(slots, front);
    assert xs[..|xs| - 1] == front;
    forall k | 1 <= k < 256 ensures Filled(0, slots, xs).1[k] == xs[k] {
      assert front[k] == xs[k];
    }
  }

  /** The evidently intended `addInput`: with an 8-bit count, the packet
      refuses an input once 255 are stored rather than wrapping. */
  function AddedChecked(count: byte, slots: seq<byte>, i: byte): (r: (byte, seq<byte>))
    requires |slots| == 256
    ensures |r.1| == 256
  {
    if count < 255 then (count + 1, slots[count := i]) else (count, slots)
  }

  function FilledChecked(count: byte, slots: seq<byte>, xs: seq<byte>): (r: (byte, seq<byte>))
    requires |slots| == 256
    ensures |r.1| == 256
    decreases |xs|
  {
    if xs == [] then (count, slots)
    else
      var before := FilledChecked(count, slots, xs[..|xs| - 1]);
      AddedChecked(before.0, before.1, xs[|xs| - 1])
  }

  /** With the bounded guard no input is ever overwritten: the count is the
      number of inputs kept, the first 255, in order. */
  lemma {:induction false} FilledCheckedKeepsFirst(slots: seq<byte>, xs: seq<byte>)
    requires |slots| == 256
    ensures FilledChecked(0, slots, xs).0 == Min(|xs|, 255)
    ensures forall k :: 0 <= k < FilledChecked(0, slots, xs).0 ==> FilledChecked(0, slots, xs).1[k] == xs[k]
    decreases |xs|
  {
    if xs != [] {
      var front := xs[..|xs| - 1];
      FilledCheckedKeepsFirst(slots, front);
      var r := FilledChecked(0, slots, front);
      forall k | 0 <= k < FilledChecked(0, slots, xs).0 ensures FilledChecked(0, slots, xs).1[k] == xs[k] {
        if k < r.0 {
          assert front[k] == xs[k];
        }
      }
    }
  }

  /** `ClientInputPacket`: a header and up to 256 raw input bytes. */
  class ClientInputPacket {
    var header: PacketHeader
    var inputCount: byte
    const inputs: array<byte>

    /** The header says `CLIENT_INPUT` and the struct's full size; the
        count starts at 0 (the slots are not initialised). */
    constructor ()
      ensures header == PacketHeader(CLIENT_INPUT_SIZE, ClientInput, 0)
      ensures inputCount == 0 && inputs.Length == 256 && fresh(inputs)
    {
      header := PacketHeader(CLIENT_INPUT_SIZE, ClientInput, 0);
      inputCount := 0;
      inputs := new byte[256];
    }

    /** `addInput`, as written. */
    method AddInput(i: byte)
      requires inputs.Length == 256
      modifies this, inputs
      ensures header == old(header)
      ensures (inputCount, inputs[..]) == Added(old(inputCount), old(inputs[..]), i)
    {
      if inputCount < 256 {
        inputs[inputCount] := i;
        inputCount := (inputCount + 1) % 0x100;
      }
    }

    /** `addInput` with the bound the 8-bit count can hold. */
    method AddInputChecked(i: byte) returns (added: bool)
      requires inputs.Length == 256
      modifies this, inputs
      ensures added <==> old(inputCount) < 255
      ensures header == old(header)
      ensures (inputCount, inputs[..]) == AddedChecked(old(inputCount), old(inputs[..]), i)
    {
      added := inputCount < 255;
      if added {
        inputs[inputCount] := i;
        inputCount := inputCount + 1;
      }
    }
  }
}
