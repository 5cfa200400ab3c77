# lua-x1 core: deterministic tick simulation and snapshot packets

A Dafny model of the two files that hold the core of lua-x1. The other C++
files beside them (lua_bridge.cpp, lua_bridge.h and main.cpp) load and call
Lua scripts; they are not part of this model.

- **core/src/deterministic_sim.cpp**
  - The fixed-point entity state and the bounded per-client input queue.
  - The integer movement rules: input steering, friction, and position integration.
  - The `DemoServer` with its tick.
  - The two little-endian snapshot serialisers: the full format, and the change-masked delta whose record count is patched in place.
- **core/src/net/packets.h**
  - The packed wire structures.
  - The `BufferWriter` and `BufferReader` cursors.
  - The full snapshot packet (`serializeSnapshot`).
  - The index-based delta packet (`serializeDeltaSnapshot`), which seeks back to rewrite its header.
  - The fixed-size `ClientInputPacket`.

Modules, one per concern:

| module | file | models |
|---|---|---|
| `ByteOrder` | byte_order.dfy | integer widths, `write_u16/u32/i32` byte images, 32-bit wrap-around |
| `Entities` | entities.dfy | `EntityState`, `ClientInput`, `Snapshot`, the id-keyed maps |
| `InputQueues` | input_queues.dfy | `InputQueue` as a class over a `seq` field, `push`, `popForTick` |
| `Physics` | physics.dfy | truncating division, `approach_zero`, `applyInputsToEntity`, `simulateEntityTick` |
| `SnapshotCodec` | snapshot_codec.dfy | `serializeFull`, `serializeDelta` over a growable byte vector, and decoders for both |
| `Server` | server.dfy | `DemoServer` as a class over maps of entities and queue objects |
| `PacketBuffers` | packet_buffers.dfy | `BufferWriter`/`BufferReader` over an `array<byte>` |
| `Packets` | packets.dfy | `PacketType`, `PacketHeader`, the 20-byte network entity, `serializeSnapshot`, `ClientInputPacket` |
| `DeltaPackets` | delta_packets.dfy | `serializeDeltaSnapshot` and a decoder that applies its records |

Modelling choices:

- **Classes and methods where the source mutates state.**
  - Objects that update fields are classes: `InputQueue`, `DemoServer`, `BufferWriter`, `BufferReader`, `ClientInputPacket`.
  - The loops are methods with loop invariants.
  - Each method is proved against a specification function (`ForTick`, `FullBytes`, `DeltaBytes`, `SnapshotBytes`, `DeltaPacketBytes`, `TickEntities`, …).
  - The round trips and invariants are proved about those functions.
- **Fixed-width arithmetic is explicit.**
  - `uint32_t` increments wrap (`Inc32`), and `(uint16_t)` casts are `% 0x1_0000`.
  - C++ division truncates toward zero (`DivTrunc`).
  - The count byte of `ClientInputPacket` is a `byte`.
- **Floats in packets.h are four opaque bytes.** Equality is equality of those bytes.
- **`memcpy` images are little-endian.** This matches the explicit encoding of deterministic_sim.cpp.
- **The `assert`s in packets.h are preconditions.**
- **`std::unordered_map` iteration order is a nondeterministic choice (`:|`).**
  - `DemoServer.Tick` returns the order it visited the clients in, as a ghost value.
  - The specification of the tick is stated in terms of that order.
  - The snapshot's entity order is left unspecified. Only its contents are promised.

Where the code and its comments differ, or where the code does less than one
might expect, the model follows the code:

- **A full record is 25 bytes, and a new entity's delta record is one byte longer.**
  - `serializeFull` writes a `u32` id, five `i32` fields and one flags byte.
  - A full snapshot is therefore 8 + 25·n bytes (`SnapshotCodec.FullBytes`).
  - A new entity's delta record is 26 bytes (id, mask and all six fields), one more than its full record (`SnapshotCodec.NewEntitiesSentWhole`).
  - So at tick 0 the delta is not the same size as the full snapshot, although the comment at core/src/deterministic_sim.cpp:337 says the two are the same.
- **Too small a buffer is not signalled.**
  - packets.h only `assert`s capacity, so the model makes it a precondition.
- **The 16-bit size field is silently truncated.**
  - In `serializeSnapshot`, `header.size` is `(uint16_t)computeSize()`.
  - Past 3276 entities that is no longer the packet's length, while every entity is still written (`Packets.SnapshotSize`).
  - The same holds for `serializeDeltaSnapshot` (`DeltaPackets.DeltaSizeField`).

## Model

| member | source | states |
|---|---|---|
| ByteOrder.U16Bytes | core/src/deterministic_sim.cpp:135-138 | `write_u16` appends exactly two bytes |
| ByteOrder.U16RoundTrip | core/src/deterministic_sim.cpp:135-138 | the two bytes, read low byte first, give back the value |
| ByteOrder.U32Bytes | core/src/deterministic_sim.cpp:139-144 | `write_u32` appends exactly four bytes |
| ByteOrder.U32RoundTrip | core/src/deterministic_sim.cpp:139-144 | the four bytes, read low byte first, give back the value |
| ByteOrder.Unsigned32 | core/src/deterministic_sim.cpp:145 | `static_cast<uint32_t>` is two's complement: reading the pattern as signed gives the value back, and the top bit is set exactly for negatives |
| ByteOrder.I32Bytes | core/src/deterministic_sim.cpp:145 | `write_i32` appends four bytes |
| ByteOrder.I32RoundTrip | core/src/deterministic_sim.cpp:145 | a written `i32` reads back as the same signed value |
| ByteOrder.Count32IsMod | core/src/deterministic_sim.cpp:199 | a `uint32_t` counter incremented n times from 0 holds n mod 2^32 |
| ByteOrder.WrapSucc | core/src/deterministic_sim.cpp:303 | one wrapping `++` on a `uint32_t` is +1 modulo 2^32 |
| Entities.EntityState.Equals | core/src/deterministic_sim.cpp:49-57 | `operator==` holds exactly when the two entities are equal values |
| Entities.Insert | core/src/deterministic_sim.cpp:331 | the loop `m[e.id] = e` yields the old keys plus every inserted id |
| Entities.InsertFinds | core/src/deterministic_sim.cpp:331 | with distinct ids, each entity is found under its id and untouched keys keep their entries |
| Entities.InsertKeyed | core/src/deterministic_sim.cpp:331 | inserting under ids keeps every entry stored under its own id |
| Entities.InsertAppend | core/src/deterministic_sim.cpp:331 | inserting one more entity is one map update |
| Entities.MapOfListsEntries | core/src/deterministic_sim.cpp:297-301 | a list holding exactly a keyed map's entries, with distinct ids, rebuilds that map |
| InputQueues.ForTick | core/src/deterministic_sim.cpp:92-104 | the inputs for tick t are exactly the queued inputs targeting t |
| InputQueues.NotForTick | core/src/deterministic_sim.cpp:92-104 | the inputs kept are exactly the queued inputs targeting another tick |
| InputQueues.FiltersDistribute | core/src/deterministic_sim.cpp:93-101 | both filters keep FIFO order: filtering a concatenation concatenates the filtered parts |
| InputQueues.SplitIsPartition | core/src/deterministic_sim.cpp:92-104 | every queued input lands in exactly one part (as multisets), so old size = returned + kept |
| InputQueues.InputQueue.constructor | core/src/deterministic_sim.cpp:85 | a new queue is empty |
| InputQueues.InputQueue.Push | core/src/deterministic_sim.cpp:86-90 | refused, queue unchanged, exactly when 256 are queued; otherwise the input is appended at the back |
| InputQueues.InputQueue.Size | core/src/deterministic_sim.cpp:106 | `size()` is 0 exactly for an empty queue and never exceeds 256 on a valid queue |
| InputQueues.InputQueue.PopForTick | core/src/deterministic_sim.cpp:92-104 | returns the inputs for the tick in FIFO order, keeps the others in order, and old size = returned + new size |
| Physics.DivTrunc | core/src/deterministic_sim.cpp:227-228 | C++ `/` truncates toward zero: quotient magnitude is the floor of the magnitudes' quotient, sign follows the dividend |
| Physics.ApproachZero | core/src/deterministic_sim.cpp:236-240 | the magnitude drops by `amount` but not below zero, and the sign never flips |
| Physics.Steered | core/src/deterministic_sim.cpp:224-231 | a moving input sets each velocity component to (166·n)/127 truncated toward zero: its magnitude is the floor of 166 times the size of n, over 127 (at most 167), its sign is n's, and nothing else changes |
| Physics.InputsApplied | core/src/deterministic_sim.cpp:222-234 | applying inputs changes only the velocity |
| Physics.LastMoveWins | core/src/deterministic_sim.cpp:222-234 | the last input with a non-zero move alone decides the velocity |
| Physics.NoMoveKeepsVelocity | core/src/deterministic_sim.cpp:222-234 | inputs that do not move leave the entity unchanged |
| Physics.InputsAppliedAppend | core/src/deterministic_sim.cpp:278-287 | applying one client's inputs after another's equals applying the concatenation |
| Physics.InputsKeepSpeed | core/src/deterministic_sim.cpp:222-234 | inputs keep each velocity component within 167 in magnitude |
| Physics.ApplyInputsToEntity | core/src/deterministic_sim.cpp:222-234 | the loop over the inputs computes `InputsApplied` |
| Physics.SimulateEntityTick | core/src/deterministic_sim.cpp:242-249 | position advances by the pre-friction velocity, each velocity component decays by 25 toward zero, id/health/flags unchanged |
| Physics.FrictionSettles | core/src/deterministic_sim.cpp:246-248 | with no input, after n ticks each speed has dropped by 25·n down to exactly zero and never past it |
| SnapshotCodec.ByteVector.constructor | core/src/deterministic_sim.cpp:149 | the output vector starts empty |
| SnapshotCodec.ByteVector.WriteU8 | core/src/deterministic_sim.cpp:134 | appends the byte |
| SnapshotCodec.ByteVector.WriteU16 | core/src/deterministic_sim.cpp:135-138 | appends the two little-endian bytes |
| SnapshotCodec.ByteVector.WriteU32 | core/src/deterministic_sim.cpp:139-144 | appends the four little-endian bytes |
| SnapshotCodec.ByteVector.WriteI32 | core/src/deterministic_sim.cpp:145 | appends the two's-complement pattern |
| SnapshotCodec.ByteVector.Set | core/src/deterministic_sim.cpp:204-207 | `out[i] = b` overwrites one byte and no other |
| SnapshotCodec.EntityRecord | core/src/deterministic_sim.cpp:153-159 | a full record is 25 bytes |
| SnapshotCodec.Records | core/src/deterministic_sim.cpp:152-160 | n records take 25·n bytes |
| SnapshotCodec.RecordsAppend | core/src/deterministic_sim.cpp:152-160 | one more entity appends its record |
| SnapshotCodec.FullBytes | core/src/deterministic_sim.cpp:148-162 | a full snapshot is 8 + 25·n bytes |
| SnapshotCodec.WriteEntityRecord | core/src/deterministic_sim.cpp:153-159 | the loop body appends the entity's record |
| SnapshotCodec.SerializeFull | core/src/deterministic_sim.cpp:148-162 | `serializeFull` produces exactly `FullBytes` |
| SnapshotCodec.DecodeRecordInverts | core/src/deterministic_sim.cpp:153-159 | decoding a record gives back every field |
| SnapshotCodec.DecodeRecordsInverts | core/src/deterministic_sim.cpp:152-160 | decoding the records gives back the entity list in order |
| SnapshotCodec.FullRoundTrip | core/src/deterministic_sim.cpp:148-162 | decoding a full snapshot recovers the tick and every entity exactly |
| SnapshotCodec.MaskByte | core/src/deterministic_sim.cpp:116-123 | the mask byte uses only bits 0-5 and is 0 exactly for the empty mask |
| SnapshotCodec.MaskByteIsOrOfBits | core/src/deterministic_sim.cpp:116-123 | the byte is the OR of the `ChangeBits` of the fields it names |
| SnapshotCodec.MaskRoundTrip | core/src/deterministic_sim.cpp:192-197 | the `mask & CH_X` tests recover the mask from its byte |
| SnapshotCodec.DiffMask | core/src/deterministic_sim.cpp:181-188 | the mask is empty exactly when every field but the id agrees |
| SnapshotCodec.MaskFor | core/src/deterministic_sim.cpp:175-189 | an unknown id gets the full mask 0x3F; the mask is empty exactly when the reference holds the same fields under that id |
| SnapshotCodec.DeltaRecord | core/src/deterministic_sim.cpp:190-197 | a record has at least its id and mask byte |
| SnapshotCodec.DeltaCount | core/src/deterministic_sim.cpp:173-200 | no more records than entities |
| SnapshotCodec.DeltaAppend | core/src/deterministic_sim.cpp:174-200 | one more entity appends its entry |
| SnapshotCodec.DeltaCountAppend | core/src/deterministic_sim.cpp:174-200 | one more entity adds one to the count exactly when its mask is not empty |
| SnapshotCodec.CountStep | core/src/deterministic_sim.cpp:199 | the `uint32_t` count tracks the number of records modulo 2^32 |
| SnapshotCodec.WriteDeltaRecord | core/src/deterministic_sim.cpp:190-197 | id, mask byte, then only the set fields in bit order (flags one byte, the rest four) |
| SnapshotCodec.WriteField | core/src/deterministic_sim.cpp:192-196 | a field is written exactly when its bit is set |
| SnapshotCodec.WriteDeltaEntry | core/src/deterministic_sim.cpp:174-197 | appends the entity's record, or nothing when its mask is empty, and says which |
| SnapshotCodec.ChangedFields | core/src/deterministic_sim.cpp:181-187 | the per-field OR steps on `mask` compute `DiffMask` |
| SnapshotCodec.PatchU32 | core/src/deterministic_sim.cpp:202-207 | the patch writes the four LE count bytes at the position and touches no other byte |
| SnapshotCodec.PatchCount | core/src/deterministic_sim.cpp:170-171 | patching the placeholder at offset 4 gives tick, count, records |
| SnapshotCodec.WriteDeltaBody | core/src/deterministic_sim.cpp:173-200 | the loop appends every non-empty record and counts them modulo 2^32 |
| SnapshotCodec.SerializeDelta | core/src/deterministic_sim.cpp:165-210 | `serializeDelta` produces exactly `DeltaBytes` |
| SnapshotCodec.TakeI32Inverts | core/src/deterministic_sim.cpp:192-196 | an optional `i32` field reads back as written |
| SnapshotCodec.TakeU8Inverts | core/src/deterministic_sim.cpp:197 | the optional flags byte reads back as written |
| SnapshotCodec.ReadFieldsInverts | core/src/deterministic_sim.cpp:192-197 | the fields a mask names read back as written, the others keep the receiver's values |
| SnapshotCodec.RecordLayout | core/src/deterministic_sim.cpp:190-197 | a record is id, mask byte, then its fields |
| SnapshotCodec.ApplyRecordInverts | core/src/deterministic_sim.cpp:190-197 | one record installs exactly the entity under its id |
| SnapshotCodec.MaskCovers | core/src/deterministic_sim.cpp:175-189 | the fields the mask leaves out are the ones a receiver holding the reference already has |
| SnapshotCodec.ApplyBodyInverts | core/src/deterministic_sim.cpp:173-200 | applying the records in order inserts every snapshot entity into the receiver's map |
| SnapshotCodec.DeltaRoundTrip | core/src/deterministic_sim.cpp:165-210 | a receiver holding the reference decodes the tick and ends with the reference updated by every snapshot entity |
| SnapshotCodec.DeltaSyncsReceiver | core/src/deterministic_sim.cpp:165-210 | the receiver ends with each snapshot entity under its id and every other reference entry unchanged |
| SnapshotCodec.UnchangedProduceNothing | core/src/deterministic_sim.cpp:188 | entities the reference holds unchanged produce no bytes and no count |
| SnapshotCodec.DeltaAgainstItself | core/src/deterministic_sim.cpp:174-189 | a delta against the snapshot's own map is exactly 8 bytes: tick and count 0 |
| SnapshotCodec.NewEntitiesSentWhole | core/src/deterministic_sim.cpp:177-179 | against an empty reference every entity is sent, 26 bytes each |
| Server.Steer | core/src/deterministic_sim.cpp:282-286 | only entity 1001 takes the inputs; no key appears or disappears |
| Server.SteerAppend | core/src/deterministic_sim.cpp:278-287 | steering per client in turn equals steering with all due inputs |
| Server.SteerKeepsBounds | core/src/deterministic_sim.cpp:282-286 | steering changes only velocities and keeps speeds bounded |
| Server.SteerPlayer | core/src/deterministic_sim.cpp:282-286 | the lookup of 1001 and the `!inputs.empty()` test compute `Steer` |
| Server.TickEntities | core/src/deterministic_sim.cpp:276-292 | each entity moves by its velocity after steering, then friction 25 applies per axis; id/health/flags kept, same keys, speeds bounded |
| Server.SimulateEntities | core/src/deterministic_sim.cpp:290-292 | the loop steps every entity exactly once |
| Server.SnapshotEntities | core/src/deterministic_sim.cpp:295-297 | the snapshot lists each live entity exactly once |
| Server.IdMap | core/src/deterministic_sim.cpp:329-332 | the loop `m[e.id] = e` into a cleared map builds `MapOf` |
| Server.DemoServer.constructor | core/src/deterministic_sim.cpp:254-266 | tick 0, only entity 1001 at the origin with health 100, no clients, empty reference maps |
| Server.DemoServer.ReceiveInput | core/src/deterministic_sim.cpp:269-273 | creates the client's queue if needed, accepted exactly when it held fewer than 256, and only that queue changes |
| Server.DemoServer.QueueFor | core/src/deterministic_sim.cpp:271 | `input_queues[client]` returns the existing queue or a fresh empty one |
| Server.DemoServer.DrainInputs | core/src/deterministic_sim.cpp:278-287 | every client is visited once; each queue loses exactly its inputs for the tick; the player takes them in visiting order |
| Server.DemoServer.DrainClient | core/src/deterministic_sim.cpp:279-286 | one client's inputs for the tick are popped and applied to the player |
| Server.DemoServer.Tick | core/src/deterministic_sim.cpp:276-305 | queues drained, entities equal `TickEntities`, snapshot stamped with the old tick holding every live entity, `prev_snapshot_map` = entities, tick +1 mod 2^32 |
| Server.DemoServer.PrevBefore | core/src/deterministic_sim.cpp:326 | `getPrevBefore` returns the reference map, which on a valid server keeps every entity under its own id |
| Server.DemoServer.UpdatePrevBeforeFromSnapshot | core/src/deterministic_sim.cpp:329-332 | the reference map becomes the snapshot's entities under their ids, nothing else changes, and the server stays valid |
| PacketBuffers.BufferWriter.constructor | core/src/net/packets.h:42 | the cursor starts at offset 0 within the capacity |
| PacketBuffers.BufferWriter.WriteRaw | core/src/net/packets.h:44-57 | the bytes land at the offset, the offset advances by their length, no other byte changes, offset stays within capacity |
| PacketBuffers.BufferReader.constructor | core/src/net/packets.h:66 | the cursor starts at offset 0 within the size |
| PacketBuffers.BufferReader.ReadRaw | core/src/net/packets.h:68-83 | returns the next n bytes and advances the offset by n |
| PacketBuffers.WriteThenRead | core/src/net/packets.h:37-83 | two values written through a `BufferWriter` are read back, in order, by a `BufferReader` over the written bytes, and the rest of the buffer is untouched |
| Packets.TypeCode | core/src/net/packets.h:12-18 | the type byte is below 4 |
| Packets.TypeOfCode | core/src/net/packets.h:12-18 | a byte names a type exactly when it is below 4, and then it is that type's code |
| Packets.HeaderBytes | core/src/net/packets.h:23-31 | the packed header is 7 bytes |
| Packets.HeaderRoundTrip | core/src/net/packets.h:23-31 | the header reads back as written |
| Packets.Differs | core/src/net/packets.h:97-104 | `operator!=` holds exactly when the two entities are different values |
| Packets.EntityBytes | core/src/net/packets.h:89-96 | the packed entity is 20 bytes |
| Packets.DecodeEntityInverts | core/src/net/packets.h:89-105 | a packed entity reads back as written |
| Packets.EntitiesBytes | core/src/net/packets.h:193-194 | n entities take 20·n bytes |
| Packets.DecodeEntitiesInverts | core/src/net/packets.h:193-194 | the entities read back in order |
| Packets.Emit | core/src/net/packets.h:44-50 | one `write` through the cursor extends what has been written |
| Packets.ComputeSize | core/src/net/packets.h:145-150 | `computeSize()` is the 9-byte prefix plus whole 20-byte entities, and fits the 16-bit size field exactly when the count is at most 3276 |
| Packets.SnapshotSize | core/src/net/packets.h:145-150 | for any number n of entities the packet is 9 + 20·n bytes, which is `computeSize()` while n fits 16 bits; the header's size is that length mod 2^16, equal to it exactly when n ≤ 3276 |
| Packets.Truncate16 | core/src/net/packets.h:188 | a `(uint16_t)` cast keeps a value exactly when it fits |
| Packets.SnapshotRoundTrip | core/src/net/packets.h:176-197 | for fewer than 65536 entities, decoding gives back the header and every entity |
| Packets.SerializeSnapshot | core/src/net/packets.h:176-197 | `outSize` = 9 + 20·n; the buffer holds header, `(u16)n` and the entities in order, and the rest of the buffer is untouched |
| Packets.FilledFromEmpty | core/src/net/packets.h:122-126 | up to 256 inputs are stored in order, and the count is their number mod 256 |
| Packets.OverflowOverwritesFirst | core/src/net/packets.h:122-126 | the 257th input sets the count to 1 and overwrites slot 0 |
| Packets.FilledCheckedKeepsFirst | core/src/net/packets.h:122-126 | with the guard the 8-bit count can keep, the first 255 inputs stay in order and the count equals how many were stored |
| Packets.ClientInputPacket.constructor | core/src/net/packets.h:116-120 | header says `CLIENT_INPUT` and size 264, count 0, 256 slots |
| Packets.ClientInputPacket.AddInput | core/src/net/packets.h:122-126 | as written: stores at `inputs[inputCount]` (always below 256) and the count wraps 255 → 0; the header is untouched |
| Packets.ClientInputPacket.AddInputChecked | core/src/net/packets.h:122-126 | corrected: accepted exactly when the count is below 255, and then stored at the count |
| DeltaPackets.FieldMaskByte | core/src/net/packets.h:223-229 | the mask uses only bits 0-4 and is 0 exactly for the empty mask |
| DeltaPackets.FieldMaskByteIsOrOfBits | core/src/net/packets.h:225-229 | the byte is the OR of `1 << k` of the differing fields |
| DeltaPackets.FieldMaskRoundTrip | core/src/net/packets.h:246-250 | the `entityMask & (1 << k)` tests recover the mask |
| DeltaPackets.Diff | core/src/net/packets.h:223-229 | the mask is empty exactly when `operator!=` is false |
| DeltaPackets.ComputeMask | core/src/net/packets.h:223-229 | the per-field OR steps on `entityMask` compute `Diff` |
| DeltaPackets.NetRecord | core/src/net/packets.h:235-250 | a record has at least its index and mask byte |
| DeltaPackets.ChangedFrom | core/src/net/packets.h:218-253 | no more records than indices |
| DeltaPackets.RecordsExtend | core/src/net/packets.h:218-253 | records come in increasing index order: one more index appends its entry |
| DeltaPackets.ChangedExtend | core/src/net/packets.h:218-253 | one more index adds one to the count exactly when it changed |
| DeltaPackets.CountStep | core/src/net/packets.h:252 | the `uint16_t` count tracks the number of records mod 2^16 |
| DeltaPackets.Wrap16Succ | core/src/net/packets.h:252 | one wrapping `++` on a `uint16_t` is +1 mod 2^16 |
| DeltaPackets.EmitField | core/src/net/packets.h:246-250 | a field is written exactly when its bit is set |
| DeltaPackets.WriteNetRecord | core/src/net/packets.h:235-250 | `(u16)i`, the mask byte, then the changed fields of `after` in bit order |
| DeltaPackets.WriteNetFields | core/src/net/packets.h:246-250 | the five guarded writes produce the named fields in bit order |
| DeltaPackets.WriteEntry | core/src/net/packets.h:220-252 | one loop turn: an unchanged index writes nothing and keeps the count, a changed one writes its record and bumps the count |
| DeltaPackets.WriteRecords | core/src/net/packets.h:218-253 | the loop writes every changed index's record in order and counts them mod 2^16 |
| DeltaPackets.SerializeDeltaSnapshot | core/src/net/packets.h:199-266 | `outSize` = 9 + records; the buffer holds the rewritten header, the count and the records, and the rest of the buffer is untouched |
| DeltaPackets.WriteDelta | core/src/net/packets.h:207-265 | the body on a fresh writer produces `DeltaPacketBytes` at the front of the buffer |
| DeltaPackets.WritePrefix | core/src/net/packets.h:210-216 | the first header and the zero count are the first 9 bytes |
| DeltaPackets.PatchPrefix | core/src/net/packets.h:255-265 | after the seek back, header (size = `(u16)finalOffset`) and count are rewritten and the records after byte 9 are unchanged |
| DeltaPackets.RewritePrefix | core/src/net/packets.h:256-263 | the rewrite replaces the first 9 bytes and nothing else |
| DeltaPackets.RewriteKeepsRecords | core/src/net/packets.h:255-263 | the bytes after the 9-byte prefix are the records followed by the untouched buffer |
| DeltaPackets.Assemble | core/src/net/packets.h:259-263 | the rewritten prefix followed by the records is the packet |
| DeltaPackets.TakeFloatInverts | core/src/net/packets.h:246-249 | an optional float field reads back as written |
| DeltaPackets.TakeIdInverts | core/src/net/packets.h:250 | the optional id field reads back as written |
| DeltaPackets.ReadNetFieldsInverts | core/src/net/packets.h:246-250 | the fields a mask names read back, the others keep the receiver's values |
| DeltaPackets.NetRecordLayout | core/src/net/packets.h:235-250 | a record is index, mask byte, then its fields |
| DeltaPackets.ApplyNetRecordInverts | core/src/net/packets.h:235-250 | one record installs exactly `after[i]` at index i |
| DeltaPackets.ApplyBodyInverts | core/src/net/packets.h:218-253 | the records applied in order turn the old entries into the new ones |
| DeltaPackets.DeltaPacketRoundTrip | core/src/net/packets.h:199-266 | for fewer than 65536 entities, a receiver holding `before` decodes the header and ends with exactly `after` |
| DeltaPackets.DeltaSizeField | core/src/net/packets.h:255-259 | the packet is 9 + records bytes, and the size field is that mod 2^16, equal to the length exactly when the length fits 16 bits |
| DeltaPackets.SameListsNoRecords | core/src/net/packets.h:231-233 | equal lists produce no record and a zero count |
| DeltaPackets.DeltaOfSameLists | core/src/net/packets.h:231-233 | a delta of a list against itself is the 9-byte prefix with size 9 and count 0 |

## Left out

- `to_fixed` and `to_world`: float conversions at the boundary. `MAX_SPEED_FIXED_PER_TICK` is the integer 166, the value of its float expression.
- The demo `main` and `DemoServer::serializeSnapshots`: a wall-clock loop that prints sizes. This is I/O and timing.
- The Lua bridge (core/src/lua_bridge.cpp, core/src/lua_bridge.h, core/src/main.cpp): calls into the Lua C API and console output.
- Threading and the tick clock: no bearing on the logic.
- IEEE float semantics in packets.h: floats are compared as bit patterns, so NaN and ±0 differ from C++ `!=`.
- Host endianness: the `memcpy` images are taken as little-endian.
- `SnapshotDeltaPacket::changedMask`: never serialised.
- Entity removal, entity types and other game features: not in this code.
- Server.DemoServer.Tick: requires every entity to be at least 167 units inside the 32-bit range, because signed overflow of `pos += vel` is undefined in C++.
- Physics.SimulateEntityTick: requires that `pos += vel` fits 32 bits, for the same reason.
- Server.DemoServer.Tick: the order of clients and of snapshot entities follows `std::unordered_map` iteration, which is unspecified. The model picks an order by choice and promises only the contents.
- Physics.SimulateEntityTick and Physics.ApplyInputsToEntity: the C++ updates an entity through a reference; the model returns the new value. No aliasing is involved.
- PacketBuffers.BufferWriter.WriteRaw: also stands for `write<T>`, which copies the value's packed bytes. `BufferReader.ReadRaw` likewise stands for `read<T>`, and returns the bytes rather than a typed value.
- Packets.SerializeSnapshot: the capacity `assert` is a precondition. There is no capacity error result.
- DeltaPackets.SerializeDeltaSnapshot: the capacity `assert`s and `before.size() == after.size()` are preconditions. There is no capacity error result.
- Packets.SnapshotRoundTrip: stated for fewer than 65536 entities. Beyond that the `(uint16_t)` count no longer matches the entities written.
- DeltaPackets.DeltaPacketRoundTrip: stated for fewer than 65536 entities. Beyond that `(uint16_t)i` and the count wrap.
- SnapshotCodec.FullRoundTrip: stated for fewer than 2^32 entities, the range of the count field.
- Packets.ClientInputPacket.constructor: in C++ the 256 input slots are uninitialised. The model's array starts with zeros, and no contract mentions slot contents before they are written.

## Findings

| source | as written | input that shows it | evidently intended | confidence | as-written member | corrected member |
|---|---|---|---|---|---|---|
| core/src/net/packets.h:122-126 | `addInput` guards with `inputCount < 256` on a `uint8_t`, which is always true, then writes `inputs[inputCount++]` | 257 calls on a fresh packet: the count wraps 255 → 0 → 1 and the 257th input overwrites slot 0. After exactly 256 calls the count reads 0 | the guard refuses inputs once the count cannot grow, so no stored input is overwritten and the count equals the number stored | not executed | Packets.OverflowOverwritesFirst | Packets.FilledCheckedKeepsFirst |
