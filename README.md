# Macro-object deletion sync, modelled in Dafny

The game lets players destroy placed "macro objects": boxes get broken and coin
formations get collected. A macro object is described by a record in its area's
macro-object table. When a peer joins, or re-syncs a level, the peer that is already
there scans each area's table and sends two lists:

- the deletions: for each record whose respawn info has the "don't respawn" flag, the
  offset of the record's respawn-info slot (record start + 4);
- the specials: for each coin formation whose respawn info is not zero, the offset of the
  record's respawn-info slot (record start + 4) and the raw respawn info.

The receiver first checks that the packet is for its own course, act and level. It then:

- sets the flag in each listed respawn-info slot;
- marks for deletion the first object in the pool whose back-reference is that slot (the
  search covers every pool entry, live or not);
- releases that object's sync-registry entry when the entry still names it;
- writes each special value into the table, and for a coin formation with such an object
  marks the coins that the mask in the value's high byte says are gone.

The project models `packet_macro_deletions.c`:

- `wire.dfy` (module `Wire`): fixed-width integers, the packet layout (`Encode`, `Parse`) and
  the packet cursor (`Packet`).
- `macro_table.dfy` (module `MacroTable`): the table's five-slot records, the end-of-list test,
  the flag bits, and the sender's two passes as functions (`ScanDeletions`, `ScanSpecials`).
- `object_pool.dfy` (module `ObjectPool`): the object pool, the back-reference search and the
  coin-formation cascade.
- `applier.dfy` (module `Applier`): what the receiver does to a table, the pool and the
  registry, as functions of the state before (`DeleteAt`, `SpecialAt`, `ApplyMessage`).
- `macro_deletions.dfy` (module `MacroDeletions`):
  - the three C functions as methods of a `World` class. Its fields are the globals the C
    code uses: the current location, the area array, the object pool, the sync registry,
    the peer directory and the preset behaviours. Area tables and the pool are arrays.
  - The methods use the same loops and are proved against the functions above.
  - A packet handed to `network_send_to` is returned as a `Transmission`.
- `catch_up.dfy` (module `CatchUp`): what the sender's message achieves. Take a receiver
  whose table has the sender's records, with only respawn info possibly differing. After
  applying the sender's message, that receiver:
  - carries every deletion the sender has;
  - holds the sender's value for every reported coin formation;
  - has nothing else changed.

  The packet carries that message only while each list has fewer than 256 entries
  (`Wire.PacketCarriesMessage`); `CatchUp.PacketCatchUp` states the same result for the
  message the receiver parses out of the packet under that bound.
- `wrappers.dfy` (module `Wrappers`): `Option`.

Two facts about the code are worth stating up front:

- The coin mask is the high byte of the respawn info, `(v >> 8) & 0xFF` (line 189).
- Deletions never clear the "don't respawn" flag (`FlagTableFlags`, `DeleteAtTable`). A
  special entry overwrites its slot verbatim (line 177), so it can clear the flag.

## Model

All source cells refer to `src/pc/network/packets/packet_macro_deletions.c`.

| member | source | states |
|---|---|---|
| Wire.Encode | src/pc/network/packets/packet_macro_deletions.c:39-99 | the packet is the 8-byte header, the area index, two count bytes and 2 bytes per offset and 4 per special entry, nothing more |
| Wire.Parse | src/pc/network/packets/packet_macro_deletions.c:126-177 | a buffer shorter than header, area index and two counts reads as nothing; a message read back has fewer than 256 entries per list and all its fields inside the buffer |
| Wire.U16RoundTrip | src/pc/network/packets/packet_macro_deletions.c:70 | a 16-bit offset written into a buffer reads back unchanged at the same position |
| Wire.S16RoundTrip | src/pc/network/packets/packet_macro_deletions.c:96 | a signed 16-bit value written in two's complement reads back unchanged |
| Wire.ParseLocationBytes | src/pc/network/packets/packet_macro_deletions.c:42-45 | the four location fields the sender writes are the four the receiver reads at lines 127-130 |
| Wire.BumpCount | src/pc/network/packets/packet_macro_deletions.c:68 | bumping the `u8` count placeholder in place gives the count byte of one more entry, wrapping past 255 |
| Wire.AppendOffset | src/pc/network/packets/packet_macro_deletions.c:68-70 | one flagged record: bumping the count and appending its offset gives the layout of the list with that offset added |
| Wire.AppendSpecial | src/pc/network/packets/packet_macro_deletions.c:93-96 | one coin formation: bumping the count and appending offset and value gives the layout of the list with that entry added |
| Wire.EncodeSplit | src/pc/network/packets/packet_macro_deletions.c:41-99 | header, deletion section and special section written in that order make up the packet, and the two count bytes sit where the sender reserved them |
| Wire.ParseFields | src/pc/network/packets/packet_macro_deletions.c:137-177 | in a packet that parses, the area index, each count, each offset and each (offset, value) pair sit at the byte positions the receiver reads them from |
| Wire.ParseEntries | src/pc/network/packets/packet_macro_deletions.c:137-177 | the same fields, located in the receiver's buffer behind the cursor that has read the header |
| Wire.ParseOffsetsCons | src/pc/network/packets/packet_macro_deletions.c:145-147 | a non-empty deletion section is its first offset followed by the rest of the section |
| Wire.ParseSpecialsCons | src/pc/network/packets/packet_macro_deletions.c:172-177 | a non-empty special section is its first pair followed by the rest of the section |
| Wire.EncodeOffsetsParse | src/pc/network/packets/packet_macro_deletions.c:145-147 | the deletion offsets the sender writes are read back in the same order |
| Wire.EncodeSpecialsParse | src/pc/network/packets/packet_macro_deletions.c:172-177 | the special pairs the sender writes are read back in the same order |
| Wire.ParseEncode | src/pc/network/packets/packet_macro_deletions.c:39-99 | round trip: a packet the sender builds parses back to exactly the message it encodes, whenever each list holds fewer than 256 entries |
| Wire.ParseFromFields | src/pc/network/packets/packet_macro_deletions.c:127-177 | a buffer whose fields each read back as the fields of a message, with no byte left over, parses to that message |
| Wire.PacketCarriesMessage | src/pc/network/packets/packet_macro_deletions.c:68 | the packet parses back to the sender's message if and only if each list has fewer than 256 entries, since a count byte wraps past 255 |
| Wire.Packet.Write | src/pc/network/packets/packet_macro_deletions.c:42-53 | `packet_write` appends the bytes at the cursor and moves the cursor past them |
| Wire.Packet.ReadU8 | src/pc/network/packets/packet_macro_deletions.c:138 | `packet_read` of one byte returns the byte at the cursor and advances by one |
| Wire.Packet.ReadU16 | src/pc/network/packets/packet_macro_deletions.c:147 | `packet_read` of an offset returns the 16-bit value at the cursor and advances by two |
| Wire.Packet.ReadS16 | src/pc/network/packets/packet_macro_deletions.c:127-130 | `packet_read` of a signed field returns the signed 16-bit value at the cursor and advances by two |
| MacroTable.PresetId | src/pc/network/packets/packet_macro_deletions.c:59 | the preset id of a slot is its low nine bits minus 31, so it lies in [-31, 480] |
| MacroTable.HighByte | src/pc/network/packets/packet_macro_deletions.c:189 | `(v >> 8) & 0xFF` of a signed slot is bits 8 to 15 of its 16-bit two's-complement pattern |
| MacroTable.DontRespawnSet | src/pc/network/packets/packet_macro_deletions.c:67 | a respawn-info slot carries the flag exactly when its signed value lies in [-256, -1], that is, its high byte is 0xFF |
| MacroTable.ScanDeletions | src/pc/network/packets/packet_macro_deletions.c:56-73 | the first pass reports at most one offset per visited record; which ones is stated by `ScanDeletionsExact` |
| MacroTable.ScanSpecials | src/pc/network/packets/packet_macro_deletions.c:79-99 | the second pass reports at most one entry per visited record; which ones is stated by `ScanSpecialsExact` |
| MacroTable.SetDontRespawn | src/pc/network/packets/packet_macro_deletions.c:152 | OR-ing the flag into the high byte sets the flag, keeps the low byte, and changes nothing in a slot that already carries the flag |
| MacroTable.ScanDeletionsStep | src/pc/network/packets/packet_macro_deletions.c:57-73 | one record of the first pass: the record adds its offset exactly when its flag is set, and the scan goes on five slots later |
| MacroTable.ScanSpecialsStep | src/pc/network/packets/packet_macro_deletions.c:81-99 | one record of the second pass: the record adds (offset, value) exactly when it is a coin formation with non-zero respawn info; its preset id indexes the preset table |
| MacroTable.RespawnFieldsShape | src/pc/network/packets/packet_macro_deletions.c:57-64 | the k-th record visited starts at slot 5k, its respawn info is slot 5k+4, none of the visited records ends the list, and the scan stops at the first record that does |
| MacroTable.RespawnFieldAt | src/pc/network/packets/packet_macro_deletions.c:63-64 | the k-th respawn field reported lies at slot 5k+4 inside the table |
| MacroTable.RespawnFieldsEnd | src/pc/network/packets/packet_macro_deletions.c:57-60 | the scan stops inside the table, at the record just after the last one it visits |
| MacroTable.RespawnFieldsBounds | src/pc/network/packets/packet_macro_deletions.c:63-64 | every respawn field the scan reads lies inside the table, and they come in strictly increasing order |
| MacroTable.ScanDeletionsExact | src/pc/network/packets/packet_macro_deletions.c:56-73 | in a table of at most 65536 slots, the deletion list is exactly the visited respawn fields whose flag is set (both directions), in strictly increasing order |
| MacroTable.ScanDeletionsMember | src/pc/network/packets/packet_macro_deletions.c:56-73 | one slot at a time: a slot is listed iff it is a visited respawn field with the flag set |
| MacroTable.ScanDeletionsIncreasing | src/pc/network/packets/packet_macro_deletions.c:56-73 | deletion offsets are sent in strictly increasing table order, so no offset is sent twice |
| MacroTable.ScanSpecialsInRespawnFields | src/pc/network/packets/packet_macro_deletions.c:79-99 | every special entry names a respawn field the scan visited |
| MacroTable.ScanSpecialsIncreasing | src/pc/network/packets/packet_macro_deletions.c:79-99 | special entries are sent in strictly increasing offset order |
| MacroTable.ScanSpecialsExact | src/pc/network/packets/packet_macro_deletions.c:79-99 | in a table of at most 65536 slots, the special list holds exactly the visited coin formations with non-zero respawn info (both directions), each with that value |
| MacroTable.ScanSpecialsMember | src/pc/network/packets/packet_macro_deletions.c:79-99 | one entry at a time: an entry is listed iff it names a visited coin formation's respawn field with its non-zero value |
| MacroTable.RespawnFieldsOnGrid | src/pc/network/packets/packet_macro_deletions.c:63-64 | every respawn field the scan visits is slot 4 of a five-slot record |
| ObjectPool.FirstMatch | src/pc/network/packets/packet_macro_deletions.c:17-24 | the search returns a pool index whose back-reference is the slot and no earlier such index, or nothing when no pool entry refers to the slot |
| ObjectPool.FirstMatchBackRefsOnly | src/pc/network/packets/packet_macro_deletions.c:17-24 | the search depends only on back-references, so marking objects or changing their other fields does not change what it finds |
| ObjectPool.IsCoinChild | src/pc/network/packets/packet_macro_deletions.c:194-196 | a coin child is never the formation itself and is never a coin formation |
| ObjectPool.ChildRank | src/pc/network/packets/packet_macro_deletions.c:191-197 | the number a child gets is at most its pool index: children are counted in pool order |
| ObjectPool.MaskBit | src/pc/network/packets/packet_macro_deletions.c:197 | testing bit `k` of the mask; a byte-wide mask has no bit from 8 on |
| ObjectPool.MarkCoinChildren | src/pc/network/packets/packet_macro_deletions.c:191-200 | the cascade keeps the pool size; which objects it marks is stated by `MarkCoinChildrenFrame` and `SpecialAtObjects` |
| ObjectPool.ChildRankIncreasing | src/pc/network/packets/packet_macro_deletions.c:191-197 | children of a formation are numbered in pool order: a later child gets a larger number |
| ObjectPool.ChildRankOnto | src/pc/network/packets/packet_macro_deletions.c:191-197 | every number below the child count is given to one child, with no gaps |
| ObjectPool.MarkCoinChildrenFrame | src/pc/network/packets/packet_macro_deletions.c:191-200 | the cascade only sets deletion flags, only on children of the formation, and never clears one |
| ObjectPool.CoinCascadeExample | src/pc/network/packets/packet_macro_deletions.c:191-200 | with three coins and the mask 0b101, the first and third coins are marked and the second is not |
| Applier.ForgetIfBound | src/pc/network/packets/packet_macro_deletions.c:158-164 | the registry only loses entries; the one it loses is the object's own non-zero sync id, and only when that entry still names the object |
| Applier.DeleteAt | src/pc/network/packets/packet_macro_deletions.c:150-165 | one deletion entry keeps the table and pool sizes; what it does to each store is stated by `DeleteAtTable` and `DeleteAtObjects` |
| Applier.DeleteAtTable | src/pc/network/packets/packet_macro_deletions.c:151-152 | a deletion entry sets the flag of its slot, keeps the slot's low byte and changes no other slot |
| Applier.DeleteAtObjects | src/pc/network/packets/packet_macro_deletions.c:154-165 | a deletion marks the first object bound to the slot and no other, and changes no other field. A registry entry is released exactly when it sits under that object's non-zero sync id and still names the object |
| Applier.ApplyMessage | src/pc/network/packets/packet_macro_deletions.c:137-204 | a whole packet keeps the pool size, names only slots inside the table, and leaves the table as its deletions flagged in and its specials then written over them in packet order |
| Applier.DeleteAtIdempotent | src/pc/network/packets/packet_macro_deletions.c:150-165 | receiving the same deletion twice leaves the same state as receiving it once |
| Applier.ApplyDeletions | src/pc/network/packets/packet_macro_deletions.c:145-166 | the deletion section keeps the pool size, and leaves the table as every listed slot flagged in turn |
| Applier.FlagTableFlags | src/pc/network/packets/packet_macro_deletions.c:145-152 | after the deletion section every listed slot carries the flag with its low byte kept, a slot that carried the flag still does, and an unlisted slot is unchanged |
| Applier.SpecialAt | src/pc/network/packets/packet_macro_deletions.c:172-204 | a special entry writes its value into its slot verbatim, keeps the pool size and never touches the registry |
| Applier.ApplySpecials | src/pc/network/packets/packet_macro_deletions.c:170-204 | the special section names slots inside the table, keeps the registry, and leaves the table as every value written in packet order |
| Applier.WriteSpecialsLastWins | src/pc/network/packets/packet_macro_deletions.c:172-177 | the last entry naming a slot decides the slot's value |
| Applier.WriteSpecialsUntouched | src/pc/network/packets/packet_macro_deletions.c:172-177 | a slot that no entry names keeps its value |
| Applier.WriteSpecialsSource | src/pc/network/packets/packet_macro_deletions.c:172-177 | after the special section each slot holds its old value or the value of an entry that names it |
| Applier.SpecialAtObjects | src/pc/network/packets/packet_macro_deletions.c:180-200 | for a coin formation with a bound object: the value is stored on the object, the mask is the value's high byte, and exactly the children whose number has its bit in the mask get marked. Otherwise the pool is unchanged |
| Applier.ChildRankSameFamily | src/pc/network/packets/packet_macro_deletions.c:191-196 | child numbering depends only on parents and behaviours, so storing the value on the formation does not renumber its children |
| Applier.SpecialsSafeOnLayout | src/pc/network/packets/packet_macro_deletions.c:176-181 | entries at respawn-info positions that fit the sender's table also fit, one after the other, a receiver table with the same records |
| MacroDeletions.WorthSending | src/pc/network/packets/packet_macro_deletions.c:101-105 | with fewer than 256 entries per list, a packet is sent exactly when it reports at least one deletion or special |
| MacroDeletions.WriteLocation | src/pc/network/packets/packet_macro_deletions.c:42-45 | the header is the four location fields, appended to the packet |
| MacroDeletions.ReadLocation | src/pc/network/packets/packet_macro_deletions.c:126-130 | the receiver reads the packet's location and moves past the header |
| MacroDeletions.WriteDeletionSection | src/pc/network/packets/packet_macro_deletions.c:50-73 | the in-place count byte ends up as the wrapped number of flagged records, followed by exactly the first pass's offsets |
| MacroDeletions.WriteSpecialSection | src/pc/network/packets/packet_macro_deletions.c:75-99 | the in-place count byte ends up as the wrapped number of entries, followed by exactly the second pass's pairs |
| MacroDeletions.World.AtLocation | src/pc/network/packets/packet_macro_deletions.c:132-135 | the receiver accepts a packet exactly when its location equals the current one with the area field ignored |
| MacroDeletions.World.GetObjectMatchingRespawnInfo | src/pc/network/packets/packet_macro_deletions.c:17-24 | the loop finds what `FirstMatch` specifies: the first pool object bound to the slot, or none |
| MacroDeletions.World.SendMacroDeletionsArea | src/pc/network/packets/packet_macro_deletions.c:28-106 | no packet for an unloaded area or an unknown or disconnected peer. Otherwise the packet is `Encode` of the area's scans, sent iff a wrapped count byte is non-zero |
| MacroDeletions.World.SendMacroDeletions | src/pc/network/packets/packet_macro_deletions.c:108-123 | nothing is sent while the local area is not synced or the peer is unknown or disconnected. Otherwise the packets for areas 0 to 7 go out in area order |
| MacroDeletions.World.DeleteCoinChildren | src/pc/network/packets/packet_macro_deletions.c:191-200 | the loop leaves the pool as `MarkCoinChildren`: children are numbered by a wrapping byte counter, and a child is marked iff the mask has its number's bit |
| MacroDeletions.World.ReceiveDeletion | src/pc/network/packets/packet_macro_deletions.c:146-165 | one deletion entry leaves the area's table, the pool and the registry as `DeleteAt` |
| MacroDeletions.World.ReceiveSpecial | src/pc/network/packets/packet_macro_deletions.c:173-203 | one special entry leaves the area's table and the pool as `SpecialAt` |
| MacroDeletions.World.ReceiveDeletions | src/pc/network/packets/packet_macro_deletions.c:145-166 | the count-down loop consumes exactly `2 * count` bytes and applies the parsed offsets in packet order |
| MacroDeletions.World.ReceiveSpecials | src/pc/network/packets/packet_macro_deletions.c:170-204 | the count-down loop consumes exactly `4 * count` bytes and applies the parsed pairs in packet order |
| MacroDeletions.World.ReceiveEntries | src/pc/network/packets/packet_macro_deletions.c:137-204 | after the header, the packet's deletions and then its specials are applied to the named area |
| MacroDeletions.World.ReceiveMacroDeletions | src/pc/network/packets/packet_macro_deletions.c:125-205 | a packet for another course, act or level changes nothing (the area field is not compared). Otherwise the named area ends up as `ApplyMessage` of the parsed packet and no other area's table changes |
| CatchUp.DeletionsOnGrid | src/pc/network/packets/packet_macro_deletions.c:56-73 | every deletion offset sent is a flagged respawn field at slot 4 of a record |
| CatchUp.SpecialsOnGrid | src/pc/network/packets/packet_macro_deletions.c:79-99 | every special sent names a coin formation's respawn field with the sender's value, in increasing order |
| CatchUp.FlagTableOnGrid | src/pc/network/packets/packet_macro_deletions.c:150-152 | flagging respawn fields leaves the rest of each record alone |
| CatchUp.MessageApplies | src/pc/network/packets/packet_macro_deletions.c:145-204 | a receiver with the sender's records can apply the sender's message without reading outside its table or the preset table |
| CatchUp.ReceiverKeepsLayout | src/pc/network/packets/packet_macro_deletions.c:145-204 | after the message the receiver's table still has the sender's records; only respawn info differs |
| CatchUp.ReceiverFlagsDeletions | src/pc/network/packets/packet_macro_deletions.c:56-73 | every record the sender has flagged as destroyed is flagged at the receiver after the message |
| CatchUp.ReceiverCopiesCoinFormations | src/pc/network/packets/packet_macro_deletions.c:79-99 | every coin formation the sender reports holds the sender's exact value at the receiver after the message |
| CatchUp.CoinFieldWritten | src/pc/network/packets/packet_macro_deletions.c:172-177 | writing the sender's special section sets each reported coin field to the sender's value, whatever the table held before |
| CatchUp.ReceiverChangesNothingElse | src/pc/network/packets/packet_macro_deletions.c:145-204 | a slot that is neither a flagged field nor a reported coin formation of the sender keeps the receiver's own value |
| CatchUp.PacketCatchUp | src/pc/network/packets/packet_macro_deletions.c:125-204 | with fewer than 256 entries per list, the packet the sender builds parses to its message, and applying it flags every field the sender flagged, copies every reported coin formation and changes nothing else |

## Left out

- Transport: `packet_init` and `network_send_to` are not modelled. A sent packet is the `Transmission` value the method returns, and the transport header `packet_init` stamps is left out. No capacity limit of the packet buffer is modelled.
- `packet_read` past the end of a packet is not modelled. `World.ReceiveMacroDeletions` requires a packet that holds every field its counts announce (`Receivable`), because the behaviour of a short read lies in code outside this file.
- Logging (`LOG_INFO`, `LOG_ERROR`) has no effect on state and is left out.
- Byte order: `packet_write` and `packet_read` are not part of this model. The model assumes both peers use the same byte order, and fixes it as little-endian.
- `MacroObjectPresets` is a parameter: the `presets` field maps a preset id to one of four behaviour kinds. Behaviour scripts are compared as tags instead of pointers.
- `obj_mark_for_deletion` is modelled as setting a flag on the pool object. `network_forget_sync_object` is modelled as removing the registry entry. Reaping objects and anything else those functions do is outside this file.
- `network_player_from_global_index` is modelled as a map from global index to peer, so a missing key is a NULL result.
- Object identity is a pool index. The object's `respawnInfo` pointer is an (area, slot) pair. A parent pointer outside the pool is `None`.
- `OBJECT_POOL_CAPACITY` is the pool array's length.
- `RESPAWN_INFO_DONT_RESPAWN` is defined in `object_constants.h`, which is not part of this model. The model fixes it as 0xFF (`MacroTable.RespawnInfoDontRespawn`). `SetDontRespawn` and `DontRespawnSet`, and every property built on them, depend on that value.
- The C code has undefined behaviour in several cases; each becomes a precondition of the receiver:
  - an area index of 8 or more (`World.Receivable`);
  - an offset outside the area's table (`OffsetsFit`, `SpecialFits`);
  - a special offset below 4 (`SpecialFits`);
  - a preset id outside `MacroObjectPresets` (`SpecialFits`).

  The sender's tables are required to end inside the table (`Terminated`) and to name known presets (`PresetsKnown`).
- A NULL `macroObjects` table is not modelled for any area: the receiver writes through the table without checking `loaded`, and in the model every area has a table.
- ObjectPool.MaskBit: `1 << childIndex` is undefined in C once `childIndex` reaches 32. The model reads bit `k` of the mask mathematically, which is 0 for any `k` of 8 or more since the mask is a byte.
- CatchUp: the catch-up lemmas are stated over the sender's message. The packet carries that message only when each list has fewer than 256 entries (`Wire.PacketCarriesMessage`). With exactly 256 deletions and no specials both count bytes are 0 and nothing is sent; with more, the receiver reads `count % 256` offsets and then takes offset bytes for the special section. Only below that bound does `PacketCatchUp` state the result for the received packet.
- Wire.ParseEncode: the round trip is stated only for lists of fewer than 256 entries. The count fields are single bytes that wrap, and with 256 or more entries the receiver would read a different count.
- MacroTable.ScanDeletionsExact: stated for tables of at most 65536 slots. Beyond that the `u16` offset truncates (`Offset`), and the model keeps that truncation in the sender.
- MacroTable.ScanSpecialsExact: stated for tables of at most 65536 slots, for the same reason.
- Concurrency is not modelled: each handler call is taken as one uninterrupted step.
- Pointer aliasing between area tables is not modelled: distinct areas are required to have distinct tables (`World.Valid`).
