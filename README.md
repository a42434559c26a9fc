# Accessory slot table (MoreAccessorySlots)

A Dafny model of the accessory slot engine of the MoreAccessorySlots plugin.
The plugin widens a unit's accessory list (`UnitAccessoryList`) from 4 to 16
slots and adds new accessory kinds. Each slot holds the catalog position of the
accessory it references, or `0` for an empty slot. The catalog (the game's
`AccessoryData` list) is read-only here and is passed in as a `seq<Accessory>`.

The model has six modules, one file each:

- `AccessoryKinds` (accessory_data.dfy): the `Accessory` catalog entry, the
  mask→kind derivation `KindFor`, and the class `AccessoryData` whose
  `OnBuild` method rewrites its `kind` field in place.
- `EquipResolver` (equip_resolver.dfy): what the hooks do, written as
  functions on the sequence of slot references. These cover the conflict
  pass, the placements, the membership test, clearing and copying. The
  lemmas here state the equip algorithm's properties.
- `SlotCodec` (slot_codec.dfy): the save block (a version integer, then one
  integer per slot). It has the encoder, the decoder with its failure cases,
  the round trip and the legacy migration.
- `Streams` (stream.dfy): the save stream, modelled as a sequence of integers
  with a read cursor.
- `UnitAccessoryLists` (unit_accessory_list.dfy): the class
  `UnitAccessoryList` over an `array<int>`. Its constructor and its methods
  `Clear`, `CopyFrom`, `Add`, `Serialize` and `Deserialize` change the array
  (or the stream) in place with loops, like the hooks do. Each is proved
  equal to the matching `EquipResolver` or `SlotCodec` function. `IsExist` is
  a function over the array.
- `Wrappers` (wrappers.dfy): `Option` for the hooks' nullable accessory
  argument, and `Result` for the decoder.

Behaviours of the code that the model keeps as they are:

- The overflow loop at src/lib.rs:132-136 has no `break`, so an index past
  the end puts the accessory into every empty slot, not only the first
  (`EquipOverflowFillsEveryEmptySlot`).
- The placement test at src/lib.rs:131 is `index > len`, so `index == len`
  takes the indexed write at src/lib.rs:138, which is out of bounds. `Add`
  requires `index != len` only when an accessory is given (with none it
  returns false for any index, src/lib.rs:142-143); `Equip`, the
  accessory-given path, requires it always.
- The hook aborts when the version read fails (src/lib.rs:187). The pure
  `Decode` returns `Failure(Truncated)` for a stream too short for the
  block, and `Failure(LegacyTableTooShort)` when a legacy block meets a
  table of fewer than four slots (the `[..4]` slice at src/lib.rs:197). The
  `Deserialize` method requires a stream that decodes.
- The empty reference `0` is looked up like any other reference
  (src/lib.rs:118, src/lib.rs:160) and finds catalog entry 0. Exclusivity
  therefore holds for occupied slots (`EquipExclusive`). It holds for every
  slot only if entry 0 does not have the equipped mask
  (`EquipExclusiveStrict`).

## Model

| member | source | states |
|---|---|---|
| AccessoryKinds.KindFor | src/lib.rs:70-88 | masks up to 8 keep the kind the original routine set; any mask above 8 gets kind 1 or a kind k in 4..16, and in the second case the mask is exactly 2^k |
| AccessoryKinds.KindOfHighBit | src/lib.rs:72-85 | each single-bit mask 2^e with 4 <= e <= 16 gets kind e, whatever the kind set before |
| AccessoryKinds.KindFallback | src/lib.rs:86 | a mask above 8 that is none of 2^4..2^16 gets the default kind 1 |
| AccessoryKinds.AccessoryData.OnBuild | src/lib.rs:65-89 | rewrites only the `kind` field, to KindFor of the mask and the kind the original routine set; the catalog value `Entry()` changes in its kind only |
| EquipResolver.Lookup | src/lib.rs:118 | `accessories.get(r as usize)`: finds an entry exactly when 0 <= r < catalog length, and then the entry at r; a negative r finds nothing; the empty reference 0 finds entry 0 of a non-empty catalog |
| EquipResolver.Resolves | src/lib.rs:160 | a reference resolves exactly when 0 <= r < catalog length |
| EquipResolver.Conflicts | src/lib.rs:120 | a reference conflicts with a mask exactly when it resolves to an entry whose mask equals it (equality, not bit overlap) |
| EquipResolver.Zeros | src/lib.rs:105 | the table of a given length with every slot empty |
| EquipResolver.ClearConflicts | src/lib.rs:116-124 | the length is kept; each slot whose reference resolves to an entry with exactly the given mask becomes empty; every other slot is kept |
| EquipResolver.FillEmpty | src/lib.rs:132-136 | the length is kept; every empty slot (not only the first) receives the reference; occupied slots are kept |
| EquipResolver.Equip | src/lib.rs:115-139 | equipping keeps the table's length; an index equal to the length is excluded (out-of-bounds write) |
| EquipResolver.AidEquipped | src/lib.rs:155-162 | true iff some slot's reference r has 0 <= r < catalog length and that entry's aid equals the given aid |
| EquipResolver.CopiedFrom | src/lib.rs:94-99 | the destination's length is kept; positions below both lengths take the source's value; positions at or beyond the source's length keep the destination's value |
| EquipResolver.EquipInRange | src/lib.rs:115-139 | for index < length: slot `index` holds the accessory's reference; every other slot that conflicted is empty; every other slot is unchanged |
| EquipResolver.EquipOverflow | src/lib.rs:116-136 | for index > length: every slot that was empty or conflicted holds the accessory's reference; every other slot is unchanged |
| EquipResolver.EquipOverflowFull | src/lib.rs:131-136 | an overflow equip on a table with no empty and no conflicting slot leaves the table unchanged |
| EquipResolver.EquipExclusive | src/lib.rs:118-138 | after an in-range equip of an accessory whose reference names an entry with its mask, slot `index` has that mask and no other occupied slot does |
| EquipResolver.EquipExclusiveStrict | src/lib.rs:118-138 | if catalog entry 0 does not have the mask either, exactly slot `index` resolves to the mask |
| EquipResolver.EquipTwiceSameMask | src/lib.rs:115-139 | two in-range equips of accessories sharing a mask leave exactly one slot with that mask, the second one's |
| EquipResolver.EquipOverflowFillsEveryEmptySlot | src/lib.rs:131-136 | an overflow equip on an empty table puts the accessory in every slot |
| EquipResolver.EquipThenEquipped | src/lib.rs:137-162 | after an in-range equip, the membership test finds the accessory's aid if its reference names its own entry |
| EquipResolver.CopyEqualLength | src/lib.rs:94-99 | copying between tables of equal length makes the destination equal to the source |
| EquipResolver.CopyIdempotent | src/lib.rs:94-99 | copying again from the same source changes nothing |
| EquipResolver.EquipScenario | src/lib.rs:115-163 | on 16 slots: A (mask 4) at slot 2, then B (mask 4) at slot 5, leaves only B, so A is no longer equipped and B is |
| SlotCodec.Encode | src/lib.rs:169-176 | the block is one longer than the table: the version 1 first, then slot i at position i + 1 |
| SlotCodec.Decode | src/lib.rs:181-207 | a successful decode yields exactly one reference per slot and moves the cursor forward, within the stream |
| SlotCodec.DecodeEncode | src/lib.rs:169-194 | a serialized block, at any position and with anything after it, decodes to the same slots with the cursor just past it |
| SlotCodec.DecodeLegacyDiscards | src/lib.rs:195-206 | a block with version <= 0 decodes to an all-empty table and consumes the version and four references |
| SlotCodec.DecodeLegacyIgnoresReferences | src/lib.rs:196-206 | two streams differing only in the four references of a legacy block decode that block the same, at any position, with any suffix and for any table length |
| SlotCodec.DecodeFails | src/lib.rs:187-199 | decoding fails iff the stream is too short for the announced block, or a legacy block meets a table of under four slots |
| Streams.Stream.WriteInt | src/lib.rs:169 | `write_int` appends the integer to the stream and leaves the cursor |
| Streams.Stream.ReadInt | src/lib.rs:187 | `read_int` returns the integer at the cursor and advances the cursor by one |
| UnitAccessoryLists.UnitAccessoryList.constructor | src/lib.rs:285-303 | a fresh array of 16 slots, all empty |
| UnitAccessoryLists.UnitAccessoryList.Clear | src/lib.rs:102-106 | every slot becomes empty; the array is the same array of the same length |
| UnitAccessoryLists.UnitAccessoryList.CopyFrom | src/lib.rs:91-100 | the slots become CopiedFrom of the old slots and the other list's slots; the other list is unchanged |
| UnitAccessoryLists.UnitAccessoryList.Add | src/lib.rs:108-145 | returns true iff an accessory is given; with none, nothing changes and any index is accepted; otherwise (index != length) the slots become Equip of the old slots |
| UnitAccessoryLists.UnitAccessoryList.IsExist | src/lib.rs:147-165 | true iff an accessory is given and some slot resolves to a catalog entry with its aid; out-of-range references never match |
| UnitAccessoryLists.UnitAccessoryList.Serialize | src/lib.rs:167-177 | appends the version 1 and then every slot in order to the stream |
| UnitAccessoryLists.UnitAccessoryList.Deserialize | src/lib.rs:179-208 | the slots become the decoded slots (the stored ones for version > 0, all empty for version <= 0) and the cursor moves past the block |

## Left out

- Icon and sprite lookup for a kind (src/lib.rs:210-258): asset lookup, PNG decoding and engine calls with floating-point geometry. The kind→file-name table is presentation only.
- The inline hook that picks a shop label for a kind (src/lib.rs:260-283): it reads CPU registers and writes through a raw pointer. Its kind→label table is UI text.
- The plugin entry point (src/lib.rs:305-373): the panic handler, error dialog, code patches and hook installation are host-process plumbing.
- `unitaccessorylist_get_count` (src/lib.rs:60-63) only returns 16. It appears as the constant `Count`, not as an operation.
- The global catalog `AccessoryData::get_list()` is a parameter. A missing catalog aborts the game and is not modelled.
- The `Stream` internals and `UnitAccessory::serialize`/`deserialize` are foreign. Each slot is exactly one integer written or read, and the stream is a `seq<int>` with a cursor. Writes append at the end.
- `UnitAccessory::instantiate` in the constructor is foreign. A fresh UnitAccessory is a slot holding 0.
- The slot reads at src/lib.rs:193 and src/lib.rs:199 go through the foreign `UnitAccessory::deserialize`, whose result is discarded. The model assumes that a read past the end there aborts, as the version read does. `Decode` therefore fails on a short body and `Deserialize` requires a stream long enough for the whole block.
- Aborts (`expect`/`unwrap`): a failed version `read_int` and the `[..4]` slice on a short table are preconditions of `Deserialize` and `Failure` results of `Decode`. A failed `write_int` and a failed `aid.get_string()` are not modelled.
- Integer widths: masks, kinds and references are 32-bit in the game and `int` here. No operation does arithmetic on them, so there is no wrap-around to model. The `as usize` cast of a negative reference cannot find a catalog entry, and `Resolves` models that as `0 <= r`.
- AccessoryKinds.AccessoryData.OnBuild: the kind the original routine sets is taken as given (the field's value before the hook runs). That routine is not part of this model.
