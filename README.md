# EEPROMController in Dafny

This project models `EEPROMController`, a small key-value store over an
Arduino EEPROM byte buffer of `eepromSize` bytes. The store has two parts:

- **Static registry.** `registerStaticEntry` hands out fixed-size named slots
  with a bump allocator from address 0. The cursor is `nextFreeAddr`, and the
  last 64 bytes of the store are kept back for the JSON record.
  `get<T>`/`set<T>` copy `sizeof(T)` raw bytes at a slot's address.
- **Dynamic record.** One record `[key length byte][key bytes]['|'][payload]`
  is written by `setJson` at `nextFreeAddr`. `getJson` reads it back: it
  checks the length byte, the key and the separator, then collects payload
  bytes up to `'\0'`, `0xFF` or the end of the store.

The project has four modules:

- `Medium` (`medium.dfy`): the byte medium and the Arduino EEPROM library's
  `read`, `write` and `put`, plus 32-bit `size_t` arithmetic. Addition wraps
  modulo 2^32, and a subtraction below zero wraps to the top of the range.
- `StaticRegistry` (`static_registry.dfy`): slots, the registration guard
  (as written, and corrected), `std::map::operator[]`'s implicit insert,
  `checkKey`, and the layout invariant. Slots lie back to back in
  registration order from address 0, they are pairwise disjoint, they stay
  below the cursor, and the cursor is the sum of their sizes.
- `JsonRecord` (`json_record.dfy`): the record format as a function of the
  key and payload, `getJson`'s framing as a function of the medium, and the
  round-trip lemmas.
- `EepromController` (`controller.dfy`): class `Controller` with the fields
  `mem` (an `array<Byte>`), `entries`, `nextFreeAddr` and `eepromSize`, and a
  ghost registration `order`. It has one method per operation. `setJson` and
  `getJson` keep their byte loops, and each is proved against the functions
  of `JsonRecord`. The client methods at the end replay the header's usage
  example: the three registrations, the sets of `heat`, `moisture` and
  `states`, the gets of `heat` and `moisture`, and the JSON step.

Each operation in the class follows the code as written. This includes the
`size_t` wrap in both guards, the missing terminator and the key length that
the JSON space check ignores, and the key length truncated to one byte.
The resulting defects are listed under
"## Findings". Beside each one are a counterexample and a corrected
definition with its intended property proved. Registration keeps the
layout whenever `nextFreeAddr + size` does not wrap, including in stores
smaller than 64 bytes. The bound that every slot ends before
`eepromSize - 64` is proved under the corrected guard.

In these points the model follows the code as written:

- `begin` (EEPROMController.h:14-18) only records the size and opens the
  medium. It does not clear the registry or reset the cursor.
- The record is anchored at `nextFreeAddr` (EEPROMController.h:58, 76), not
  at `eepromSize - 64`.
- No terminator byte is written after the payload (EEPROMController.h:66-71).
- The space check is `nextFreeAddr + len + 2 >= eepromSize`
  (EEPROMController.h:61). It does not count the key or a terminator.

Assumptions about the Arduino EEPROM library, which is not part of this model:

- `read` past the end of the medium gives 0.
- `write` past the end is dropped.
- `put` copies nothing unless the whole value fits.
- `get` of a range that does not fit leaves the value unspecified.

`char` is taken as unsigned, so the `0xFF` comparison in `getJson` can hold.
Keys are byte strings.

## Model

| member | source | states |
|---|---|---|
| Medium.AddSize | EEPROMController.h:30 | `size_t` addition: the exact sum when it is below 2^32, otherwise the sum minus 2^32 |
| Medium.SubSize | EEPROMController.h:24 | `size_t` subtraction: the exact difference when it is not negative, otherwise the difference plus 2^32 |
| Medium.ReadAt | EEPROMController.h:77 | EEPROM.read: the cell's value inside the medium, and 0 at any address past its end |
| Medium.WriteAt | EEPROMController.h:66-71 | a run of EEPROM.write calls from address `a`: the medium keeps its length, each byte lands at its address when that address lies in the medium, and every other cell is unchanged |
| Medium.Put | EEPROMController.h:50 | EEPROM.put writes the value's bytes at the address when they fit, writes nothing otherwise, and leaves every cell outside the range as it was |
| Medium.WriteAtFrame | EEPROMController.h:66-71 | a byte-by-byte write leaves every cell outside the written range unchanged |
| StaticRegistry.Fits | EEPROMController.h:24 | the registration guard in `size_t`: when `eepromSize >= 64` and `nextFreeAddr + size` does not wrap, it accepts exactly the slots that end below `eepromSize - 64` |
| StaticRegistry.FitsChecked | EEPROMController.h:24 | the corrected guard, in unbounded arithmetic, accepts only registrations that the written guard also accepts |
| StaticRegistry.FitsAgreesWithoutWrap | EEPROMController.h:24 | when nothing wraps, the written guard accepts exactly the registrations whose slot ends before `eepromSize - 64` |
| StaticRegistry.NoSlotInReserveOnlyStore | EEPROMController.h:24 | a 64-byte store rejects every registration |
| StaticRegistry.SmallStoreAdmitsOverflow | EEPROMController.h:24 | as written, a 32-byte store accepts a 40-byte slot at cursor 0, which the intended guard rejects |
| StaticRegistry.HugeSizeWrapsCursor | EEPROMController.h:24-30 | as written, a size of 2^32-1 at cursor 4 is accepted in a 512-byte store, and the cursor goes back to 3 |
| StaticRegistry.Touch | EEPROMController.h:44 | `entries[key]` adds `key` to the map with `{0, 0}` when it is absent and changes no existing entry |
| StaticRegistry.CheckKey | EEPROMController.h:109-114 | reports Unregistered exactly when the key is absent, and SizeMismatch exactly when the key's slot is smaller than the width |
| StaticRegistry.StackedBelowCursor | EEPROMController.h:29-30 | every registered slot is in the map and ends at or below the cursor |
| StaticRegistry.SlotsDisjoint | EEPROMController.h:29-30 | slots registered earlier end at or before the start of slots registered later, so all registered slots are pairwise disjoint |
| StaticRegistry.StackedDistinct | EEPROMController.h:20-23 | no key is registered twice |
| StaticRegistry.StackedSum | EEPROMController.h:29-30 | the cursor equals the sum of the registered sizes |
| StaticRegistry.OffsetsArePrefixSums | EEPROMController.h:29 | each slot starts at the sum of the sizes registered before it |
| StaticRegistry.SlotsBelowCursor | EEPROMController.h:29-30 | every slot in the map, including `{0, 0}` entries added by get/set, lies within `[0, nextFreeAddr)` |
| StaticRegistry.RegisterKeepsLaid | EEPROMController.h:29-30 | appending a new slot at the cursor and advancing the cursor by its size keeps the layout, when the sum does not wrap |
| StaticRegistry.TouchKeepsLaid | EEPROMController.h:44 | the implicit `{0, 0}` insert by get/set keeps the layout |
| StaticRegistry.CheckedRegistrationStaysBelowReserve | EEPROMController.h:24 | with the corrected guard, a registration is also accepted by the written guard, keeps the layout, and every slot ends before `eepromSize - 64` |
| StaticRegistry.PutKeepsOtherSlots | EEPROMController.h:50 | a `set` no wider than its key's slot leaves the bytes of every other slot unchanged |
| JsonRecord.KeyBytes | EEPROMController.h:68 | the key's bytes, one per character, in order |
| JsonRecord.KeyBytesDiffer | EEPROMController.h:82 | different keys have different stored bytes, so the key comparison separates them |
| JsonRecord.Record | EEPROMController.h:66-71 | the record is the length byte (`\|key\| mod 256`), the key bytes, `'\|'` and the payload, with no terminator |
| JsonRecord.JsonFits | EEPROMController.h:61 | the written space check: when `base + len + 2` does not wrap, it accepts exactly when `base + len + 2 < eepromSize`, without counting the key |
| JsonRecord.SetJsonImage | EEPROMController.h:55-73 | the medium after setJson keeps its length; it is unchanged when the space check rejects; otherwise the record lies at `base` when it fits in the medium; no cell outside the record's range changes |
| JsonRecord.StoredKey | EEPROMController.h:79-81 | the `n` bytes read as the stored key; when they lie in the medium, they are exactly the cells after the length byte |
| JsonRecord.HeaderMatches | EEPROMController.h:77-83 | a header that passes all three checks has a key shorter than 256 bytes, and its separator lies in the medium |
| JsonRecord.Collect | EEPROMController.h:85-89 | the collected payload is the cells from the start up to the first `'\0'`/`0xFF` or `eepromSize`, and it contains no stop byte |
| JsonRecord.ReadRecord | EEPROMController.h:75-89 | getJson's framing succeeds exactly when the header matches; the payload then holds no stop byte and ends within `eepromSize` |
| JsonRecord.ReadRecordAgrees | EEPROMController.h:75-89 | getJson at `base` depends only on the cells from `base` on |
| JsonRecord.CollectThrough | EEPROMController.h:85-89 | a run of cells with no stop byte is collected whole, and collection continues after it |
| JsonRecord.HeaderHolds | EEPROMController.h:77-83 | a medium that holds a record for `key` passes all three header checks for `key` |
| JsonRecord.ReadBackRecord | EEPROMController.h:75-89 | reading back a record image gives its payload, followed by whatever the cells after it hold |
| JsonRecord.RoundTrip | EEPROMController.h:55-89 | getJson after setJson returns the payload, followed by the stale cells after it up to a stop byte |
| JsonRecord.RoundTripExact | EEPROMController.h:85-89 | when the cell after the payload holds a stop byte, or the payload runs to `eepromSize`, getJson returns exactly the payload |
| JsonRecord.WholeHeaderRejectsOther | EEPROMController.h:77-83 | a record header that lies whole in the medium fails the header checks for every other key |
| JsonRecord.CutHeaderRejectsAll | EEPROMController.h:77-83 | a record header cut off by the end of the medium fails the header checks for every key |
| JsonRecord.OnlyWrittenKeyMatches | EEPROMController.h:76-83 | after setJson with a key shorter than 256 bytes, getJson fails for every key other than the one written, even when the medium cuts the record off |
| JsonRecord.LongKeyAliasesEmptyKey | EEPROMController.h:66 | as written, the 256-byte key `"\|{}"` followed by 253 `'a'` passes the space check in a 4-byte store and gets length byte 0; the medium keeps `0, '\|', '{', '}'`, so getJson for the empty key accepts the record and collects `"{}"`, which parses |
| JsonRecord.CheckedOnlyWrittenKeyMatches | EEPROMController.h:66 | with the corrected setJson, which refuses a key of 256 bytes or more, getJson fails for every key other than the one written |
| JsonRecord.LongKeyNeverMatches | EEPROMController.h:77 | a key of 256 bytes or more never passes the length check |
| JsonRecord.CheckedRoundTrip | EEPROMController.h:61 | with the corrected space check and a terminator, getJson returns exactly the payload, whatever the medium held before |
| JsonRecord.KeyLengthTruncatesPayload | EEPROMController.h:61 | as written, a 5-byte key passes the space check in an 8-byte store, the last payload byte is dropped, and getJson returns one of the two bytes |
| JsonRecord.StaleByteExtendsPayload | EEPROMController.h:66-71 | as written, a stale byte after the payload is read back as part of the payload |
| JsonRecord.JsonFitsChecked | EEPROMController.h:61 | the corrected space check (key and terminator counted, key shorter than 256 bytes) accepts only what the written check accepts |
| JsonRecord.SetJsonChecked | EEPROMController.h:66-71 | the corrected setJson keeps the medium's length; when the corrected check accepts, the record followed by `'\0'` lies at `base`; no cell outside that range changes |
| EepromController.Controller.constructor | EEPROMController.h:104-107 | a new controller has no entries, cursor 0, size 512 and an unopened medium, and its layout holds |
| EepromController.Controller.Begin | EEPROMController.h:14-18 | begin records the size and opens a medium that holds the persisted cells; the registry and the cursor are kept |
| EepromController.Controller.RegisterStaticEntry | EEPROMController.h:19-31 | a duplicate key, or a slot the written guard rejects, changes nothing; otherwise the slot goes at the cursor and the cursor advances by its size in `size_t`; afterwards the cursor is below `eepromSize - 64`; the layout is kept; under the corrected guard every slot ends before the reserve |
| EepromController.Controller.ReadByte | EEPROMController.h:77 | EEPROM.read: the cell's value, or 0 past the end of the medium |
| EepromController.Controller.Write | EEPROMController.h:66 | EEPROM.write: the cell gets the byte if it is in the medium, and no other cell changes |
| EepromController.Controller.Get | EEPROMController.h:40-46 | get reports checkKey, inserts `{0, 0}` for an unknown key, returns `width` bytes equal to the medium at the slot's address when they lie in it, and keeps the layout |
| EepromController.Controller.Set | EEPROMController.h:47-52 | set reports checkKey, inserts `{0, 0}` for an unknown key, puts the value at the slot's address, and keeps the layout |
| EepromController.Controller.SetJson | EEPROMController.h:55-73 | setJson reports whether the written space check passed; the medium afterwards is the record image at `nextFreeAddr`, or unchanged when rejected; when the layout holds, no cell of any registered slot changes; the registry and the cursor are not touched |
| EepromController.Controller.WriteRecord | EEPROMController.h:66-71 | the length-byte write and the three write loops together leave the medium equal to the record image at `base` |
| EepromController.Controller.WriteRun | EEPROMController.h:67-71 | one write loop extends the part of the record already in the medium by its bytes, and leaves every other cell as it was |
| EepromController.Controller.GetJson | EEPROMController.h:75-97 | getJson changes nothing, returns the framed payload exactly when the header matches the key, and succeeds exactly when that payload parses |
| EepromController.Controller.ReadStoredKey | EEPROMController.h:79-81 | the key loop reads the `n` cells after the length byte |
| EepromController.Controller.CollectFrom | EEPROMController.h:84-89 | the payload loop collects exactly the payload that `Collect` defines |
| EepromController.SetJsonKeepsSlots | EEPROMController.h:55-73 | setJson leaves every cell of every slot in the map unchanged, because the record starts at the cursor and every slot ends at or below it |
| EepromController.SetKeepsRecord | EEPROMController.h:47-52 | a set no wider than its slot leaves getJson's result at the cursor unchanged for every key |
| EepromController.SetThenGet | EEPROMController.h:40-52 | get after set of the same width returns the value, registered key or not; with a width that fits the slot, no other slot's bytes change, and getJson's result at the cursor is unchanged for every key |
| EepromController.RegisterExampleEntries | EEPROMController.h:125-128 | the example's int, float and three bools get the slots `{0,4}`, `{4,4}` and `{8,3}`, the cursor ends at 11, the registration order is heat, moisture, states, and the layout holds |
| EepromController.ExampleStaticUsage | EEPROMController.h:125-140 | the example's offsets are 0, 4 and 8 and usage is 11; after the sets of `heat` (42), `moisture` (0.73f) and `states` (three bools), `heat` and `moisture` read back as set |
| EepromController.ExampleJsonUsage | EEPROMController.h:145-149 | in the example's store, a JSON record reads back whole under its own key and not under another |
| EepromController.JsonKeepsStaticUsage | EEPROMController.h:47-73 | in the example's store, `heat` still reads back as set after setJson |
| EepromController.StaticKeepsJsonUsage | EEPROMController.h:47-89 | in the example's store, the JSON record still reads back whole after a set of `moisture` |
| EepromController.UnregisteredKeyUsage | EEPROMController.h:42-50 | set on an unregistered key overwrites the first slot, and registering that key later is rejected as a duplicate |
| EepromController.ReserveOnlyStore | EEPROMController.h:24 | a 64-byte store rejects registration and the registry stays empty |
| EepromController.SmallStoreUsage | EEPROMController.h:24 | as written, a 40-byte slot is registered in a 32-byte store |

## Left out

- JSON serialisation and parsing (EEPROMController.h:57, 91-95) belong to the ArduinoJson library. The payload is an opaque byte string, and the parse step is the caller's `parses` predicate.
- The success and durability of `EEPROM.begin` and `EEPROM.commit` belong to the Arduino EEPROM library. Begin models only a medium that opens, and commit is a no-op.
- `Serial.println` diagnostics and `debugPrintUsage` (EEPROMController.h:32-37) are output only. `checkKey`'s outcome is returned as a value instead.
- The singleton `getInstance` (EEPROMController.h:10-13) is left out, because the model uses one explicit instance.
- `T` values are modelled as their `sizeof(T)` bytes. Object representation and alignment are not modelled. The array call `e.set("states", s)` (EEPROMController.h:136) binds `T` to `bool[3]` through the reference parameter, so it is a 3-byte `set`.
- The signedness of `char` is platform-dependent, and the model takes it as unsigned. With a signed `char`, the `0xFF` stop at EEPROMController.h:87 would never fire.
- Key comparison is modelled as byte equality. Arduino `String` comparison stops at an embedded `'\0'`, so keys are assumed to hold no NUL byte.
- Address arithmetic inside the byte loops of setJson and getJson (EEPROMController.h:68-71, 81, 85) is unbounded; only the guards wrap in `size_t`.
- `putJson` in the header's example comment (EEPROMController.h:149) does not exist in the class. The example's JSON step uses `setJson`.
- BoilerplateWebServer.h is not part of this model. It holds HTTP route handlers.
- ISetupable.h is not part of this model. It is an interface with no logic.
- EepromController.Controller.Get: when the slot's bytes do not lie in the medium, the result is left unspecified, as EEPROM.get leaves the value uninitialised.
- EepromController.Controller.RegisterStaticEntry: the layout is proved to be kept only when `nextFreeAddr + size` does not wrap. Slot bounds below the reserve are proved only under the corrected guard, because the written guard admits the wrapping cases shown under "## Findings".
- JsonRecord.RoundTrip: this is proved only when the whole record fits below `eepromSize` and in the medium, with a key shorter than 256 bytes. The other cases as written are shown by JsonRecord.KeyLengthTruncatesPayload.

## Findings

| source | as written | input that shows it | evidently intended | confidence | as-written member | corrected member |
|---|---|---|---|---|---|---|
| EEPROMController.h:24 | `eepromSize - 64` is computed in `size_t` and wraps when `eepromSize < 64` | `eepromSize` 32, cursor 0, size 40: registered | a store smaller than the reserve has no static region and rejects every slot | not executed; high | StaticRegistry.SmallStoreAdmitsOverflow | StaticRegistry.CheckedRegistrationStaysBelowReserve |
| EEPROMController.h:24-30 | `nextFreeAddr + size` wraps for a huge size, which passes the guard and moves the cursor backwards | cursor 4, size 2^32-1, `eepromSize` 512: registered, and the cursor becomes 3 | the slot's end is compared without wrap-around, so the registration is rejected | not executed; high | StaticRegistry.HugeSizeWrapsCursor | StaticRegistry.CheckedRegistrationStaysBelowReserve |
| EEPROMController.h:61 | the space check counts `len + 2` bytes, but `len + keyLen + 2` bytes are written | 8-byte store, key "ABCDE", payload [1, 1] at 0: accepted, the last byte is dropped, and getJson returns [1] | the check counts the key (and a terminator) | not executed; high | JsonRecord.KeyLengthTruncatesPayload | JsonRecord.CheckedRoundTrip |
| EEPROMController.h:66-71 | no terminator is written after the payload, and getJson reads on to the next `'\0'`/`0xFF` | medium [0,0,0,0,9,0,0,0], key "A", payload [1]: getJson returns [1, 9] | a `'\0'` is written after the payload, where getJson stops | not executed; medium | JsonRecord.StaleByteExtendsPayload | JsonRecord.CheckedRoundTrip |
| EEPROMController.h:66 | the length byte is `key.length()` truncated to a byte, and nothing refuses longer keys | 4-byte store, key `"\|{}"` followed by 253 `'a'`, empty payload at 0: the medium holds `0, '\|', '{', '}'`, so getJson for the empty key accepts the record and collects `"{}"`, which parses | a key of 256 bytes or more is refused, so that only the written key matches | not executed; medium | JsonRecord.LongKeyAliasesEmptyKey | JsonRecord.CheckedOnlyWrittenKeyMatches |
