/** The static region: named fixed-size slots handed out by a bump allocator
    from address 0, with the last 64 bytes of the store kept for the JSON
    record. */
module StaticRegistry {
  import opened Medium

  /** A registry entry: where the slot starts and how many bytes it owns. */
  datatype Slot = Slot(address: SizeT, size: SizeT)

  /** Bytes kept free at the end of the store for the JSON record. */
  const Reserve: SizeT := 64

  /** The registration guard as the code writes it: accepted unless
      nextFreeAddr + size >= eepromSize - 64, both sides in size_t. */
  predicate Fits(cursor: SizeT, size: SizeT, eepromSize: SizeT)
    ensures Reserve <= eepromSize && cursor + size < SizeMod ==>
              (Fits(cursor, size, eepromSize) <==> cursor + size < eepromSize - Reserve)
  {
    AddSize(cursor, size) < SubSize(eepromSize, Reserve)
  }

  /** The guard the code means: the new slot ends before the reserved tail,
      in unbounded arithmetic. */
  predicate FitsChecked(cursor: SizeT, size: SizeT, eepromSize: SizeT)
    ensures FitsChecked(cursor, size, eepromSize) ==> Fits(cursor, size, eepromSize)
  {
    Reserve <= eepromSize && cursor + size < eepromSize - Reserve
  }

  /** Where nothing wraps, the written guard is the intended one. */
  lemma FitsAgreesWithoutWrap(cursor: SizeT, size: SizeT, eepromSize: SizeT)
    requires Reserve <= eepromSize && cursor + size < SizeMod
    ensures Fits(cursor, size, eepromSize) <==> FitsChecked(cursor, size, eepromSize)
  {
  }

  /** A store of exactly 64 bytes has no static region: every registration
      is rejected. */
  lemma NoSlotInReserveOnlyStore(cursor: SizeT, size: SizeT)
    ensures !Fits(cursor, size, 64)
  {
  }

  /** Finding, as written: with eepromSize below 64, eepromSize - 64 wraps and
      a 40-byte slot is accepted in a 32-byte store. */
  lemma SmallStoreAdmitsOverflow()
    ensures Fits(0, 40, 32)
    ensures !FitsChecked(0, 40, 32)
  {
  }

  /** Finding, as written: a size near SIZE_MAX wraps nextFreeAddr + size, the
      guard accepts it and the cursor moves backwards from 4 to 3. */
  lemma HugeSizeWrapsCursor()
    ensures Fits(4, SizeMod - 1, 512)
    ensures AddSize(4, SizeMod - 1) == 3
    ensures !FitsChecked(4, SizeMod - 1, 512)
  {
  }

  /** std::map::operator[]: an absent key is inserted with the value-initialised
      entry {0, 0}; a present key is left as it is. */
  function Touch(entries: map<Key, Slot>, key: Key): (r: map<Key, Slot>)
    ensures r.Keys == entries.Keys + {key}
    ensures forall k :: k in entries ==> r[k] == entries[k]
    ensures key !in entries ==> r[key] == Slot(0, 0)
  {
    if key in entries then entries else entries[key := Slot(0, 0)]
  }

  /** The outcome checkKey reports (it only logs; callers go on regardless). */
  datatype KeyCheck = Unregistered | SizeMismatch | KeyOk

  function CheckKey(entries: map<Key, Slot>, key: Key, width: nat): (r: KeyCheck)
    ensures r == Unregistered <==> key !in entries
    ensures r == SizeMismatch <==> key in entries && entries[key].size < width
  {
    if key !in entries then Unregistered
    else if entries[key].size < width then SizeMismatch
    else KeyOk
  }

  /** The size of key's slot, 0 for a key with none. */
  function SizeOf(entries: map<Key, Slot>, key: Key): nat
  {
    if key in entries then entries[key].size else 0
  }

  /** The bytes taken by the slots of `order`, added up. */
  function Used(entries: map<Key, Slot>, order: seq<Key>): nat
  {
    if order == [] then 0 else SizeOf(entries, order[0]) + Used(entries, order[1..])
  }

  lemma {:induction false} UsedAppend(entries: map<Key, Slot>, order: seq<Key>, key: Key)
    ensures Used(entries, order + [key]) == Used(entries, order) + SizeOf(entries, key)
  {
    if order != [] {
      assert (order + [key])[1..] == order[1..] + [key];
      UsedAppend(entries, order[1..], key);
    } else {
      assert [key][1..] == [];
    }
  }

  /** The slots of `order` lie back to back from address 0 in that order,
      each key once, and the last one ends at the cursor. */
  ghost predicate Stacked(entries: map<Key, Slot>, order: seq<Key>, cursor: nat)
    decreases |order|
  {
    if order == [] then cursor == 0
    else
      var last := order[|order| - 1];
      last in entries && last !in order[..|order| - 1] &&
      entries[last].address + entries[last].size == cursor &&
      Stacked(entries, order[..|order| - 1], entries[last].address)
  }

  /** The layout of the static region: the registered keys, in registration
      order, are stacked up to the cursor, and every other key in the map is
      one that get/set inserted, with entry {0, 0}. */
  ghost predicate Laid(entries: map<Key, Slot>, order: seq<Key>, cursor: nat)
  {
    Stacked(entries, order, cursor) &&
    forall k :: k in entries && k !in order ==> entries[k] == Slot(0, 0)
  }

  /** Stacking depends only on the entries of the stacked keys. */
  lemma {:induction false} StackedIgnoresOtherKey(entries: map<Key, Slot>, order: seq<Key>, cursor: nat, key: Key, slot: Slot)
    requires key !in order
    ensures Stacked(entries[key := slot], order, cursor) == Stacked(entries, order, cursor)
    decreases |order|
  {
    if order != [] {
      var last := order[|order| - 1];
      if last in entries {
        StackedIgnoresOtherKey(entries, order[..|order| - 1], entries[last].address, key, slot);
      }
    }
  }

  /** Every stacked slot is in the map and ends at or below the cursor. */
  lemma {:induction false} StackedBelowCursor(entries: map<Key, Slot>, order: seq<Key>, cursor: nat)
    requires Stacked(entries, order, cursor)
    ensures forall i :: 0 <= i < |order| ==>
              order[i] in entries && entries[order[i]].address + entries[order[i]].size <= cursor
    decreases |order|
  {
    if order != [] {
      var n := |order| - 1;
      StackedBelowCursor(entries, order[..n], entries[order[n]].address);
      assert forall i :: 0 <= i < n ==> order[i] == order[..n][i];
    }
  }

  /** Stacked slots are pairwise disjoint and lie in registration order. */
  lemma {:induction false} SlotsDisjoint(entries: map<Key, Slot>, order: seq<Key>, cursor: nat)
    requires Stacked(entries, order, cursor)
    ensures forall i, j :: 0 <= i < j < |order| ==>
              order[i] in entries && order[j] in entries &&
              entries[order[i]].address + entries[order[i]].size <= entries[order[j]].address
    decreases |order|
  {
    if order != [] {
      var n := |order| - 1;
      SlotsDisjoint(entries, order[..n], entries[order[n]].address);
      StackedBelowCursor(entries, order[..n], entries[order[n]].address);
      assert forall i :: 0 <= i < n ==> order[i] == order[..n][i];
    }
  }

  /** Each stacked key appears once. */
  lemma {:induction false} StackedDistinct(entries: map<Key, Slot>, order: seq<Key>, cursor: nat)
    requires Stacked(entries, order, cursor)
    ensures forall i, j :: 0 <= i < j < |order| ==> order[i] != order[j]
    decreases |order|
  {
    if order != [] {
      var n := |order| - 1;
      StackedDistinct(entries, order[..n], entries[order[n]].address);
      assert forall i :: 0 <= i < n ==> order[i] == order[..n][i];
      assert forall i :: 0 <= i < n ==> order[i] in order[..n];
    }
  }

  /** The cursor is the sum of the registered sizes. */
  lemma {:induction false} StackedSum(entries: map<Key, Slot>, order: seq<Key>, cursor: nat)
    requires Stacked(entries, order, cursor)
    ensures cursor == Used(entries, order)
    decreases |order|
  {
    if order != [] {
      var n := |order| - 1;
      StackedSum(entries, order[..n], entries[order[n]].address);
      assert order[..n] + [order[n]] == order;
      UsedAppend(entries, order[..n], order[n]);
    }
  }

  /** A prefix of the registration order is stacked up to where the next
      slot starts. */
  lemma {:induction false} StackedPrefix(entries: map<Key, Slot>, order: seq<Key>, cursor: nat, i: nat)
    requires Stacked(entries, order, cursor) && i < |order|
    ensures order[i] in entries && Stacked(entries, order[..i], entries[order[i]].address)
    decreases |order|
  {
    var n := |order| - 1;
    if i < n {
      StackedPrefix(entries, order[..n], entries[order[n]].address, i);
      assert order[..n][..i] == order[..i];
    }
  }

  /** Each slot starts at the sum of the sizes registered before it. */
  lemma OffsetsArePrefixSums(entries: map<Key, Slot>, order: seq<Key>, cursor: nat)
    requires Stacked(entries, order, cursor)
    ensures forall i :: 0 <= i < |order| ==> order[i] in entries && entries[order[i]].address == Used(entries, order[..i])
  {
    forall i | 0 <= i < |order| ensures order[i] in entries && entries[order[i]].address == Used(entries, order[..i]) {
      StackedPrefix(entries, order, cursor, i);
      StackedSum(entries, order[..i], entries[order[i]].address);
    }
  }

  /** Every slot in the map, registered or inserted by get/set, lies within
      [0, cursor). */
  lemma SlotsBelowCursor(entries: map<Key, Slot>, order: seq<Key>, cursor: nat)
    requires Laid(entries, order, cursor)
    ensures forall k :: k in entries ==> entries[k].address + entries[k].size <= cursor
  {
    StackedBelowCursor(entries, order, cursor);
    forall k | k in entries ensures entries[k].address + entries[k].size <= cursor {
      if k in order {
        var i :| 0 <= i < |order| && order[i] == k;
      }
    }
  }

  /** A successful registration that does not wrap appends the new slot at
      the cursor and keeps the layout. */
  lemma RegisterKeepsLaid(entries: map<Key, Slot>, order: seq<Key>, cursor: SizeT, key: Key, size: SizeT)
    requires Laid(entries, order, cursor)
    requires key !in entries && cursor + size < SizeMod
    ensures Laid(entries[key := Slot(cursor, size)], order + [key], cursor + size)
  {
    StackedBelowCursor(entries, order, cursor);
    assert key !in order;
    StackedIgnoresOtherKey(entries, order, cursor, key, Slot(cursor, size));
    assert (order + [key])[..|order|] == order;
  }

  /** An implicit insert by get/set keeps the layout. */
  lemma TouchKeepsLaid(entries: map<Key, Slot>, order: seq<Key>, cursor: nat, key: Key)
    requires Laid(entries, order, cursor)
    ensures Laid(Touch(entries, key), order, cursor)
  {
    if key !in entries {
      StackedBelowCursor(entries, order, cursor);
      assert key !in order;
      StackedIgnoresOtherKey(entries, order, cursor, key, Slot(0, 0));
    }
  }

  /** The corrected guard: a registration it accepts keeps the layout and
      every slot, old and new, ends before the reserved tail. */
  lemma CheckedRegistrationStaysBelowReserve(entries: map<Key, Slot>, order: seq<Key>, cursor: SizeT,
                                             key: Key, size: SizeT, eepromSize: SizeT)
    requires Laid(entries, order, cursor)
    requires key !in entries && FitsChecked(cursor, size, eepromSize)
    ensures Fits(cursor, size, eepromSize)
    ensures Laid(entries[key := Slot(cursor, size)], order + [key], cursor + size)
    ensures cursor + size < eepromSize - Reserve
    ensures forall k :: k in entries ==> entries[k].address + entries[k].size < eepromSize - Reserve
  {
    RegisterKeepsLaid(entries, order, cursor, key, size);
    SlotsBelowCursor(entries, order, cursor);
  }

  /** A write of at most the slot's width at a key's address leaves every
      other slot's bytes as they were. */
  lemma PutKeepsOtherSlots(entries: map<Key, Slot>, order: seq<Key>, cursor: nat,
                           s: seq<Byte>, key: Key, v: seq<Byte>, other: Key)
    requires Laid(entries, order, cursor)
    requires key in entries && |v| <= entries[key].size
    requires other in entries && other != key
    ensures forall i :: entries[other].address <= i < entries[other].address + entries[other].size && i < |s| ==>
              Put(s, entries[key].address, v)[i] == s[i]
  {
    if key in order && other in order {
      var i :| 0 <= i < |order| && order[i] == key;
      var j :| 0 <= j < |order| && order[j] == other;
      SlotsDisjoint(entries, order, cursor);
    }
  }
}
