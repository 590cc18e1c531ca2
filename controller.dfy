/** EEPROMController: one explicit instance of the store. It owns the EEPROM
    buffer, the registry of static slots with its bump cursor, and reads and
    writes the single JSON record anchored at the cursor. */
module EepromController {
  import opened Medium
  import opened StaticRegistry
  import opened JsonRecord

  /** What registerStaticEntry reports on its diagnostic channel. */
  datatype Registration = Registered | DuplicateKey | Overflow

  class Controller {
    /** The EEPROM library's buffer; its length is the size the medium was
        opened with, 0 before begin. */
    var mem: array<Byte>
    /** Key to {address, size}. */
    var entries: map<Key, Slot>
    var nextFreeAddr: SizeT
    var eepromSize: SizeT
    /** The keys registered by registerStaticEntry, in registration order. */
    ghost var order: seq<Key>

    /** The static region is laid out back to back in registration order. */
    ghost predicate Layout()
      reads this
    {
      Laid(entries, order, nextFreeAddr)
    }

    /** EEPROM.read. */
    function ReadByte(addr: int): (b: Byte)
      reads this, mem
      ensures b == ReadAt(mem[..], addr)
    {
      if 0 <= addr < mem.Length then mem[addr] else 0
    }

    /** The medium holds s with the first n bytes of rec written from base on,
        those past the end of the medium dropped. */
    ghost predicate Written(s: seq<Byte>, base: nat, rec: seq<Byte>, n: nat)
      reads this, mem
    {
      n <= |rec| && mem.Length == |s| &&
      forall j :: 0 <= j < mem.Length ==> mem[j] == if base <= j < base + n then rec[j - base] else s[j]
    }

    /** EEPROM.write: stores b at addr, or drops it past the end of the medium. */
    method Write(addr: nat, b: Byte)
      modifies mem
      ensures addr < mem.Length ==> mem[addr] == b
      ensures forall j :: 0 <= j < mem.Length && j != addr ==> mem[j] == old(mem[j])
    {
      if addr < mem.Length {
        mem[addr] := b;
      }
    }

    /** The state the singleton starts in: no entries, cursor 0, size 512,
        and the medium not yet opened. */
    constructor ()
      ensures entries == map[] && order == [] && nextFreeAddr == 0 && eepromSize == 512
      ensures mem.Length == 0
      ensures Layout()
    {
      mem := new Byte[0];
      entries := map[];
      nextFreeAddr := 0;
      eepromSize := 512;
      order := [];
    }

    /** begin: records the size and opens the medium, which loads its
        persisted cells. The registry and the cursor are kept. */
    method Begin(size: SizeT, persisted: seq<Byte>)
      requires |persisted| == size
      modifies this`eepromSize, this`mem
      ensures eepromSize == size
      ensures fresh(mem) && mem[..] == persisted
    {
      eepromSize := size;
      mem := new Byte[size](i => if 0 <= i < |persisted| then persisted[i] else 0);
    }

    /** registerStaticEntry: rejects a known key, then a slot that would
        reach eepromSize - 64 (size_t arithmetic); otherwise places the slot
        at the cursor and advances the cursor by its size. */
    method RegisterStaticEntry(key: Key, size: SizeT) returns (outcome: Registration)
      modifies this`entries, this`nextFreeAddr, this`order
      ensures outcome == if key in old(entries) then DuplicateKey
                         else if Fits(old(nextFreeAddr), size, eepromSize) then Registered
                         else Overflow
      ensures outcome != Registered ==>
                entries == old(entries) && nextFreeAddr == old(nextFreeAddr) && order == old(order)
      ensures outcome == Registered ==>
                entries == old(entries)[key := Slot(old(nextFreeAddr), size)] &&
                nextFreeAddr == AddSize(old(nextFreeAddr), size) &&
                order == old(order) + [key]
      ensures outcome == Registered ==> nextFreeAddr < SubSize(eepromSize, Reserve)
      ensures old(Layout()) && old(nextFreeAddr) + size < SizeMod ==> Layout()
      ensures old(Layout()) && FitsChecked(old(nextFreeAddr), size, eepromSize) ==>
                forall k :: k in entries ==> entries[k].address + entries[k].size < eepromSize - Reserve
    {
      if key in entries {
        if Layout() {
          SlotsBelowCursor(entries, order, nextFreeAddr);
        }
        outcome := DuplicateKey;
      } else if AddSize(nextFreeAddr, size) >= SubSize(eepromSize, Reserve) {
        outcome := Overflow;
      } else {
        if Layout() && nextFreeAddr + size < SizeMod {
          RegisterKeepsLaid(entries, order, nextFreeAddr, key, size);
        }
        if Layout() && FitsChecked(nextFreeAddr, size, eepromSize) {
          CheckedRegistrationStaysBelowReserve(entries, order, nextFreeAddr, key, size, eepromSize);
        }
        entries := entries[key := Slot(nextFreeAddr, size)];
        nextFreeAddr := AddSize(nextFreeAddr, size);
        order := order + [key];
        outcome := Registered;
      }
    }

    /** get<T> with sizeof(T) == width: checkKey only reports, then
        entries[key] inserts {0, 0} for an unknown key, and EEPROM.get copies
        width bytes from the slot's address (when they lie in the medium;
        otherwise the value is left uninitialised). */
    method Get(key: Key, width: nat) returns (v: seq<Byte>, check: KeyCheck)
      modifies this`entries
      ensures check == CheckKey(old(entries), key, width)
      ensures entries == Touch(old(entries), key)
      ensures |v| == width
      ensures entries[key].address + width <= mem.Length ==>
                v == mem[entries[key].address..entries[key].address + width]
      ensures old(Layout()) ==> Layout()
    {
      check := CheckKey(entries, key, width);
      if Layout() {
        TouchKeepsLaid(entries, order, nextFreeAddr, key);
      }
      entries := Touch(entries, key);
      var a := entries[key].address;
      if a + width <= mem.Length {
        v := mem[a..a + width];
      } else {
        v := seq(width, _ => 0);
      }
    }

    /** set<T> with the value's bytes v: checkKey only reports, entries[key]
        inserts {0, 0} for an unknown key, and EEPROM.put copies v to the
        slot's address (commit is not modelled). */
    method Set(key: Key, v: seq<Byte>) returns (check: KeyCheck)
      modifies this`entries, mem
      ensures check == CheckKey(old(entries), key, |v|)
      ensures entries == Touch(old(entries), key)
      ensures mem[..] == Put(old(mem[..]), entries[key].address, v)
      ensures old(Layout()) ==> Layout()
    {
      check := CheckKey(entries, key, |v|);
      if Layout() {
        TouchKeepsLaid(entries, order, nextFreeAddr, key);
      }
      entries := Touch(entries, key);
      var a := entries[key].address;
      if a + |v| <= mem.Length {
        forall i | 0 <= i < |v| {
          mem[a + i] := v[i];
        }
        assert mem[..] == old(mem[..])[..a] + v + old(mem[..])[a + |v|..];
      }
    }

    /** setJson with the serialized payload: rejected when
        nextFreeAddr + len + 2 >= eepromSize; otherwise writes the length
        byte, the key, '|' and the payload from nextFreeAddr on, byte by byte
        (cells past the medium are dropped), and no terminator. */
    method SetJson(key: Key, payload: seq<Byte>) returns (written: bool)
      modifies mem
      ensures written == JsonFits(nextFreeAddr, |payload|, eepromSize)
      ensures mem[..] == SetJsonImage(old(mem[..]), eepromSize, nextFreeAddr, key, payload)
      ensures Layout() ==>
                forall k, i :: (k in entries && entries[k].address <= i < entries[k].address + entries[k].size &&
                                i < mem.Length) ==> mem[i] == old(mem[i])
    {
      written := JsonFits(nextFreeAddr, |payload|, eepromSize);
      if written {
        WriteRecord(nextFreeAddr, key, payload);
      }
      if Layout() {
        SetJsonKeepsSlots(entries, order, nextFreeAddr, old(mem[..]), eepromSize, key, payload);
      }
    }

    /** The writes of setJson: the length byte, the key, '|' and the payload,
        one EEPROM.write per byte from base on. */
    method WriteRecord(base: nat, key: Key, payload: seq<Byte>)
      modifies mem
      ensures mem[..] == WriteAt(old(mem[..]), base, Record(key, payload))
    {
      ghost var s := mem[..];
      ghost var rec := Record(key, payload);
      assert Written(s, base, rec, 0);
      WriteRun(base, 0, [|key| % 256], s, rec);
      assert forall j :: 0 <= j < |key| ==> rec[1 + j] == KeyBytes(key)[j] by {
        forall j | 0 <= j < |key| ensures rec[1 + j] == KeyBytes(key)[j] {
          assert rec[1 + j] == rec[1..1 + |key|][j];
        }
      }
      WriteRun(base, 1, KeyBytes(key), s, rec);
      WriteRun(base, 1 + |key|, [Separator], s, rec);
      assert forall j :: 0 <= j < |payload| ==> rec[2 + |key| + j] == payload[j] by {
        forall j | 0 <= j < |payload| ensures rec[2 + |key| + j] == payload[j] {
          assert rec[2 + |key| + j] == rec[2 + |key|..][j];
        }
      }
      WriteRun(base, 2 + |key|, payload, s, rec);
      ghost var image := WriteAt(s, base, rec);
      forall j | 0 <= j < mem.Length ensures mem[j] == image[j] {
      }
      assert mem[..] == image;
    }

    /** One loop of setJson: writes `bytes`, the part of the record `rec` from
        offset `start` on, at base + start, one EEPROM.write per byte. */
    method WriteRun(base: nat, start: nat, bytes: seq<Byte>, ghost s: seq<Byte>, ghost rec: seq<Byte>)
      requires start + |bytes| <= |rec|
      requires forall j :: 0 <= j < |bytes| ==> rec[start + j] == bytes[j]
      requires Written(s, base, rec, start)
      modifies mem
      ensures Written(s, base, rec, start + |bytes|)
    {
      var i := 0;
      while i < |bytes|
        invariant 0 <= i <= |bytes|
        invariant Written(s, base, rec, start + i)
      {
        Write(base + start + i, bytes[i]);
        i := i + 1;
      }
    }

    /** getJson: checks the length byte, reads the stored key and checks it
        and the separator, then collects payload bytes up to '\0', 0xFF or
        eepromSize. The collected text goes to the JSON parser, here the
        caller's `parses`; ok is false on a framing mismatch or a parse
        failure. Nothing is changed. */
    method GetJson(key: Key, parses: seq<Byte> -> bool) returns (ok: bool, text: Option<seq<Byte>>)
      ensures text == ReadRecord(mem[..], eepromSize, nextFreeAddr, key)
      ensures ok <==> text.Some? && parses(text.value)
    {
      var base := nextFreeAddr;
      text := None;
      if ReadByte(base) == |key| {
        var keyIn := ReadStoredKey(base, |key|);
        if keyIn == KeyBytes(key) && ReadByte(base + 1 + |key|) == Separator {
          var json := CollectFrom(base + 2 + |key|);
          text := Some(json);
        }
      }
      ok := text.Some? && parses(text.value);
    }

    /** The key-comparison loop of getJson: the n bytes after the length byte. */
    method ReadStoredKey(base: nat, n: nat) returns (keyIn: seq<Byte>)
      ensures keyIn == StoredKey(mem[..], base, n)
    {
      keyIn := [];
      var i := 0;
      while i < n
        invariant 0 <= i <= n
        invariant keyIn == StoredKey(mem[..], base, i)
      {
        keyIn := keyIn + [ReadByte(base + 1 + i)];
        i := i + 1;
      }
    }

    /** The payload loop of getJson: bytes from `start` up to a 0 or 0xFF
        byte or the end of the store. */
    method CollectFrom(start: nat) returns (json: seq<Byte>)
      ensures json == Collect(mem[..], eepromSize, start)
    {
      json := [];
      var j := start;
      while j < eepromSize
        invariant start <= j
        invariant json + Collect(mem[..], eepromSize, j) == Collect(mem[..], eepromSize, start)
        decreases eepromSize - j
      {
        var c := ReadByte(j);
        if c == Terminator || c == Erased {
          break;
        }
        json := json + [c];
        j := j + 1;
      }
      assert json + [] == json;
    }
  }

  /** The two regions leave each other alone, one way: setJson writes at the
      cursor, and every slot in the map ends at or below it, so no slot's
      cells change. */
  lemma SetJsonKeepsSlots(entries: map<Key, Slot>, order: seq<Key>, cursor: SizeT,
                          s: seq<Byte>, eepromSize: SizeT, key: Key, p: seq<Byte>)
    requires Laid(entries, order, cursor)
    ensures forall k, i :: k in entries && entries[k].address <= i < entries[k].address + entries[k].size && i < |s| ==>
              SetJsonImage(s, eepromSize, cursor, key, p)[i] == s[i]
  {
    SlotsBelowCursor(entries, order, cursor);
  }

  /** The other way: a set no wider than its slot writes below the cursor, so
      what getJson reads at the cursor, for any key, is unchanged. */
  lemma SetKeepsRecord(entries: map<Key, Slot>, order: seq<Key>, cursor: nat,
                       s: seq<Byte>, eepromSize: nat, key: Key, v: seq<Byte>, other: Key)
    requires Laid(entries, order, cursor)
    requires key in entries && |v| <= entries[key].size
    ensures ReadRecord(Put(s, entries[key].address, v), eepromSize, cursor, other) ==
            ReadRecord(s, eepromSize, cursor, other)
  {
    SlotsBelowCursor(entries, order, cursor);
    var t := Put(s, entries[key].address, v);
    forall j | cursor <= j
      ensures ReadAt(t, j) == ReadAt(s, j)
    {
      assert !(entries[key].address <= j < entries[key].address + |v|);
    }
    ReadRecordAgrees(t, s, eepromSize, cursor, other);
  }

  /** set then get of the same width gives the value back, whether or not
      the key was registered, as long as the bytes lie in the medium; with a
      width that fits the slot, no other slot's bytes change. */
  method SetThenGet(e: Controller, key: Key, v: seq<Byte>) returns (w: seq<Byte>)
    requires (if key in e.entries then e.entries[key].address else 0) + |v| <= e.mem.Length
    modifies e`entries, e.mem
    ensures w == v
    ensures e.entries == Touch(old(e.entries), key)
    ensures old(e.Layout()) && |v| <= e.entries[key].size ==>
              forall k, i ::
                (k in e.entries && k != key && i < e.mem.Length &&
                 e.entries[k].address <= i < e.entries[k].address + e.entries[k].size)
                ==> e.mem[i] == old(e.mem[i])
    ensures old(e.Layout()) && |v| <= e.entries[key].size ==>
              forall other :: ReadRecord(e.mem[..], e.eepromSize, e.nextFreeAddr, other) ==
                              ReadRecord(old(e.mem[..]), e.eepromSize, e.nextFreeAddr, other)
  {
    ghost var s := e.mem[..];
    var check := e.Set(key, v);
    if old(e.Layout()) && |v| <= e.entries[key].size {
      forall k | k in e.entries && k != key {
        PutKeepsOtherSlots(e.entries, e.order, e.nextFreeAddr, s, key, v, k);
      }
      forall other {
        SetKeepsRecord(e.entries, e.order, e.nextFreeAddr, s, e.eepromSize, key, v, other);
      }
    }
    w, check := e.Get(key, |v|);
  }

  /** The keys of the header's example. */
  const HeatKey: Key := "heat"
  const MoistureKey: Key := "moisture"
  const StatesKey: Key := "states"
  const EnvKey: Key := "env"
  const BogusKey: Key := "bogus"
  const HumidityKey: Key := "humidity"
  const BlobKey: Key := "blob"

  /** The registrations of the header's example on a fresh 512-byte store:
      an int, a float and three bools. */
  method RegisterExampleEntries(e: Controller)
    requires e.entries == map[] && e.order == [] && e.nextFreeAddr == 0 && e.eepromSize == 512
    modifies e`entries, e`nextFreeAddr, e`order
    ensures e.entries == map[HeatKey := Slot(0, 4), MoistureKey := Slot(4, 4), StatesKey := Slot(8, 3)]
    ensures e.nextFreeAddr == 11
    ensures e.order == [HeatKey, MoistureKey, StatesKey] && e.Layout()
  {
    assert e.Layout();
    assert HeatKey != MoistureKey && HeatKey != StatesKey && MoistureKey != StatesKey;
    var r := e.RegisterStaticEntry(HeatKey, 4);
    assert r == Registered && e.order == [HeatKey];
    assert e.nextFreeAddr == 4 && e.entries == map[HeatKey := Slot(0, 4)];
    r := e.RegisterStaticEntry(MoistureKey, 4);
    assert r == Registered && e.order == [HeatKey, MoistureKey];
    assert e.nextFreeAddr == 8 && e.entries == map[HeatKey := Slot(0, 4), MoistureKey := Slot(4, 4)];
    r := e.RegisterStaticEntry(StatesKey, 3);
    assert r == Registered;
  }

  /** The int 42 as its four little-endian bytes. */
  const HeatBytes: seq<Byte> := [42, 0, 0, 0]

  /** The float 0.73f as its four little-endian IEEE 754 bytes. */
  const MoistureBytes: seq<Byte> := [72, 225, 58, 63]

  /** The bool array {true, false, true}: set<bool[3]> puts three bytes. */
  const StatesBytes: seq<Byte> := [1, 0, 1]

  /** The static half of the header's example: an int, a float and three
      bools get offsets 0, 4 and 8 and use 11 bytes; after the three sets,
      heat and moisture read back as set. */
  method ExampleStaticUsage() returns (offsets: seq<nat>, used: nat, heat: seq<Byte>, moisture: seq<Byte>)
    ensures offsets == [0, 4, 8] && used == 11
    ensures heat == HeatBytes && moisture == MoistureBytes
  {
    var e := new Controller();
    e.Begin(512, seq(512, _ => 0));
    RegisterExampleEntries(e);
    offsets := [e.entries[HeatKey].address, e.entries[MoistureKey].address, e.entries[StatesKey].address];
    used := e.nextFreeAddr;
    var check := e.Set(HeatKey, HeatBytes);
    assert e.mem[0..4] == HeatBytes;
    check := e.Set(MoistureKey, MoistureBytes);
    assert e.mem[0..4] == HeatBytes && e.mem[4..8] == MoistureBytes;
    check := e.Set(StatesKey, StatesBytes);
    assert e.mem[0..4] == HeatBytes && e.mem[4..8] == MoistureBytes;
    heat, check := e.Get(HeatKey, 4);
    moisture, check := e.Get(MoistureKey, 4);
  }

  /** The JSON half of the header's example: with the static region using 11
      bytes of a fresh 512-byte store, the record written at the cursor reads
      back whole under its own key and not under another. */
  method ExampleJsonUsage(payload: seq<Byte>, parses: seq<Byte> -> bool)
    returns (env: Option<seq<Byte>>, bogus: Option<seq<Byte>>)
    requires Clean(payload) && |payload| <= 400
    ensures env == Some(payload)
    ensures bogus == None
  {
    var e := new Controller();
    e.Begin(512, seq(512, _ => 0));
    RegisterExampleEntries(e);
    ghost var s := e.mem[..];
    assert ReadAt(s, 11 + 3 + 2 + |payload|) == 0;
    assert JsonFits(11, |payload|, 512);
    var written := e.SetJson(EnvKey, payload);
    RoundTripExact(s, 512, 11, EnvKey, payload);
    OnlyWrittenKeyMatches(s, 512, 11, EnvKey, payload, BogusKey);
    var ok;
    ok, env := e.GetJson(EnvKey, parses);
    ok, bogus := e.GetJson(BogusKey, parses);
  }

  /** setJson after set leaves the static region alone: heat still reads
      back as set. */
  method JsonKeepsStaticUsage() returns (heat: seq<Byte>)
    ensures heat == [42, 0, 0, 0]
  {
    var e := new Controller();
    e.Begin(512, seq(512, _ => 0));
    RegisterExampleEntries(e);
    var check := e.Set(HeatKey, [42, 0, 0, 0]);
    assert e.mem[0..4] == [42, 0, 0, 0];
    var written := e.SetJson(EnvKey, [7]);
    assert e.mem[0..4] == [42, 0, 0, 0];
    heat, check := e.Get(HeatKey, 4);
  }

  /** set after setJson leaves the record alone: it still reads back whole
      under its key. */
  method StaticKeepsJsonUsage(payload: seq<Byte>, parses: seq<Byte> -> bool) returns (env: Option<seq<Byte>>)
    requires Clean(payload) && |payload| <= 400
    ensures env == Some(payload)
  {
    var e := new Controller();
    e.Begin(512, seq(512, _ => 0));
    RegisterExampleEntries(e);
    ghost var s := e.mem[..];
    assert ReadAt(s, 11 + 3 + 2 + |payload|) == 0;
    var written := e.SetJson(EnvKey, payload);
    RoundTripExact(s, 512, 11, EnvKey, payload);
    var moisture := SetThenGet(e, MoistureKey, [1, 2, 3, 4]);
    var ok;
    ok, env := e.GetJson(EnvKey, parses);
  }

  /** set on a key that was never registered writes at address 0, over the
      first slot, and leaves the key in the map, so registering it later is
      rejected as a duplicate. */
  method UnregisteredKeyUsage() returns (heat: seq<Byte>, outcome: Registration)
    ensures heat == [7, 7, 7, 7]
    ensures outcome == DuplicateKey
  {
    var e := new Controller();
    e.Begin(512, seq(512, _ => 0));
    var r := e.RegisterStaticEntry(HeatKey, 4);
    var check := e.Set(HumidityKey, [7, 7, 7, 7]);
    heat, check := e.Get(HeatKey, 4);
    outcome := e.RegisterStaticEntry(HumidityKey, 4);
  }

  /** A 64-byte store is all reserve: registration is refused and the
      registry stays empty. */
  method ReserveOnlyStore() returns (outcome: Registration, registry: map<Key, Slot>)
    ensures outcome == Overflow && registry == map[]
  {
    var e := new Controller();
    e.Begin(64, seq(64, _ => 0));
    outcome := e.RegisterStaticEntry(HeatKey, 4);
    registry := e.entries;
  }

  /** As written, a store smaller than the reserve wraps eepromSize - 64, so a
      40-byte slot is registered in a 32-byte store. */
  method SmallStoreUsage() returns (outcome: Registration, slot: Slot)
    ensures outcome == Registered && slot == Slot(0, 40)
  {
    var e := new Controller();
    e.Begin(32, seq(32, _ => 0));
    outcome := e.RegisterStaticEntry(BlobKey, 40);
    slot := e.entries[BlobKey];
  }
}
