/** The dynamic region: one self-describing record
      [key length byte][key bytes]['|'][payload bytes]
    laid down by setJson at an anchor address and parsed back by getJson.
    The payload is the serialized JSON text, taken here as opaque bytes. */
module JsonRecord {
  import opened Medium

  datatype Option<T> = None | Some(value: T)

  /** The separator between the key and the payload, '|'. */
  const Separator: Byte := 124

  /** The bytes at which getJson stops collecting payload: '\0', and 0xFF,
      the value of an erased cell. */
  const Terminator: Byte := 0
  const Erased: Byte := 255

  predicate Ends(b: Byte)
  {
    b == Terminator || b == Erased
  }

  /** A payload getJson can read back whole: it holds no stop byte. */
  predicate Clean(payload: seq<Byte>)
  {
    forall i :: 0 <= i < |payload| ==> !Ends(payload[i])
  }

  /** The bytes of a key. */
  function KeyBytes(key: Key): (r: seq<Byte>)
    ensures |r| == |key|
    ensures forall i :: 0 <= i < |key| ==> r[i] == key[i] as int
  {
    seq(|key|, i requires 0 <= i < |key| => key[i] as int)
  }

  /** Two different keys have different bytes. */
  lemma KeyBytesDiffer(k1: Key, k2: Key)
    requires k1 != k2
    ensures KeyBytes(k1) != KeyBytes(k2)
  {
    if |k1| == |k2| {
      var i :| 0 <= i < |k1| && k1[i] != k2[i];
      assert KeyBytes(k1)[i] != KeyBytes(k2)[i];
    }
  }

  /** The record setJson writes: the key length truncated to one byte, the
      key, '|', the payload, and no terminator. */
  function Record(key: Key, payload: seq<Byte>): (r: seq<Byte>)
    ensures |r| == |key| + 2 + |payload|
    ensures r[0] == |key| % 256 && r[1 + |key|] == Separator
    ensures r[1..1 + |key|] == KeyBytes(key) && r[2 + |key|..] == payload
  {
    [|key| % 256] + KeyBytes(key) + [Separator] + payload
  }

  /** The space check as written: rejected when base + len + 2 >= eepromSize
      in size_t; the key length is not counted. */
  predicate JsonFits(base: SizeT, len: nat, eepromSize: SizeT)
    ensures base + len + 2 < SizeMod ==> (JsonFits(base, len, eepromSize) <==> base + len + 2 < eepromSize)
  {
    (base + len + 2) % SizeMod < eepromSize
  }

  /** The medium after setJson(key, payload) with the record anchored at base. */
  function SetJsonImage(s: seq<Byte>, eepromSize: SizeT, base: SizeT, key: Key, payload: seq<Byte>): (r: seq<Byte>)
    ensures |r| == |s|
    ensures !JsonFits(base, |payload|, eepromSize) ==> r == s
    ensures JsonFits(base, |payload|, eepromSize) && base + |key| + 2 + |payload| <= |s| ==>
              r[base..base + |key| + 2 + |payload|] == Record(key, payload)
    ensures forall j :: 0 <= j < |s| && !(base <= j < base + |key| + 2 + |payload|) ==> r[j] == s[j]
  {
    if JsonFits(base, |payload|, eepromSize) then WriteAt(s, base, Record(key, payload)) else s
  }

  /** The n bytes getJson reads as the stored key. */
  function StoredKey(s: seq<Byte>, base: nat, n: nat): (r: seq<Byte>)
    ensures |r| == n
    ensures base + 1 + n <= |s| ==> r == s[base + 1..base + 1 + n]
  {
    var r := seq<Byte>(n, i requires 0 <= i < n => ReadAt(s, base + 1 + i));
    assert forall i :: 0 <= i < n ==> r[i] == ReadAt(s, base + 1 + i);
    assert base + 1 + n <= |s| ==> forall i :: 0 <= i < n ==> r[i] == s[base + 1..base + 1 + n][i];
    r
  }

  /** getJson's header check: the length byte equals the key's length, the
      stored key bytes equal the key, and '|' follows. */
  predicate HeaderMatches(s: seq<Byte>, base: nat, key: Key)
    ensures HeaderMatches(s, base, key) ==> |key| < 256 && base + 1 + |key| < |s|
  {
    ReadAt(s, base) == |key| &&
    StoredKey(s, base, |key|) == KeyBytes(key) &&
    ReadAt(s, base + 1 + |key|) == Separator
  }

  /** The payload getJson collects from address i: the longest run of cells
      below eepromSize that holds no stop byte. */
  function Collect(s: seq<Byte>, eepromSize: nat, i: nat): (r: seq<Byte>)
    ensures |r| == 0 || i + |r| <= eepromSize
    ensures forall j {:trigger r[j]} :: 0 <= j < |r| ==> r[j] == ReadAt(s, i + j) && !Ends(r[j])
    ensures eepromSize <= i + |r| || Ends(ReadAt(s, i + |r|))
    decreases eepromSize - i
  {
    if eepromSize <= i || Ends(ReadAt(s, i)) then []
    else [ReadAt(s, i)] + Collect(s, eepromSize, i + 1)
  }

  /** getJson's framing: the collected payload when the header matches. */
  function ReadRecord(s: seq<Byte>, eepromSize: nat, base: nat, key: Key): (r: Option<seq<Byte>>)
    ensures r.Some? <==> HeaderMatches(s, base, key)
    ensures r.Some? ==> |key| < 256 && Clean(r.value)
    ensures r.Some? ==> |r.value| == 0 || base + 2 + |key| + |r.value| <= eepromSize
  {
    if HeaderMatches(s, base, key) then Some(Collect(s, eepromSize, base + 2 + |key|)) else None
  }

  /** getJson at base depends only on the cells from base on. */
  lemma {:induction false} ReadRecordAgrees(s: seq<Byte>, t: seq<Byte>, eepromSize: nat, base: nat, key: Key)
    requires forall j :: base <= j ==> ReadAt(s, j) == ReadAt(t, j)
    ensures ReadRecord(s, eepromSize, base, key) == ReadRecord(t, eepromSize, base, key)
  {
    assert StoredKey(s, base, |key|) == StoredKey(t, base, |key|);
    CollectAgrees(s, t, eepromSize, base + 2 + |key|);
  }

  /** Collect depends only on the cells from i up to eepromSize. */
  lemma {:induction false} CollectAgrees(s: seq<Byte>, t: seq<Byte>, eepromSize: nat, i: nat)
    requires forall j :: i <= j < eepromSize ==> ReadAt(s, j) == ReadAt(t, j)
    ensures Collect(s, eepromSize, i) == Collect(t, eepromSize, i)
    decreases eepromSize - i
  {
    if i < eepromSize {
      CollectAgrees(s, t, eepromSize, i + 1);
    }
  }

  /** A clean run of bytes at i is collected whole, and collecting goes on
      after it. */
  lemma {:induction false} CollectThrough(s: seq<Byte>, eepromSize: nat, i: nat, p: seq<Byte>)
    requires i + |p| <= eepromSize && Clean(p)
    requires forall j :: 0 <= j < |p| ==> ReadAt(s, i + j) == p[j]
    ensures Collect(s, eepromSize, i) == p + Collect(s, eepromSize, i + |p|)
    decreases |p|
  {
    if p != [] {
      assert ReadAt(s, i) == p[0];
      CollectThrough(s, eepromSize, i + 1, p[1..]);
      assert [p[0]] + p[1..] == p;
    }
  }

  /** Reading back cells that a record image covers gives the record's bytes. */
  lemma {:induction false} ImageHolds(s: seq<Byte>, base: nat, rec: seq<Byte>, r: seq<Byte>)
    requires |r| <= |rec| && rec[..|r|] == r && base + |rec| <= |s|
    ensures forall j :: 0 <= j < |r| ==> ReadAt(WriteAt(s, base, rec), base + j) == r[j]
  {
    forall j | 0 <= j < |r| ensures ReadAt(WriteAt(s, base, rec), base + j) == r[j] {
      assert rec[j] == rec[..|r|][j];
    }
  }

  /** A medium holding a record at base has a header that matches its key,
      followed by its payload. */
  lemma {:induction false} HeaderHolds(t: seq<Byte>, base: nat, key: Key, p: seq<Byte>)
    requires |key| < 256
    requires forall j :: 0 <= j < |Record(key, p)| ==> ReadAt(t, base + j) == Record(key, p)[j]
    ensures HeaderMatches(t, base, key)
    ensures forall j :: 0 <= j < |p| ==> ReadAt(t, base + 2 + |key| + j) == p[j]
  {
    var r := Record(key, p);
    assert ReadAt(t, base) == r[0];
    assert StoredKey(t, base, |key|) == KeyBytes(key) by {
      forall i | 0 <= i < |key| ensures StoredKey(t, base, |key|)[i] == KeyBytes(key)[i] {
        assert ReadAt(t, base + 1 + i) == r[1 + i];
        assert r[1 + i] == r[1..1 + |key|][i];
      }
    }
    assert ReadAt(t, base + 1 + |key|) == r[1 + |key|];
    forall j | 0 <= j < |p| ensures ReadAt(t, base + 2 + |key| + j) == p[j] {
      assert ReadAt(t, base + (2 + |key| + j)) == r[2 + |key| + j];
      assert r[2 + |key| + j] == r[2 + |key|..][j];
    }
  }

  /** Reading back a record that lies whole in the medium: the header matches
      its own key and the payload is collected whole, followed by whatever the
      cells after it hold. */
  lemma {:induction false} ReadBackRecord(s: seq<Byte>, eepromSize: nat, base: nat, key: Key, p: seq<Byte>, rec: seq<Byte>)
    requires |key| < 256 && Clean(p)
    requires |Record(key, p)| <= |rec| && rec[..|Record(key, p)|] == Record(key, p)
    requires base + |key| + 2 + |p| <= eepromSize && base + |rec| <= |s|
    ensures ReadRecord(WriteAt(s, base, rec), eepromSize, base, key) ==
            Some(p + Collect(WriteAt(s, base, rec), eepromSize, base + |key| + 2 + |p|))
  {
    var t := WriteAt(s, base, rec);
    ImageHolds(s, base, rec, Record(key, p));
    HeaderHolds(t, base, key, p);
    CollectThrough(t, eepromSize, base + 2 + |key|, p);
  }

  lemma {:induction false} RoundTrip(s: seq<Byte>, eepromSize: SizeT, base: SizeT, key: Key, p: seq<Byte>)
    requires |key| < 256 && Clean(p) && JsonFits(base, |p|, eepromSize)
    requires base + |key| + 2 + |p| <= eepromSize && base + |key| + 2 + |p| <= |s|
    ensures ReadRecord(SetJsonImage(s, eepromSize, base, key, p), eepromSize, base, key) ==
            Some(p + Collect(s, eepromSize, base + |key| + 2 + |p|))
  {
    var r := Record(key, p);
    var t := WriteAt(s, base, r);
    var end := base + |key| + 2 + |p|;
    assert r[..|r|] == r;
    ReadBackRecord(s, eepromSize, base, key, p, r);
    assert SetJsonImage(s, eepromSize, base, key, p) == t;
    WriteAtFrame(s, base, r);
    CollectAgrees(t, s, eepromSize, end);
  }

  /** The exact round trip: when the cell after the payload already holds a
      stop byte, or the payload runs to eepromSize, getJson returns exactly
      the payload setJson wrote. */
  lemma {:induction false} RoundTripExact(s: seq<Byte>, eepromSize: SizeT, base: SizeT, key: Key, p: seq<Byte>)
    requires |key| < 256 && Clean(p) && JsonFits(base, |p|, eepromSize)
    requires base + |key| + 2 + |p| <= eepromSize && base + |key| + 2 + |p| <= |s|
    requires base + |key| + 2 + |p| == eepromSize || Ends(ReadAt(s, base + |key| + 2 + |p|))
    ensures ReadRecord(SetJsonImage(s, eepromSize, base, key, p), eepromSize, base, key) == Some(p)
  {
    RoundTrip(s, eepromSize, base, key, p);
    assert p + [] == p;
  }

  /** A record header that lies whole in the medium matches only its own key. */
  lemma {:induction false} WholeHeaderRejectsOther(s: seq<Byte>, base: nat, key: Key, p: seq<Byte>, other: Key)
    requires |key| < 256 && base + 1 + |key| < |s| && other != key
    ensures !HeaderMatches(WriteAt(s, base, Record(key, p)), base, other)
  {
    var r := Record(key, p);
    var t := WriteAt(s, base, r);
    assert ReadAt(t, base) == r[0];
    assert StoredKey(t, base, |key|) == KeyBytes(key) by {
      forall i | 0 <= i < |key| ensures StoredKey(t, base, |key|)[i] == KeyBytes(key)[i] {
        assert ReadAt(t, base + 1 + i) == r[1 + i];
        assert r[1 + i] == r[1..1 + |key|][i];
      }
    }
    KeyBytesDiffer(key, other);
  }

  /** A record header cut off by the end of the medium matches no key. */
  lemma {:induction false} CutHeaderRejectsAll(s: seq<Byte>, base: nat, key: Key, p: seq<Byte>, other: Key)
    requires |key| < 256 && |s| <= base + 1 + |key|
    ensures !HeaderMatches(WriteAt(s, base, Record(key, p)), base, other)
  {
    var r := Record(key, p);
    var t := WriteAt(s, base, r);
    if base < |s| {
      // The length byte admits only keys as long as this one, and the
      // separator cell after such a key lies past the medium.
      assert ReadAt(t, base) == r[0];
      assert ReadAt(t, base + 1 + |key|) == 0;
    } else {
      // The whole header lies past the medium: only the empty key has a
      // matching length byte, and its separator cell reads 0.
      assert ReadAt(t, base) == 0;
      assert ReadAt(t, base + 1) == 0;
    }
  }

  /** After setJson with a key shorter than 256 bytes, getJson fails for
      every key but the one written. */
  lemma {:induction false} OnlyWrittenKeyMatches(s: seq<Byte>, eepromSize: SizeT, base: SizeT, key: Key, p: seq<Byte>, other: Key)
    requires |key| < 256
    requires JsonFits(base, |p|, eepromSize) && other != key
    ensures ReadRecord(SetJsonImage(s, eepromSize, base, key, p), eepromSize, base, other) == None
  {
    if base + 1 + |key| < |s| {
      WholeHeaderRejectsOther(s, base, key, p, other);
    } else {
      CutHeaderRejectsAll(s, base, key, p, other);
    }
  }

  /** Finding, as written: the length byte is |key| mod 256, so the 256-byte
      key "|{}aaa…", cut off by a 4-byte medium, leaves a record whose header
      getJson accepts for the empty key, and the text it collects is "{}",
      which parses. */
  lemma LongKeyAliasesEmptyKey()
    ensures JsonFits(0, 0, 4)
    ensures ReadRecord(SetJsonImage(seq(4, _ => 0), 4, 0, AliasKey, []), 4, 0, []) == Some([123, 125])
  {
    var t := SetJsonImage(seq(4, _ => 0), 4, 0, AliasKey, []);
    var rec := Record(AliasKey, []);
    assert rec[1..4] == KeyBytes(AliasKey)[..3] == [124, 123, 125];
    assert rec[..4] == [0, 124, 123, 125];
    assert t == [0, 124, 123, 125];
    assert StoredKey(t, 0, 0) == KeyBytes([]);
    assert Collect(t, 4, 2) == [123, 125];
  }

  /** A 256-byte key: "|{}" followed by 253 'a'. */
  const AliasKey: Key := "|{}" + seq(253, _ => 'a')

  /** The corrected setJson, which refuses a key whose length does not fit
      its byte, leaves a record that getJson accepts for no other key. */
  lemma {:induction false} CheckedOnlyWrittenKeyMatches(s: seq<Byte>, eepromSize: SizeT, base: SizeT, key: Key, p: seq<Byte>, other: Key)
    requires eepromSize <= |s| && other != key
    requires JsonFitsChecked(base, |key|, |p|, eepromSize)
    ensures ReadRecord(SetJsonChecked(s, eepromSize, base, key, p), eepromSize, base, other) == None
  {
    var r := Record(key, p);
    var t := WriteAt(s, base, r + [Terminator]);
    assert (r + [Terminator])[..|r|] == r;
    ImageHolds(s, base, r + [Terminator], r);
    HeaderHolds(t, base, key, p);
    KeyBytesDiffer(key, other);
  }

  /** A key of 256 bytes or more is never read back: its length cannot equal
      a byte. */
  lemma LongKeyNeverMatches(s: seq<Byte>, eepromSize: nat, base: nat, key: Key)
    requires 256 <= |key|
    ensures ReadRecord(s, eepromSize, base, key) == None
  {
  }

  /** The corrected space check: the whole record, a terminator included,
      lies within eepromSize, and the key length fits its byte. */
  predicate JsonFitsChecked(base: SizeT, keyLen: nat, len: nat, eepromSize: SizeT)
    ensures JsonFitsChecked(base, keyLen, len, eepromSize) ==> JsonFits(base, len, eepromSize)
  {
    keyLen < 256 && base + keyLen + len + 3 <= eepromSize
  }

  /** The corrected setJson: the record closed by a terminator, written only
      when all of it fits. */
  function SetJsonChecked(s: seq<Byte>, eepromSize: SizeT, base: SizeT, key: Key, payload: seq<Byte>): (r: seq<Byte>)
    ensures |r| == |s|
    ensures JsonFitsChecked(base, |key|, |payload|, eepromSize) && eepromSize <= |s| ==>
              r[base..base + |key| + 3 + |payload|] == Record(key, payload) + [Terminator]
    ensures forall j :: 0 <= j < |s| && !(base <= j < base + |key| + 3 + |payload|) ==> r[j] == s[j]
  {
    if JsonFitsChecked(base, |key|, |payload|, eepromSize)
    then WriteAt(s, base, Record(key, payload) + [Terminator])
    else s
  }

  /** The corrected record reads back exactly the payload written, whatever
      the medium held before. */
  lemma {:induction false} CheckedRoundTrip(s: seq<Byte>, eepromSize: SizeT, base: SizeT, key: Key, p: seq<Byte>)
    requires eepromSize <= |s| && Clean(p)
    requires JsonFitsChecked(base, |key|, |p|, eepromSize)
    ensures ReadRecord(SetJsonChecked(s, eepromSize, base, key, p), eepromSize, base, key) == Some(p)
  {
    var r := Record(key, p);
    var rec := r + [Terminator];
    var t := WriteAt(s, base, rec);
    assert rec[..|r|] == r;
    ReadBackRecord(s, eepromSize, base, key, p, rec);
    assert ReadAt(t, base + |r|) == rec[|r|] == Terminator;
    assert p + [] == p;
  }

  /** Finding, as written: the space check ignores the key, so a 5-byte key
      pushes the record past an 8-byte store; the tail of the payload is
      dropped and getJson reads back one of its two bytes. */
  lemma KeyLengthTruncatesPayload()
    ensures JsonFits(0, 2, 8)
    ensures ReadRecord(SetJsonImage(seq(8, _ => 0), 8, 0, "ABCDE", [1, 1]), 8, 0, "ABCDE") == Some([1])
  {
    var s: seq<Byte> := seq(8, _ => 0);
    var t := SetJsonImage(s, 8, 0, "ABCDE", [1, 1]);
    assert t == [5, 65, 66, 67, 68, 69, 124, 1];
    assert StoredKey(t, 0, 5) == KeyBytes("ABCDE");
    assert Collect(t, 8, 7) == [1];
  }

  /** Finding, as written: no terminator is written, so a stale byte left after
      the payload is read back as part of it. */
  lemma StaleByteExtendsPayload()
    ensures ReadRecord(SetJsonImage([0, 0, 0, 0, 9, 0, 0, 0], 8, 0, "A", [1]), 8, 0, "A") == Some([1, 9])
  {
    var t := SetJsonImage([0, 0, 0, 0, 9, 0, 0, 0], 8, 0, "A", [1]);
    assert t == [1, 65, 124, 1, 9, 0, 0, 0];
    assert StoredKey(t, 0, 1) == KeyBytes("A");
    assert Collect(t, 8, 5) == [];
    assert Collect(t, 8, 3) == [1, 9];
  }
}
