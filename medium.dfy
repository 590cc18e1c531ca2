/** The byte medium under the store (the Arduino EEPROM buffer) and the
    32-bit size_t arithmetic the controller does on addresses and sizes. */
module Medium {

  /** One EEPROM cell. */
  type Byte = b: int | 0 <= b < 256

  /** An 8-bit character of an Arduino String (char is taken as unsigned). */
  type Char8 = c: char | c as int < 256

  /** Keys are Arduino Strings, that is, byte strings. */
  type Key = seq<Char8>

  /** size_t on the 32-bit targets the controller runs on. */
  const SizeMod: nat := 0x1_0000_0000

  type SizeT = n: nat | n < SizeMod

  /** size_t addition: wraps modulo 2^32. */
  function AddSize(a: SizeT, b: SizeT): (r: SizeT)
    ensures a + b < SizeMod ==> r == a + b
    ensures SizeMod <= a + b ==> r == a + b - SizeMod
  {
    (a + b) % SizeMod
  }

  /** size_t subtraction: a result below zero wraps to the top of the range. */
  function SubSize(a: SizeT, b: SizeT): (r: SizeT)
    ensures b <= a ==> r == a - b
    ensures a < b ==> r == a - b + SizeMod
  {
    (a - b) % SizeMod
  }

  /** EEPROM.read: the cell at address i, or 0 past the end of the medium. */
  function ReadAt(s: seq<Byte>, i: int): (r: Byte)
    ensures 0 <= i < |s| ==> r == s[i]
    ensures !(0 <= i < |s|) ==> r == 0
  {
    if 0 <= i < |s| then s[i] else 0
  }

  /** EEPROM.write of `bytes` at consecutive addresses from a; a cell past
      the end of the medium is dropped. */
  function WriteAt(s: seq<Byte>, a: nat, bytes: seq<Byte>): (r: seq<Byte>)
    ensures |r| == |s|
    ensures forall j :: 0 <= j < |bytes| && a + j < |s| ==> r[a + j] == bytes[j]
    ensures forall i :: 0 <= i < |s| && !(a <= i < a + |bytes|) ==> r[i] == s[i]
  {
    seq(|s|, i requires 0 <= i < |s| => if a <= i < a + |bytes| then bytes[i - a] else s[i])
  }

  /** EEPROM.put: copies the whole value when it fits in the medium and
      writes nothing otherwise. */
  function Put(s: seq<Byte>, a: nat, v: seq<Byte>): (r: seq<Byte>)
    ensures |r| == |s|
    ensures a + |v| <= |s| ==> r[a..a + |v|] == v
    ensures |s| < a + |v| ==> r == s
    ensures forall i :: 0 <= i < |s| && !(a <= i < a + |v|) ==> r[i] == s[i]
  {
    if a + |v| <= |s| then s[..a] + v + s[a + |v|..] else s
  }

  /** A write leaves every cell outside the range it covers as it was. */
  lemma WriteAtFrame(s: seq<Byte>, a: nat, bytes: seq<Byte>)
    ensures |WriteAt(s, a, bytes)| == |s|
    ensures forall j :: !(a <= j < a + |bytes|) ==> ReadAt(WriteAt(s, a, bytes), j) == ReadAt(s, j)
  {
  }
}
