/**
 The hash slot of a key (hircluster.cpp keyHashSlot), as described in "Key
 distribution model" and "Hash tags" of the Redis Cluster Specification.
 */
module HashSlot {
  import opened Bytes
  import opened Crc16

  const SLOTS: nat := 16384
  const OPEN: byte := 123
  const CLOSE: byte := 125

  /** The slot number held in the low 14 bits of a checksum. */
  function SlotBits(crc: bv16): (slot: nat)
    ensures slot < SLOTS
  {
    (crc & 0x3FFF) as nat
  }

  /** The first position at or after `from` that holds `c`, or the length if there is none. */
  function Find(s: seq<byte>, c: byte, from: nat): (i: nat)
    requires from <= |s|
    ensures from <= i <= |s| && c !in s[from..i] && (i < |s| ==> s[i] == c)
    decreases |s| - from
  {
    if from == |s| || s[from] == c then from
    else
      var i := Find(s, c, from + 1);
      assert s[from..i] == [s[from]] + s[from + 1..i];
      i
  }

  /** The bytes that are hashed: the first {...} group when it is not empty, else the whole key. */
  function HashedPart(key: seq<byte>): seq<byte> {
    var s := Find(key, OPEN, 0);
    if s == |key| then key
    else
      var e := Find(key, CLOSE, s + 1);
      if e == |key| || e == s + 1 then key else key[s + 1..e]
  }

  function Slot(key: seq<byte>): (slot: nat)
    ensures slot < SLOTS
  {
    SlotBits(SerialCrc(HashedPart(key)))
  }

  lemma HighAndLow(crc: bv16)
    ensures crc as nat == 16384 * ((crc >> 14) as nat) + SlotBits(crc)
  {}

  lemma Remainder(h: nat, l: nat)
    requires l < 16384
    ensures (16384 * h + l) % 16384 == l
  {}

  /** The slot is the checksum of the hashed part modulo 16384. */
  lemma SlotIs(key: seq<byte>)
    ensures Slot(key) == SerialCrc(HashedPart(key)) as nat % 16384
  {
    var crc := SerialCrc(HashedPart(key));
    HighAndLow(crc);
    hide SlotBits;
    Remainder((crc >> 14) as nat, SlotBits(crc));
  }

  method ChecksumSlot(part: seq<byte>) returns (slot: nat)
    ensures slot == SlotBits(SerialCrc(part))
  {
    var crc := Crc(part);
    slot := (crc & 0x3FFF) as nat;
  }

  method KeyHashSlot(key: seq<byte>) returns (slot: nat)
    ensures slot < SLOTS && slot == Slot(key) == SerialCrc(HashedPart(key)) as nat % 16384
  {
    hide SlotBits;
    SlotIs(key);
    var keylen := |key|;
    var s := 0;
    while s < keylen
      invariant 0 <= s <= keylen && s <= Find(key, OPEN, 0)
      invariant Find(key, OPEN, 0) == Find(key, OPEN, s)
    {
      if key[s] == 123 { break; }
      s := s + 1;
    }
    if s == keylen {
      slot := ChecksumSlot(key);
      return;
    }
    var e := s + 1;
    while e < keylen
      invariant s + 1 <= e <= keylen
      invariant Find(key, CLOSE, s + 1) == Find(key, CLOSE, e)
    {
      if key[e] == 125 { break; }
      e := e + 1;
    }
    if e == keylen || e == s + 1 {
      slot := ChecksumSlot(key);
      return;
    }
    slot := ChecksumSlot(key[s + 1..e]);
  }

  /** `key` has the hash tag `tag`: it is the first group in braces, and it is not empty. */
  ghost predicate HasTag(key: seq<byte>, before: seq<byte>, tag: seq<byte>, after: seq<byte>) {
    key == before + [123] + tag + [125] + after && 123 !in before && 125 !in tag && tag != []
  }

  lemma {:induction false} FindAt(s: seq<byte>, c: byte, from: nat, i: nat)
    requires from <= i < |s| && s[i] == c && c !in s[from..i]
    ensures Find(s, c, from) == i
    decreases i - from
  {
    if from < i {
      assert s[from] == s[from..i][0];
      assert s[from + 1..i] == s[from..i][1..];
      FindAt(s, c, from + 1, i);
    }
  }

  lemma TagIsHashed(key: seq<byte>, before: seq<byte>, tag: seq<byte>, after: seq<byte>)
    requires HasTag(key, before, tag, after)
    ensures HashedPart(key) == tag
  {
    var s := |before|;
    var e := s + 1 + |tag|;
    assert key[0..s] == before && key[s] == OPEN;
    assert key[s + 1..e] == tag && key[e] == CLOSE;
    FindAt(key, OPEN, 0, s);
    FindAt(key, CLOSE, s + 1, e);
  }

  /** Keys with the same tag live in the same slot, whatever surrounds the tag. */
  lemma SameTagSameSlot(key1: seq<byte>, key2: seq<byte>, b1: seq<byte>, b2: seq<byte>,
                        tag: seq<byte>, a1: seq<byte>, a2: seq<byte>)
    requires HasTag(key1, b1, tag, a1) && HasTag(key2, b2, tag, a2)
    ensures Slot(key1) == Slot(key2)
  {
    TagIsHashed(key1, b1, tag, a1);
    TagIsHashed(key2, b2, tag, a2);
  }

  /** A key is hashed whole exactly when it has no tag. */
  lemma WholeKeyIffNoTag(key: seq<byte>)
    ensures HashedPart(key) == key <==> !exists b, t, a :: HasTag(key, b, t, a)
  {
    if b, t, a :| HasTag(key, b, t, a) {
      TagIsHashed(key, b, t, a);
    } else {
      var s := Find(key, OPEN, 0);
      if s < |key| {
        var e := Find(key, CLOSE, s + 1);
        if e < |key| && e != s + 1 {
          assert key == key[..s] + [OPEN] + key[s + 1..e] + [CLOSE] + key[e + 1..];
          assert HasTag(key, key[0..s], key[s + 1..e], key[e + 1..]);
        }
      }
    }
  }

  // ------------------------------------------------------------ the specification's example

  lemma OneEntered(crc: bv16, c: byte, s: seq<byte>, after: bv16)
    requires Enter(crc, c) == after
    ensures SerialFrom(crc, [c] + s) == SerialFrom(after, s)
  {
    hide Enter;
    assert ([c] + s)[1..] == s;
  }

  lemma Digit1()
    ensures Enter(0x0000, 49) == 0x2672
  {}

  lemma Digit2()
    ensures Enter(0x2672, 50) == 0x20B5
  {}

  lemma Digit3()
    ensures Enter(0x20B5, 51) == 0x9752
  {}

  lemma Digit4()
    ensures Enter(0x9752, 52) == 0xD789
  {}

  lemma Digit5()
    ensures Enter(0xD789, 53) == 0x546C
  {}

  lemma Digit6()
    ensures Enter(0x546C, 54) == 0x20E4
  {}

  lemma Digit7()
    ensures Enter(0x20E4, 55) == 0x86D6
  {}

  lemma Digit8()
    ensures Enter(0x86D6, 56) == 0x9015
  {}

  lemma Digit9()
    ensures Enter(0x9015, 57) == 0x31C3
  {}

  lemma LaterDigits()
    ensures SerialFrom(0x546C, [54, 55, 56, 57]) == 0x31C3
  {
    hide Enter;
    Digit6();
    OneEntered(0x546C, 54, [55, 56, 57], 0x20E4);
    assert [54] + [55, 56, 57] == [54, 55, 56, 57];
    Digit7();
    OneEntered(0x20E4, 55, [56, 57], 0x86D6);
    assert [55] + [56, 57] == [55, 56, 57];
    Digit8();
    OneEntered(0x86D6, 56, [57], 0x9015);
    assert [56] + [57] == [56, 57];
    Digit9();
    OneEntered(0x9015, 57, [], 0x31C3);
    assert [57] + [] == [57];
    assert SerialFrom(0x31C3, []) == 0x31C3;
  }

  /** The checksum of the digits 1 to 9 is 0x31C3 ("CRC16 reference implementation" of the specification). */
  lemma CheckValue()
    ensures SerialCrc([49, 50, 51, 52, 53, 54, 55, 56, 57]) == 0x31C3
  {
    hide Enter;
    Digit1();
    OneEntered(0x0000, 49, [50, 51, 52, 53, 54, 55, 56, 57], 0x2672);
    assert [49] + [50, 51, 52, 53, 54, 55, 56, 57] == [49, 50, 51, 52, 53, 54, 55, 56, 57];
    Digit2();
    OneEntered(0x2672, 50, [51, 52, 53, 54, 55, 56, 57], 0x20B5);
    assert [50] + [51, 52, 53, 54, 55, 56, 57] == [50, 51, 52, 53, 54, 55, 56, 57];
    Digit3();
    OneEntered(0x20B5, 51, [52, 53, 54, 55, 56, 57], 0x9752);
    assert [51] + [52, 53, 54, 55, 56, 57] == [51, 52, 53, 54, 55, 56, 57];
    Digit4();
    OneEntered(0x9752, 52, [53, 54, 55, 56, 57], 0xD789);
    assert [52] + [53, 54, 55, 56, 57] == [52, 53, 54, 55, 56, 57];
    Digit5();
    OneEntered(0xD789, 53, [54, 55, 56, 57], 0x546C);
    assert [53] + [54, 55, 56, 57] == [53, 54, 55, 56, 57];
    LaterDigits();
  }

  lemma NoneFound(s: seq<byte>, c: byte)
    requires c !in s
    ensures Find(s, c, 0) == |s|
  {}

  lemma NoBrace(key: seq<byte>)
    requires 123 !in key
    ensures HashedPart(key) == key
  {
    NoneFound(key, OPEN);
  }

  /** So its slot is 12739. */
  lemma CheckSlot()
    ensures Slot([49, 50, 51, 52, 53, 54, 55, 56, 57]) == 12739
  {
    hide SerialCrc;
    hide Slot;
    hide HashedPart;
    CheckValue();
    var key: seq<byte> := [49, 50, 51, 52, 53, 54, 55, 56, 57];
    NoBrace(key);
    SlotIs(key);
  }
}
