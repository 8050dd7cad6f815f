/**
 Splitting a multi-key command by hash slot (hircluster.cpp command_pre_fragment).
 One loop hands every key to the sub-command of its slot and adds up that
 sub-command's length; a second loop walks the slots upwards and writes the bytes.
 */
module Fragment {
  import opened Bytes
  import opened CommandTable
  import opened Resp
  import opened Command
  import opened CommandKeys
  import opened FragmentLayout
  import opened HashSlot

  // ------------------------------------------------------------ grouping by slot, on values

  /** The positions, in order, of the keys that live in `slot`. */
  function Members(slots: seq<nat>, slot: nat): (ms: seq<nat>)
    ensures forall j :: 0 <= j < |ms| ==> ms[j] < |slots| && slots[ms[j]] == slot
    ensures |ms| <= |slots|
  {
    if slots == [] then []
    else
      var n := |slots| - 1;
      Members(slots[..n], slot) + if slots[n] == slot then [n] else []
  }

  function Pick<T>(xs: seq<T>, ms: seq<nat>): (r: seq<T>)
    requires forall j :: 0 <= j < |ms| ==> ms[j] < |xs|
    ensures |r| == |ms| && forall j :: 0 <= j < |ms| ==> r[j] == xs[ms[j]]
  {
    seq(|ms|, j requires 0 <= j < |ms| => xs[ms[j]])
  }

  /** The slots below `bound` that have a key, in ascending order. */
  function Occupied(slots: seq<nat>, bound: nat): (occ: seq<nat>)
    ensures forall k :: 0 <= k < |occ| ==> occ[k] < bound && Members(slots, occ[k]) != []
    ensures forall k, l :: 0 <= k < l < |occ| ==> occ[k] < occ[l]
  {
    if bound == 0 then []
    else Occupied(slots, bound - 1) + if Members(slots, bound - 1) != [] then [bound - 1] else []
  }

  lemma {:induction false} MembersHas(slots: seq<nat>, i: nat)
    requires i < |slots|
    ensures i in Members(slots, slots[i])
  {
    var n := |slots| - 1;
    if i < n {
      MembersHas(slots[..n], i);
    }
  }

  lemma {:induction false} OccupiedHas(slots: seq<nat>, bound: nat, slot: nat)
    requires slot < bound && Members(slots, slot) != []
    ensures slot in Occupied(slots, bound)
  {
    hide Members;
    if slot < bound - 1 {
      OccupiedHas(slots, bound - 1, slot);
    }
  }

  // ------------------------------------------------------------ the value behind an MSET key

  /** Where the digits that start at `p` end. */
  function DigitsEnd(cmd: seq<byte>, p: nat): (q: nat)
    requires p <= |cmd|
    ensures p <= q <= |cmd| && AllDigits(cmd[p..q]) && (q < |cmd| ==> !IsDigit(cmd[q]))
    decreases |cmd| - p
  {
    if p < |cmd| && IsDigit(cmd[p]) then
      var q := DigitsEnd(cmd, p + 1);
      assert cmd[p..q] == [cmd[p]] + cmd[p + 1..q];
      q
    else p
  }

  lemma {:induction false} DigitsEndIs(cmd: seq<byte>, p: nat, q: nat)
    requires p <= q < |cmd| && AllDigits(cmd[p..q]) && !IsDigit(cmd[q])
    ensures DigitsEnd(cmd, p) == q
    decreases q - p
  {
    if p < q {
      assert cmd[p] == cmd[p..q][0] && cmd[p + 1..q] == cmd[p..q][1..];
      DigitsEndIs(cmd, p + 1, q);
    }
  }

  lemma LengthEnds(cmd: seq<byte>, e: nat, q: nat)
    requires LengthAt(cmd, e, q)
    ensures DigitsEnd(cmd, e + 3) == q
  {
    DigitsEndIs(cmd, e + 3, q);
  }

  /** The bytes copied after the key that ends at `e`: length line, value and line ends. */
  function Remain(cmd: seq<byte>, e: nat): (n: nat)
    requires ValueFollows(cmd, e)
    ensures e + n <= |cmd|
  {
    assert exists q: nat :: ValueAt(cmd, e, q) && DigitsEnd(cmd, e + 3) == q by {
      var q: nat :| ValueAt(cmd, e, q);
      LengthEnds(cmd, e, q);
    }
    var q := DigitsEnd(cmd, e + 3);
    LengthOf(cmd, e, q) + 4 + (q - e)
  }

  lemma RemainIs(cmd: seq<byte>, e: nat, q: nat)
    requires ValueAt(cmd, e, q)
    ensures Remain(cmd, e) == LengthOf(cmd, e, q) + 4 + (q - e)
  {
    LengthEnds(cmd, e, q);
  }

  /** The value scan: skip to the first digit, read the number, add the line ends. */
  method ScanRemain(cmd: seq<byte>, e: nat) returns (len: nat)
    requires ValueFollows(cmd, e)
    ensures len == Remain(cmd, e)
  {
    ghost var q: nat :| ValueAt(cmd, e, q);
    hide DecVal;
    var p := e + 1;
    assert cmd[e + 3..q][0] == cmd[e + 3];
    while !IsDigit(cmd[p])
      invariant e + 1 <= p <= e + 3
      decreases e + 3 - p
    {
      p := p + 1;
    }
    len := 0;
    while IsDigit(cmd[p])
      invariant e + 3 <= p <= q && AllDigits(cmd[e + 3..p]) && len == U32(DecVal(cmd[e + 3..p]))
      decreases q - p
    {
      LengthDigit(cmd, e, p);
      len := U32(len * 10 + DigitVal(cmd[p]));
      p := p + 1;
    }
    LengthEnds(cmd, e, q);
    RemainIs(cmd, e, q);
    len := len + 2 * 2 + (p - e);
  }

  // ------------------------------------------------------------ commands on the heap

  /** struct cmd, for a command being split and for its fragments. */
  class Cmd {
    var typ: CmdType
    var command: seq<byte>
    var clen: nat
    var keys: seq<SubKey>
    var narg: nat
    var slot_num: int
    var reply: Option<Reply>

    /** command_get. */
    constructor ()
      ensures typ == UNKNOWN && command == [] && clen == 0 && keys == [] && narg == 0 && slot_num == -1 && reply == None
    {
      typ := UNKNOWN;
      command := [];
      clen := 0;
      keys := [];
      narg := 0;
      slot_num := -1;
      reply := None;
    }
  }

  /** The parser's keys can be split: they lie in the buffer, with values behind them for MSET. */
  ghost predicate Splits(buf: seq<byte>, typ: CmdType, keys: seq<KeyPos>) {
    Splittable(typ) && InBounds(buf, keys) && (typ == MSET ==> Valued(buf, keys)) &&
    |buf| < 0x8000_0000 && |keys| < 0x3FFF_FFFF
  }

  function SlotsOf(buf: seq<byte>, keys: seq<KeyPos>): (r: seq<nat>)
    requires InBounds(buf, keys)
    ensures |r| == |keys| && forall i :: 0 <= i < |keys| ==> r[i] == Slot(buf[keys[i].start..keys[i].end]) < SLOTS
  {
    seq(|keys|, i requires 0 <= i < |keys| => Slot(buf[keys[i].start..keys[i].end]))
  }

  function SubKeyOf(buf: seq<byte>, typ: CmdType, k: KeyPos): (r: SubKey)
    requires k.start <= k.end < |buf| && (typ == MSET ==> ValueFollows(buf, k.end))
    ensures Within(buf, r) && (typ != MSET ==> r.remain == 0)
  {
    SubKey(k.start, k.end, if typ == MSET then Remain(buf, k.end) else 0)
  }

  function SubKeysOf(buf: seq<byte>, typ: CmdType, keys: seq<KeyPos>): (r: seq<SubKey>)
    requires Splits(buf, typ, keys)
    ensures |r| == |keys| && forall i :: 0 <= i < |keys| ==> r[i] == SubKeyOf(buf, typ, keys[i])
  {
    seq(|keys|, i requires 0 <= i < |keys| => SubKeyOf(buf, typ, keys[i]))
  }

  lemma SubKeysFit(buf: seq<byte>, typ: CmdType, keys: seq<KeyPos>)
    requires Splits(buf, typ, keys)
    ensures AllWithin(buf, SubKeysOf(buf, typ, keys)) && RemainsOnlyForMset(typ, SubKeysOf(buf, typ, keys))
  {
    var ks := SubKeysOf(buf, typ, keys);
    forall i | 0 <= i < |ks|
      ensures Within(buf, ks[i]) && (typ != MSET ==> ks[i].remain == 0)
    {
      assert ks[i] == SubKeyOf(buf, typ, keys[i]);
    }
  }

  /** The sub-command of a slot after the keys with the slots `slots` have been handed out. */
  ghost predicate Gathered(c: Cmd?, slot: nat, slots: seq<nat>, ks: seq<SubKey>)
    reads c
  {
    |slots| <= |ks| &&
    var ms := Members(slots, slot);
    if ms == [] then c == null
    else
      c != null && c.slot_num == slot && c.narg == |ms| && c.keys == Pick(ks, ms) &&
      c.clen == PartLen(Pick(ks, ms)) && c.command == [] && c.reply == None
  }

  /** Handing key `i` to the sub-command of its slot changes nothing for the other slots. */
  lemma MembersStep(slots: seq<nat>, i: nat, slot: nat)
    requires i < |slots|
    ensures Members(slots[..i + 1], slot) == Members(slots[..i], slot) + if slots[i] == slot then [i] else []
  {
    assert slots[..i + 1][..i] == slots[..i];
  }

  lemma PickStep(ks: seq<SubKey>, ms: seq<nat>, i: nat)
    requires i < |ks| && forall j :: 0 <= j < |ms| ==> ms[j] < |ks|
    ensures Pick(ks, ms + [i]) == Pick(ks, ms) + [ks[i]]
    ensures PartLen(Pick(ks, ms + [i])) ==
            PartLen(Pick(ks, ms)) + KeyLen(ks[i]) + |Dec(KeyLen(ks[i]))| + ks[i].remain
  {
    assert (Pick(ks, ms) + [ks[i]])[..|ms|] == Pick(ks, ms);
  }

  /** The body of the first loop for one key, after its sub-command has been found or created. */
  method AddKey(c: Cmd, buf: seq<byte>, typ: CmdType, k: KeyPos, slot: nat) returns (sub: SubKey)
    requires k.start <= k.end < |buf| && (typ == MSET ==> ValueFollows(buf, k.end))
    modifies c
    ensures sub == SubKeyOf(buf, typ, k)
    ensures c.keys == old(c.keys) + [sub] && c.narg == old(c.narg) + 1 && c.slot_num == slot
    ensures c.clen == old(c.clen) + KeyLen(sub) + |Dec(KeyLen(sub))| + sub.remain
    ensures c.command == old(c.command) && c.reply == old(c.reply)
  {
    c.narg := c.narg + 1;
    var keylen := k.end - k.start;
    var width := UintLen(keylen);
    c.clen := c.clen + keylen + width;
    c.slot_num := slot;
    sub := SubKey(k.start, k.end, 0);
    if typ == MSET {
      var len := ScanRemain(buf, k.end);
      sub := sub.(remain := len);
      c.clen := c.clen + len;
    }
    c.keys := c.keys + [sub];
  }

  // ------------------------------------------------------------ the first loop

  ghost predicate AllGathered(subs: array<Cmd?>, slots: seq<nat>, ks: seq<SubKey>)
    requires subs.Length == SLOTS
    reads subs, set s | 0 <= s < SLOTS :: subs[s]
  {
    forall s: nat :: s < SLOTS ==> Gathered(subs[s], s, slots, ks)
  }

  /** The sub-command of a slot, created if this is the slot's first key. */
  method FindSub(subs: array<Cmd?>, slot: nat) returns (c: Cmd)
    requires subs.Length == SLOTS && slot < SLOTS
    modifies subs
    ensures subs[slot] == c && forall s: nat :: s < SLOTS && s != slot ==> subs[s] == old(subs[s])
    ensures old(subs[slot]) != null ==> c == old(subs[slot])
    ensures old(subs[slot]) == null ==>
              fresh(c) && c.command == [] && c.clen == 0 && c.keys == [] && c.narg == 0 && c.reply == None
  {
    if subs[slot] == null {
      subs[slot] := new Cmd();
    }
    c := subs[slot];
  }

  /** A sub-command that holds the keys `ms` of `ks`, or is still blank. */
  ghost predicate Holds(c: Cmd, ks: seq<SubKey>)
    reads c
  {
    c.narg == |ks| && c.keys == ks && c.clen == PartLen(ks) && c.command == [] && c.reply == None
  }

  lemma BlankHoldsNothing(c: Cmd, ks: seq<SubKey>)
    requires c.command == [] && c.clen == 0 && c.keys == [] && c.narg == 0 && c.reply == None
    ensures Holds(c, Pick(ks, []))
  {}

  lemma GatheredHolds(c: Cmd, slot: nat, slots: seq<nat>, ks: seq<SubKey>)
    requires |slots| <= |ks| && Members(slots, slot) != []
    ensures Gathered(c, slot, slots, ks) <==> c.slot_num == slot && Holds(c, Pick(ks, Members(slots, slot)))
  {}

  /** The sub-commands are all in `N`, so that they can be told from everything else. */
  ghost predicate Owns(subs: array<Cmd?>, N: set<Cmd>)
    reads subs
  {
    subs.Length == SLOTS && forall s: nat :: s < SLOTS && subs[s] != null ==> subs[s] in N
  }

  /** frag_seq gives for every key the sub-command of its slot. */
  ghost predicate Remembers(frag_seq: seq<Cmd>, subs: array<Cmd?>, slots: seq<nat>)
    reads subs
  {
    subs.Length == SLOTS && |frag_seq| == |slots| &&
    forall i :: 0 <= i < |slots| ==> slots[i] < SLOTS && frag_seq[i] == subs[slots[i]]
  }

  /** Handing out one more key: the sub-command of its slot is found or created, then filled. */
  method GatherKey(subs: array<Cmd?>, buf: seq<byte>, typ: CmdType, keys: seq<KeyPos>, i: nat,
                   frag_seq: seq<Cmd>, ghost N: set<Cmd>)
      returns (slot: nat, frag_seq': seq<Cmd>, ghost N': set<Cmd>)
    requires subs.Length == SLOTS && Splits(buf, typ, keys) && i < |keys|
    requires Owns(subs, N) && Remembers(frag_seq, subs, SlotsOf(buf, keys)[..i])
    requires AllGathered(subs, SlotsOf(buf, keys)[..i], SubKeysOf(buf, typ, keys))
    modifies subs, N
    ensures slot == SlotsOf(buf, keys)[i]
    ensures Owns(subs, N') && fresh(N' - N) && Remembers(frag_seq', subs, SlotsOf(buf, keys)[..i + 1])
    ensures AllGathered(subs, SlotsOf(buf, keys)[..i + 1], SubKeysOf(buf, typ, keys))
  {
    hide SubKeyOf;
    hide Slot;
    hide PartLen;
    hide Members;
    ghost var slots, ks := SlotsOf(buf, keys), SubKeysOf(buf, typ, keys);
    var k := keys[i];
    slot := KeyHashSlot(buf[k.start..k.end]);
    ghost var before := Members(slots[..i], slot);
    assert Gathered(subs[slot], slot, slots[..i], ks);
    var c := FindSub(subs, slot);
    N' := N + {c};
    frag_seq' := frag_seq + [c];
    assert Remembers(frag_seq', subs, slots[..i + 1]);
    assert Holds(c, Pick(ks, before)) by {
      if before == [] {
        BlankHoldsNothing(c, ks);
      }
    }
    forall s: nat | s < SLOTS && s != slot
      ensures subs[s] != c && Gathered(subs[s], s, slots[..i], ks)
    {
      assert old(Gathered(subs[s], s, slots[..i], ks));
    }
    FillSub(subs, c, buf, typ, k, slot, i, slots, ks);
  }

  /** The key goes to its sub-command; the others stay as they are. */
  method FillSub(subs: array<Cmd?>, c: Cmd, buf: seq<byte>, typ: CmdType, k: KeyPos, slot: nat, ghost i: nat,
                 ghost slots: seq<nat>, ghost ks: seq<SubKey>)
    requires subs.Length == SLOTS && slot < SLOTS && subs[slot] == c && i < |slots| == |ks| && slots[i] == slot
    requires k.start <= k.end < |buf| && (typ == MSET ==> ValueFollows(buf, k.end)) && ks[i] == SubKeyOf(buf, typ, k)
    requires Holds(c, Pick(ks, Members(slots[..i], slot)))
    requires forall s: nat :: s < SLOTS && s != slot ==> subs[s] != c && Gathered(subs[s], s, slots[..i], ks)
    modifies c
    ensures AllGathered(subs, slots[..i + 1], ks)
  {
    hide SubKeyOf;
    hide PartLen;
    hide Members;
    hide Gathered;
    ghost var before := Members(slots[..i], slot);
    var sub := AddKey(c, buf, typ, k, slot);
    MembersStep(slots, i, slot);
    PickStep(ks, before, i);
    GatheredHolds(c, slot, slots[..i + 1], ks);
    forall s: nat | s < SLOTS && s != slot
      ensures Gathered(subs[s], s, slots[..i + 1], ks)
    {
      assert old(Gathered(subs[s], s, slots[..i], ks));
      StillGathered(subs[s], s, slots, i, ks);
    }
  }

  lemma StillGathered(c: Cmd?, s: nat, slots: seq<nat>, i: nat, ks: seq<SubKey>)
    requires i < |slots| <= |ks| && slots[i] != s && Gathered(c, s, slots[..i], ks)
    ensures Gathered(c, s, slots[..i + 1], ks)
  {
    hide Members;
    MembersStep(slots, i, s);
  }

  lemma NothingGathered(subs: array<Cmd?>, ks: seq<SubKey>)
    requires subs.Length == SLOTS && forall s: nat :: s < SLOTS ==> subs[s] == null
    ensures AllGathered(subs, [], ks) && Owns(subs, {}) && Remembers([], subs, [])
  {
    forall s: nat | s < SLOTS
      ensures Gathered(subs[s], s, [], ks)
    {
    }
  }

  /** The first loop: every key goes to the sub-command of its slot, and frag_seq remembers which. */
  method Gather(buf: seq<byte>, typ: CmdType, keys: seq<KeyPos>)
      returns (subs: array<Cmd?>, frag_seq: seq<Cmd>, slot_num: int, ghost N: set<Cmd>)
    requires Splits(buf, typ, keys)
    ensures fresh(subs) && fresh(N) && Owns(subs, N)
    ensures AllGathered(subs, SlotsOf(buf, keys), SubKeysOf(buf, typ, keys))
    ensures Remembers(frag_seq, subs, SlotsOf(buf, keys))
    ensures slot_num == if keys == [] then -1 else SlotsOf(buf, keys)[|keys| - 1]
  {
    hide Gathered;
    hide InBounds;
    hide Valued;
    hide AllGathered;
    hide Remembers;
    hide Owns;
    hide SlotsOf;
    hide SubKeysOf;
    hide Slot;
    ghost var slots, ks := SlotsOf(buf, keys), SubKeysOf(buf, typ, keys);
    subs := new Cmd?[SLOTS](_ => null);
    NothingGathered(subs, ks);
    frag_seq, slot_num, N := [], -1, {};
    var i := 0;
    assert slots[..0] == [];
    while i < |keys|
      invariant 0 <= i <= |keys| == |slots| && fresh(subs) && fresh(N) && Owns(subs, N)
      invariant AllGathered(subs, slots[..i], ks)
      invariant Remembers(frag_seq, subs, slots[..i])
      invariant slot_num == if i == 0 then -1 else slots[i - 1]
    {
      slot_num, frag_seq, N := GatherKey(subs, buf, typ, keys, i, frag_seq, N);
      i := i + 1;
    }
    assert slots[..i] == slots;
  }

  // ------------------------------------------------------------ the second loop

  /** num_str always has room: the numbers have at most ten digits. */
  lemma {:induction false} ShortNumeral(n: nat, digits: nat)
    requires n < Pow10(digits)
    ensures |Dec(n)| <= if digits == 0 then 1 else digits
  {
    if n >= 10 {
      ShortNumeral(n / 10, digits - 1);
    }
  }

  function Pow10(d: nat): (p: nat)
    ensures p >= 1
  {
    if d == 0 then 1 else 10 * Pow10(d - 1)
  }

  lemma FitsNumStr(n: nat)
    requires n < 0x8000_0000
    ensures |Dec(n)| <= 10
  {
    assert Pow10(3) == 1000;
    assert Pow10(6) == 1_000_000;
    assert Pow10(10) == 10_000_000_000;
    ShortNumeral(n, 10);
  }

  const NUM_STR: nat := 12

  /** hi_itoa into num_str and strlen of the result. */
  method PrintNumber(num_str: array<byte>, n: nat) returns (text: seq<byte>)
    requires num_str.Length == NUM_STR && n < 0x8000_0000 && (n == 0 ==> CStr(num_str[..]) != [])
    modifies num_str
    ensures text == CStr(num_str[..]) == ItoaText(old(CStr(num_str[..])), n)
  {
    FitsNumStr(n);
    HiItoa(num_str, n);
    text := CStr(num_str[..]);
  }

  /** The keys of a fragment, appended to what has been written of it. */
  method WriteKeys(num_str: array<byte>, buf: seq<byte>, typ: CmdType, ks: seq<SubKey>, head: seq<byte>) returns (out: seq<byte>)
    requires num_str.Length == NUM_STR && CStr(num_str[..]) != []
    requires AllWithin(buf, ks) && |buf| < 0x8000_0000
    modifies num_str
    ensures out == head + WrittenKeys(buf, typ, old(CStr(num_str[..])), ks)
  {
    hide WrittenKeys;
    hide TextAfter;
    hide Piece;
    hide ItoaText;
    hide CStr;
    ghost var prev := CStr(num_str[..]);
    out := head;
    NothingWritten(buf, typ, prev);
    assert head + [] == head && ks[..0] == [];
    var j := 0;
    while j < |ks|
      invariant 0 <= j <= |ks|
      invariant CStr(num_str[..]) == TextAfter(prev, ks[..j])
      invariant out == head + WrittenKeys(buf, typ, prev, ks[..j])
    {
      WrittenStep(buf, typ, prev, ks, j);
      TextNotEmpty(prev, ks[..j]);
      var text := PrintNumber(num_str, ks[j].end - ks[j].start);
      var line := [DOLLAR] + text + CRLF + Piece(buf, typ, ks[j]);
      Associates(head, WrittenKeys(buf, typ, prev, ks[..j]), line);
      out := out + line;
      j := j + 1;
    }
    assert ks[..j] == ks;
  }

  lemma NothingWritten(buf: seq<byte>, typ: CmdType, prev: seq<byte>)
    ensures WrittenKeys(buf, typ, prev, []) == [] && TextAfter(prev, []) == prev
  {}

  lemma WrittenStep(buf: seq<byte>, typ: CmdType, prev: seq<byte>, ks: seq<SubKey>, j: nat)
    requires AllWithin(buf, ks) && j < |ks|
    ensures Within(buf, ks[j]) && KeyLen(ks[j]) == ks[j].end - ks[j].start
    ensures AllWithin(buf, ks[..j]) && AllWithin(buf, ks[..j + 1])
    ensures var text := ItoaText(TextAfter(prev, ks[..j]), KeyLen(ks[j]));
            TextAfter(prev, ks[..j + 1]) == text &&
            WrittenKeys(buf, typ, prev, ks[..j + 1]) ==
              WrittenKeys(buf, typ, prev, ks[..j]) + ([DOLLAR] + text + CRLF + Piece(buf, typ, ks[j]))
  {
    hide Piece;
    hide ItoaText;
    assert ks[..j + 1][..j] == ks[..j];
  }

  /** A fragment whose bytes have been written. */
  ghost predicate Finished(c: Cmd, buf: seq<byte>, typ: CmdType, ks: seq<SubKey>)
    reads c
  {
    AllWithin(buf, ks) && c.typ == typ && c.keys == ks && c.reply == None &&
    c.narg == Narg(typ, |ks|) && c.clen == Predicted(typ, ks) && c.command == Written(buf, typ, ks)
  }

  /** The body of the second loop for one sub-command. */
  method WriteFragment(c: Cmd, num_str: array<byte>, buf: seq<byte>, typ: CmdType)
    requires num_str.Length == NUM_STR && Splittable(typ)
    requires Holds(c, c.keys) && AllWithin(buf, c.keys) && |buf| < 0x8000_0000 && |c.keys| < 0x3FFF_FFFF
    modifies c, num_str
    ensures Finished(c, buf, typ, old(c.keys)) && c.slot_num == old(c.slot_num)
  {
    hide WrittenKeys;
    hide PartLen;
    hide NameLines;
    hide CStr;
    var text := CountHeader(c, num_str, typ);
    c.command := WriteKeys(num_str, buf, typ, c.keys, [STAR] + text + NameLines(typ));
    c.typ := typ;
  }

  /** The argument count of a fragment, and what its header adds to the length. */
  method CountHeader(c: Cmd, num_str: array<byte>, typ: CmdType) returns (text: seq<byte>)
    requires num_str.Length == NUM_STR && Splittable(typ) && c.narg < 0x3FFF_FFFF
    modifies c`clen, c`narg, num_str
    ensures c.narg == Narg(typ, old(c.narg)) && text == CStr(num_str[..]) == Dec(c.narg)
    ensures c.clen == old(c.clen) + old(c.narg) * (if typ == MSET then 3 else 5) + (if typ == DEL then 12 else 13) + |text|
  {
    if typ == MGET {
      c.clen := c.clen + 5 * c.narg;
      c.narg := c.narg + 1;
      text := PrintNumber(num_str, c.narg);
      c.clen := c.clen + 13 + |text|;
    } else if typ == DEL {
      c.clen := c.clen + 5 * c.narg;
      c.narg := c.narg + 1;
      text := PrintNumber(num_str, c.narg);
      c.clen := c.clen + 12 + |text|;
    } else {
      c.clen := c.clen + 3 * c.narg;
      c.narg := c.narg * 2;
      c.narg := c.narg + 1;
      text := PrintNumber(num_str, c.narg);
      c.clen := c.clen + 13 + |text|;
    }
  }

  /** The fragment of a slot: its keys in their original order, written and not yet answered. */
  ghost predicate FragmentOf(c: Cmd, slot: nat, buf: seq<byte>, typ: CmdType, slots: seq<nat>, ks: seq<SubKey>)
    requires |slots| == |ks|
    reads c
  {
    c.slot_num == slot && Finished(c, buf, typ, Pick(ks, Members(slots, slot)))
  }

  /** `commands` are the fragments of the slots below `bound` that have keys, in ascending order. */
  ghost predicate Fragments(commands: seq<Cmd>, subs: array<Cmd?>, bound: nat,
                            buf: seq<byte>, typ: CmdType, slots: seq<nat>, ks: seq<SubKey>)
    requires |slots| == |ks| && subs.Length == SLOTS && bound <= SLOTS
    reads subs, commands
  {
    var occ := Occupied(slots, bound);
    |commands| == |occ| &&
    forall k :: 0 <= k < |occ| ==>
      commands[k] == subs[occ[k]] && FragmentOf(commands[k], occ[k], buf, typ, slots, ks)
  }

  lemma WithinPick(buf: seq<byte>, ks: seq<SubKey>, ms: seq<nat>)
    requires AllWithin(buf, ks) && forall j :: 0 <= j < |ms| ==> ms[j] < |ks|
    ensures AllWithin(buf, Pick(ks, ms))
  {}

  ghost predicate GatheredFrom(subs: array<Cmd?>, bound: nat, slots: seq<nat>, ks: seq<SubKey>)
    requires subs.Length == SLOTS
    reads subs, set s | 0 <= s < SLOTS :: subs[s]
  {
    forall s: nat :: bound <= s < SLOTS ==> Gathered(subs[s], s, slots, ks)
  }

  lemma OccupiedStep(slots: seq<nat>, i: nat)
    ensures Occupied(slots, i + 1) == Occupied(slots, i) + if Members(slots, i) != [] then [i] else []
  {}

  /** The sub-command of slot `i` is neither among the finished ones nor that of a later slot. */
  lemma SlotsApart(subs: array<Cmd?>, i: nat, buf: seq<byte>, typ: CmdType, slots: seq<nat>, ks: seq<SubKey>,
                   commands: seq<Cmd>)
    requires subs.Length == SLOTS && i < SLOTS && |slots| == |ks| && subs[i] != null
    requires GatheredFrom(subs, i, slots, ks) && Fragments(commands, subs, i, buf, typ, slots, ks)
    ensures subs[i] !in commands && forall s: nat :: i + 1 <= s < SLOTS ==> subs[s] != subs[i]
  {
    hide Members;
    hide Finished;
    assert Gathered(subs[i], i, slots, ks);
    forall s: nat | i + 1 <= s < SLOTS
      ensures subs[s] != subs[i]
    {
      assert Gathered(subs[s], s, slots, ks);
    }
    forall k | 0 <= k < |commands|
      ensures commands[k] != subs[i]
    {
      assert FragmentOf(commands[k], Occupied(slots, i)[k], buf, typ, slots, ks);
    }
  }

  /** One slot of the second loop. */
  method WriteSlot(subs: array<Cmd?>, i: nat, num_str: array<byte>, buf: seq<byte>, typ: CmdType,
                   ghost slots: seq<nat>, ghost ks: seq<SubKey>, commands: seq<Cmd>, ghost N: set<Cmd>)
      returns (commands': seq<Cmd>)
    requires subs.Length == SLOTS && i < SLOTS && num_str.Length == NUM_STR && Splittable(typ) && |slots| == |ks|
    requires AllWithin(buf, ks) && |buf| < 0x8000_0000 && |ks| < 0x3FFF_FFFF
    requires Owns(subs, N) && GatheredFrom(subs, i, slots, ks) && Fragments(commands, subs, i, buf, typ, slots, ks)
    modifies N, num_str
    ensures GatheredFrom(subs, i + 1, slots, ks) && Fragments(commands', subs, i + 1, buf, typ, slots, ks)
  {
    hide Finished;
    hide Members;
    hide AllWithin;
    hide Occupied;
    OccupiedStep(slots, i);
    assert Gathered(subs[i], i, slots, ks);
    if subs[i] == null {
      return commands;
    }
    commands' := WriteFound(subs, i, num_str, buf, typ, slots, ks, commands, N);
  }

  method WriteFound(subs: array<Cmd?>, i: nat, num_str: array<byte>, buf: seq<byte>, typ: CmdType,
                    ghost slots: seq<nat>, ghost ks: seq<SubKey>, commands: seq<Cmd>, ghost N: set<Cmd>)
      returns (commands': seq<Cmd>)
    requires subs.Length == SLOTS && i < SLOTS && num_str.Length == NUM_STR && Splittable(typ) && |slots| == |ks|
    requires AllWithin(buf, ks) && |buf| < 0x8000_0000 && |ks| < 0x3FFF_FFFF
    requires subs[i] != null && Members(slots, i) != [] && Gathered(subs[i], i, slots, ks)
    requires Owns(subs, N) && GatheredFrom(subs, i, slots, ks) && Fragments(commands, subs, i, buf, typ, slots, ks)
    modifies N, num_str
    ensures GatheredFrom(subs, i + 1, slots, ks) && Fragments(commands', subs, i + 1, buf, typ, slots, ks)
  {
    hide Gathered;
    hide FragmentOf;
    hide Members;
    hide AllWithin;
    hide Occupied;
    SlotsApart(subs, i, buf, typ, slots, ks, commands);
    WriteOne(subs[i], i, num_str, buf, typ, slots, ks);
    ghost var occ := Occupied(slots, i);
    forall k | 0 <= k < |commands|
      ensures commands[k] == subs[occ[k]] && FragmentOf(commands[k], occ[k], buf, typ, slots, ks)
    {
      assert old(FragmentOf(commands[k], occ[k], buf, typ, slots, ks));
    }
    forall s: nat | i + 1 <= s < SLOTS
      ensures Gathered(subs[s], s, slots, ks)
    {
      assert old(Gathered(subs[s], s, slots, ks));
    }
    commands' := commands + [subs[i]];
    FragmentsAppend(commands, subs, i, buf, typ, slots, ks);
  }

  lemma FragmentsAppend(commands: seq<Cmd>, subs: array<Cmd?>, i: nat,
                        buf: seq<byte>, typ: CmdType, slots: seq<nat>, ks: seq<SubKey>)
    requires |slots| == |ks| && subs.Length == SLOTS && i < SLOTS && subs[i] != null && Members(slots, i) != []
    requires Fragments(commands, subs, i, buf, typ, slots, ks) && FragmentOf(subs[i], i, buf, typ, slots, ks)
    ensures Fragments(commands + [subs[i]], subs, i + 1, buf, typ, slots, ks)
  {
    hide Members;
    hide FragmentOf;
  }

  method WriteOne(c: Cmd, i: nat, num_str: array<byte>, buf: seq<byte>, typ: CmdType,
                  ghost slots: seq<nat>, ghost ks: seq<SubKey>)
    requires num_str.Length == NUM_STR && Splittable(typ) && |slots| == |ks|
    requires AllWithin(buf, ks) && |buf| < 0x8000_0000 && |ks| < 0x3FFF_FFFF
    requires Gathered(c, i, slots, ks)
    modifies c, num_str
    ensures FragmentOf(c, i, buf, typ, slots, ks)
  {
    hide Finished;
    hide Members;
    GatheredHolds(c, i, slots, ks);
    WithinPick(buf, ks, Members(slots, i));
    WriteFragment(c, num_str, buf, typ);
  }

  // ------------------------------------------------------------ command_pre_fragment

  /** The split of a command: one fragment for every slot that has a key, in ascending slot order. */
  ghost predicate SplitInto(commands: seq<Cmd>, buf: seq<byte>, typ: CmdType, keys: seq<KeyPos>)
    requires Splits(buf, typ, keys)
    reads commands
  {
    var slots := SlotsOf(buf, keys);
    var occ := Occupied(slots, SLOTS);
    |commands| == |occ| &&
    forall k :: 0 <= k < |occ| ==> FragmentOf(commands[k], occ[k], buf, typ, slots, SubKeysOf(buf, typ, keys))
  }

  /** frag_seq leads from every key to the fragment of its slot. */
  ghost predicate Leads(frag_seq: seq<Cmd>, commands: seq<Cmd>, slots: seq<nat>)
    reads commands
  {
    |frag_seq| == |slots| &&
    forall i :: 0 <= i < |slots| ==> frag_seq[i] in commands && frag_seq[i].slot_num == slots[i]
  }

  lemma AllLead(frag_seq: seq<Cmd>, commands: seq<Cmd>, subs: array<Cmd?>,
                buf: seq<byte>, typ: CmdType, slots: seq<nat>, ks: seq<SubKey>)
    requires subs.Length == SLOTS && |slots| == |ks|
    requires Remembers(frag_seq, subs, slots) && Fragments(commands, subs, SLOTS, buf, typ, slots, ks)
    ensures Leads(frag_seq, commands, slots)
  {
    hide Members;
    hide Finished;
    hide Occupied;
    forall i | 0 <= i < |slots|
      ensures frag_seq[i] in commands && frag_seq[i].slot_num == slots[i]
    {
      MembersHas(slots, i);
      OccupiedHas(slots, SLOTS, slots[i]);
      var k :| 0 <= k < |commands| && Occupied(slots, SLOTS)[k] == slots[i];
      assert commands[k] == frag_seq[i];
    }
  }

  /** The second loop, over all slots. */
  method WriteAll(subs: array<Cmd?>, buf: seq<byte>, typ: CmdType,
                  ghost slots: seq<nat>, ghost ks: seq<SubKey>, ghost N: set<Cmd>) returns (commands: seq<Cmd>)
    requires subs.Length == SLOTS && Splittable(typ) && |slots| == |ks|
    requires AllWithin(buf, ks) && |buf| < 0x8000_0000 && |ks| < 0x3FFF_FFFF
    requires Owns(subs, N) && AllGathered(subs, slots, ks)
    modifies N
    ensures Fragments(commands, subs, SLOTS, buf, typ, slots, ks)
  {
    hide FragmentOf;
    hide Gathered;
    hide AllWithin;
    var num_str := new byte[NUM_STR];
    commands := [];
    var i := 0;
    while i < SLOTS
      invariant 0 <= i <= SLOTS && Owns(subs, N) && fresh(num_str)
      invariant GatheredFrom(subs, i, slots, ks)
      invariant Fragments(commands, subs, i, buf, typ, slots, ks)
    {
      commands := WriteSlot(subs, i, num_str, buf, typ, slots, ks, commands, N);
      i := i + 1;
    }
  }

  lemma {:induction false} NoKeysNoFragments(bound: nat)
    ensures Occupied([], bound) == []
  {
    if bound > 0 {
      NoKeysNoFragments(bound - 1);
    }
  }

  lemma FragmentsOwned(commands: seq<Cmd>, subs: array<Cmd?>, buf: seq<byte>, typ: CmdType,
                       slots: seq<nat>, ks: seq<SubKey>, N: set<Cmd>)
    requires |slots| == |ks| && Owns(subs, N) && Fragments(commands, subs, SLOTS, buf, typ, slots, ks)
    ensures forall k :: 0 <= k < |commands| ==> commands[k] in N
  {
    hide FragmentOf;
    hide Occupied;
  }

  lemma FragmentsSplit(commands: seq<Cmd>, subs: array<Cmd?>, buf: seq<byte>, typ: CmdType, keys: seq<KeyPos>)
    requires Splits(buf, typ, keys) && subs.Length == SLOTS
    requires Fragments(commands, subs, SLOTS, buf, typ, SlotsOf(buf, keys), SubKeysOf(buf, typ, keys))
    ensures SplitInto(commands, buf, typ, keys) && |commands| == |Occupied(SlotsOf(buf, keys), SLOTS)|
  {
    hide FragmentOf;
  }

  lemma SplitDone(frag_seq: seq<Cmd>, commands: seq<Cmd>, subs: array<Cmd?>,
                  buf: seq<byte>, typ: CmdType, keys: seq<KeyPos>, N: set<Cmd>)
    requires Splits(buf, typ, keys) && Owns(subs, N) && Remembers(frag_seq, subs, SlotsOf(buf, keys))
    requires Fragments(commands, subs, SLOTS, buf, typ, SlotsOf(buf, keys), SubKeysOf(buf, typ, keys))
    ensures SplitInto(commands, buf, typ, keys) && Leads(frag_seq, commands, SlotsOf(buf, keys))
    ensures |commands| == |Occupied(SlotsOf(buf, keys), SLOTS)| && forall k :: 0 <= k < |commands| ==> commands[k] in N
  {
    hide SplitInto;
    hide Leads;
    hide Fragments;
    hide Occupied;
    hide InBounds;
    hide Valued;
    hide SlotsOf;
    hide SubKeysOf;
    hide Remembers;
    var slots, ks := SlotsOf(buf, keys), SubKeysOf(buf, typ, keys);
    AllLead(frag_seq, commands, subs, buf, typ, slots, ks);
    FragmentsOwned(commands, subs, buf, typ, slots, ks, N);
    FragmentsSplit(commands, subs, buf, typ, keys);
  }

  /** Both loops. */
  method SplitAll(buf: seq<byte>, typ: CmdType, keys: seq<KeyPos>)
      returns (slot_num: int, frag_seq: seq<Cmd>, commands: seq<Cmd>)
    requires Splits(buf, typ, keys)
    ensures slot_num == if keys == [] then -1 else SlotsOf(buf, keys)[|keys| - 1]
    ensures SplitInto(commands, buf, typ, keys) && Leads(frag_seq, commands, SlotsOf(buf, keys))
    ensures |commands| == |Occupied(SlotsOf(buf, keys), SLOTS)| && forall k :: 0 <= k < |commands| ==> fresh(commands[k])
  {
    hide SplitInto;
    hide Leads;
    hide Fragments;
    hide FragmentOf;
    hide Occupied;
    hide InBounds;
    hide Valued;
    hide SlotsOf;
    hide SubKeysOf;
    hide AllGathered;
    hide Remembers;
    hide AllWithin;
    hide RemainsOnlyForMset;
    hide Slot;
    hide SubKeyOf;
    var subs;
    ghost var N;
    subs, frag_seq, slot_num, N := Gather(buf, typ, keys);
    ghost var slots, ks := SlotsOf(buf, keys), SubKeysOf(buf, typ, keys);
    SubKeysFit(buf, typ, keys);
    commands := WriteAll(subs, buf, typ, slots, ks, N);
    SplitDone(frag_seq, commands, subs, buf, typ, keys, N);
  }

  /**
   command_pre_fragment. With keys in several slots it returns one finished fragment for each
   of these slots and frag_seq; with all keys in one slot it returns neither, and the command
   is sent as it is. The slot number is that of the last key, not of the last fragment.
   */
  method PreFragment(buf: seq<byte>, typ: CmdType, keys: seq<KeyPos>)
      returns (slot_num: int, frag_seq: seq<Cmd>, commands: seq<Cmd>)
    requires Splits(buf, typ, keys)
    ensures slot_num == if keys == [] then -1 else SlotsOf(buf, keys)[|keys| - 1]
    ensures |Occupied(SlotsOf(buf, keys), SLOTS)| != 1 ==>
              SplitInto(commands, buf, typ, keys) && Leads(frag_seq, commands, SlotsOf(buf, keys)) &&
              |commands| == |Occupied(SlotsOf(buf, keys), SLOTS)|
    ensures |Occupied(SlotsOf(buf, keys), SLOTS)| == 1 ==> commands == [] && frag_seq == []
    ensures forall k :: 0 <= k < |commands| ==> fresh(commands[k])
  {
    hide SplitInto;
    hide Leads;
    hide Occupied;
    hide InBounds;
    hide Valued;
    hide SlotsOf;
    slot_num, frag_seq, commands := SplitAll(buf, typ, keys);
    NoKeysNoFragments(SLOTS);
    if slot_num >= 0 && |commands| == 1 {
      commands, frag_seq := [], [];
    }
  }

  lemma OccupiedIs(slots: seq<nat>, slot: nat)
    requires slot < SLOTS
    ensures slot in Occupied(slots, SLOTS) <==> slot in slots
  {
    if slot in slots {
      var i :| 0 <= i < |slots| && slots[i] == slot;
      MembersHas(slots, i);
      OccupiedHas(slots, SLOTS, slot);
    }
    if slot in Occupied(slots, SLOTS) {
      assert slots[Members(slots, slot)[0]] == slot;
    }
  }

  /** One slot holds all keys exactly when they have the same slot. */
  lemma OneFragment(slots: seq<nat>)
    requires slots != [] && forall i :: 0 <= i < |slots| ==> slots[i] < SLOTS
    ensures |Occupied(slots, SLOTS)| == 1 <==> forall i :: 0 <= i < |slots| ==> slots[i] == slots[0]
  {
    hide Occupied;
    hide Members;
    var occ := Occupied(slots, SLOTS);
    forall s | s in occ || s in slots
      ensures s in occ <==> s in slots
    {
      OccupiedIs(slots, s);
    }
    assert slots[0] in occ;
    if |occ| == 1 {
      forall i | 0 <= i < |slots|
        ensures slots[i] == slots[0]
      {
        assert slots[i] in occ;
      }
    } else {
      assert occ[0] != occ[1] && occ[0] in slots && occ[1] in slots;
    }
  }
}
