/**
 The bytes of a command fragment, as the writing loop of command_pre_fragment
 (hircluster.cpp) produces them, against the canonical wire form. The loop prints
 every number into one buffer that it never clears, and the conversion of zero does
 not terminate the text; so the fragment is canonical exactly when no empty key is
 printed over a number of two or more digits.
 */
module FragmentLayout {
  import opened Bytes
  import opened CommandTable
  import opened Resp
  import opened Format

  /** A key of the command being split: its bytes start..end, and what is copied after it for MSET. */
  datatype SubKey = SubKey(start: nat, end: nat, remain: nat)

  predicate Within(buf: seq<byte>, k: SubKey) {
    k.start <= k.end && k.end + k.remain <= |buf|
  }

  predicate AllWithin(buf: seq<byte>, ks: seq<SubKey>) {
    forall i :: 0 <= i < |ks| ==> Within(buf, ks[i])
  }

  predicate Splittable(typ: CmdType) {
    typ == MGET || typ == DEL || typ == MSET
  }

  function KeyLen(k: SubKey): nat {
    if k.start <= k.end then k.end - k.start else 0
  }

  function KeyBytes(buf: seq<byte>, k: SubKey): seq<byte>
    requires Within(buf, k)
  {
    buf[k.start..k.end]
  }

  /** The key and what follows it: CR LF, or for MSET the copied rest with the value. */
  function Piece(buf: seq<byte>, typ: CmdType, k: SubKey): seq<byte>
    requires Within(buf, k)
  {
    if typ == MSET then buf[k.start..k.end + k.remain] else buf[k.start..k.end] + CRLF
  }

  /** The command name and the line ends around it, as the string literals spell them. */
  function NameLines(typ: CmdType): seq<byte> {
    if typ == MGET then [13, 10, 36, 52, 13, 10, 109, 103, 101, 116, 13, 10]
    else if typ == MSET then [13, 10, 36, 52, 13, 10, 109, 115, 101, 116, 13, 10]
    else [13, 10, 36, 51, 13, 10, 100, 101, 108, 13, 10]
  }

  function Name(typ: CmdType): seq<byte> {
    if typ == MGET then MGET_NAME else if typ == MSET then MSET_NAME else DEL_NAME
  }

  /** The argument count of a fragment with `n` keys. */
  function Narg(typ: CmdType, n: nat): nat {
    if typ == MSET then 2 * n + 1 else n + 1
  }

  // ------------------------------------------------------------ what is written

  /** The key part, when the number buffer holds `prev` at the start. */
  function WrittenKeys(buf: seq<byte>, typ: CmdType, prev: seq<byte>, ks: seq<SubKey>): seq<byte>
    requires AllWithin(buf, ks)
  {
    if ks == [] then []
    else
      var n := |ks| - 1;
      WrittenKeys(buf, typ, prev, ks[..n]) +
      ([DOLLAR] + ItoaText(TextAfter(prev, ks[..n]), KeyLen(ks[n])) + CRLF + Piece(buf, typ, ks[n]))
  }

  /** The text in the number buffer after the lengths of `ks` have been printed. */
  function TextAfter(prev: seq<byte>, ks: seq<SubKey>): seq<byte> {
    if ks == [] then prev else ItoaText(TextAfter(prev, ks[..|ks| - 1]), KeyLen(ks[|ks| - 1]))
  }

  function Written(buf: seq<byte>, typ: CmdType, ks: seq<SubKey>): seq<byte>
    requires AllWithin(buf, ks)
  {
    var count := Dec(Narg(typ, |ks|));
    [STAR] + count + NameLines(typ) + WrittenKeys(buf, typ, count, ks)
  }

  // ------------------------------------------------------------ what was predicted

  /** The part of clen that is added up key by key. */
  function PartLen(ks: seq<SubKey>): nat {
    if ks == [] then 0
    else
      var k := ks[|ks| - 1];
      PartLen(ks[..|ks| - 1]) + KeyLen(k) + |Dec(KeyLen(k))| + k.remain
  }

  /** The whole precomputed length. */
  function Predicted(typ: CmdType, ks: seq<SubKey>): nat {
    var n := |ks|;
    PartLen(ks) + (if typ == MSET then 3 * n else 5 * n) + (if typ == DEL then 12 else 13) + |Dec(Narg(typ, n))|
  }

  // ------------------------------------------------------------ the canonical form

  function CanonicalKeys(buf: seq<byte>, typ: CmdType, ks: seq<SubKey>): seq<byte>
    requires AllWithin(buf, ks)
  {
    if ks == [] then []
    else
      var n := |ks| - 1;
      CanonicalKeys(buf, typ, ks[..n]) + (BulkHead(KeyLen(ks[n])) + Piece(buf, typ, ks[n]))
  }

  function Canonical(buf: seq<byte>, typ: CmdType, ks: seq<SubKey>): seq<byte>
    requires AllWithin(buf, ks)
  {
    [STAR] + Dec(Narg(typ, |ks|)) + NameLines(typ) + CanonicalKeys(buf, typ, ks)
  }

  /** No empty key is printed over a number of two or more digits. */
  predicate Clean(prev: seq<byte>, ks: seq<SubKey>) {
    ks != [] ==>
      var n := |ks| - 1;
      Clean(prev, ks[..n]) && (KeyLen(ks[n]) == 0 ==> |TextAfter(prev, ks[..n])| == 1)
  }

  lemma {:induction false} TextNotEmpty(prev: seq<byte>, ks: seq<SubKey>)
    requires prev != []
    ensures TextAfter(prev, ks) != []
  {
    if ks != [] {
      TextNotEmpty(prev, ks[..|ks| - 1]);
    }
  }

  /** Without a remainder the rest copied after the key is empty. */
  predicate RemainsOnlyForMset(typ: CmdType, ks: seq<SubKey>) {
    typ != MSET ==> forall i :: 0 <= i < |ks| ==> ks[i].remain == 0
  }

  /** The number printed for an empty key is as long as the number that was there. */
  lemma TextLength(before: seq<byte>, n: nat)
    requires before != []
    ensures |ItoaText(before, n)| == if n == 0 then |before| else |Dec(n)|
    ensures n == 0 ==> (ItoaText(before, n) == Dec(n) <==> |before| == 1)
    ensures n > 0 ==> ItoaText(before, n) == Dec(n)
  {
    DecLeading(n);
    if n == 0 && |before| == 1 {
      assert before[1..] == [];
    }
  }

  lemma PieceLength(buf: seq<byte>, typ: CmdType, ks: seq<SubKey>, i: nat)
    requires AllWithin(buf, ks) && i < |ks| && RemainsOnlyForMset(typ, ks)
    ensures |Piece(buf, typ, ks[i])| == KeyLen(ks[i]) + ks[i].remain + if typ == MSET then 0 else 2
  {}

  /** Every key takes at least the predicted room, and exactly that if and only if all are clean. */
  lemma {:induction false} KeysLayout(buf: seq<byte>, typ: CmdType, prev: seq<byte>, ks: seq<SubKey>)
    requires AllWithin(buf, ks) && RemainsOnlyForMset(typ, ks) && prev != []
    ensures |WrittenKeys(buf, typ, prev, ks)| >= |CanonicalKeys(buf, typ, ks)|
    ensures |WrittenKeys(buf, typ, prev, ks)| == |CanonicalKeys(buf, typ, ks)| <==> Clean(prev, ks)
    ensures WrittenKeys(buf, typ, prev, ks) == CanonicalKeys(buf, typ, ks) <==> Clean(prev, ks)
    ensures |CanonicalKeys(buf, typ, ks)| == PartLen(ks) + |ks| * if typ == MSET then 3 else 5
  {
    if ks != [] {
      var n := |ks| - 1;
      KeysLayout(buf, typ, prev, ks[..n]);
      TextNotEmpty(prev, ks[..n]);
      DecLeading(KeyLen(ks[n]));
      TextLength(TextAfter(prev, ks[..n]), KeyLen(ks[n]));
      PieceLength(buf, typ, ks, n);
    }
  }

  /**
   The precomputed clen is the number of bytes written, and these are the canonical
   bytes, exactly when the fragment is clean; otherwise more bytes are written than
   were counted.
   */
  lemma LayoutExact(buf: seq<byte>, typ: CmdType, ks: seq<SubKey>)
    requires AllWithin(buf, ks) && RemainsOnlyForMset(typ, ks) && Splittable(typ)
    ensures var clean := Clean(Dec(Narg(typ, |ks|)), ks);
            (|Written(buf, typ, ks)| == Predicted(typ, ks) <==> clean) &&
            (Written(buf, typ, ks) == Canonical(buf, typ, ks) <==> clean) &&
            (!clean ==> |Written(buf, typ, ks)| > Predicted(typ, ks))
  {
    var count := Dec(Narg(typ, |ks|));
    KeysLayout(buf, typ, count, ks);
    var head := [STAR] + count + NameLines(typ);
    var w, c := WrittenKeys(buf, typ, count, ks), CanonicalKeys(buf, typ, ks);
    if Written(buf, typ, ks) == Canonical(buf, typ, ks) {
      assert w == (head + w)[|head|..] && c == (head + c)[|head|..];
    }
  }

  /** The bytes an empty key takes beyond its one digit: the rest of the number that was there. */
  function Excess(prev: seq<byte>, ks: seq<SubKey>): int {
    if ks == [] then 0
    else
      var n := |ks| - 1;
      Excess(prev, ks[..n]) + if KeyLen(ks[n]) == 0 then |TextAfter(prev, ks[..n])| - 1 else 0
  }

  lemma {:induction false} KeysExcess(buf: seq<byte>, typ: CmdType, prev: seq<byte>, ks: seq<SubKey>)
    requires AllWithin(buf, ks) && RemainsOnlyForMset(typ, ks) && prev != []
    ensures |WrittenKeys(buf, typ, prev, ks)| == |CanonicalKeys(buf, typ, ks)| + Excess(prev, ks)
  {
    if ks != [] {
      var n := |ks| - 1;
      KeysExcess(buf, typ, prev, ks[..n]);
      TextNotEmpty(prev, ks[..n]);
      TextLength(TextAfter(prev, ks[..n]), KeyLen(ks[n]));
      DecLeading(KeyLen(ks[n]));
    }
  }

  /** The bytes written beyond clen are exactly the digits left over before the empty keys. */
  lemma LayoutExcess(buf: seq<byte>, typ: CmdType, ks: seq<SubKey>)
    requires AllWithin(buf, ks) && RemainsOnlyForMset(typ, ks) && Splittable(typ)
    ensures |Written(buf, typ, ks)| == Predicted(typ, ks) + Excess(Dec(Narg(typ, |ks|)), ks)
  {
    var count := Dec(Narg(typ, |ks|));
    KeysExcess(buf, typ, count, ks);
    KeysLayout(buf, typ, count, ks);
  }

  /** An empty key comes first only under an argument count below ten, and otherwise only after a key shorter than ten. */
  predicate ShortBeforeEmpty(narg: nat, lens: seq<nat>) {
    (lens != [] && lens[0] == 0 ==> narg < 10) &&
    forall i :: 0 < i < |lens| && lens[i] == 0 ==> lens[i - 1] < 10
  }

  function Lengths(ks: seq<SubKey>): (r: seq<nat>)
    ensures |r| == |ks|
  {
    seq(|ks|, i requires 0 <= i < |ks| => KeyLen(ks[i]))
  }

  lemma OneDigit(n: nat)
    ensures |Dec(n)| == 1 <==> n < 10
  {
    if n >= 10 {
      DecLeading(n / 10);
    }
  }

  /** While all is clean, the buffer holds a number as long as the last one printed. */
  lemma {:induction false} CleanText(narg: nat, ks: seq<SubKey>)
    requires Clean(Dec(narg), ks)
    ensures |TextAfter(Dec(narg), ks)| == |Dec(if ks == [] then narg else KeyLen(ks[|ks| - 1]))|
  {
    if ks != [] {
      var n := |ks| - 1;
      TextNotEmpty(Dec(narg), ks[..n]);
      TextLength(TextAfter(Dec(narg), ks[..n]), KeyLen(ks[n]));
      OneDigit(KeyLen(ks[n]));
    }
  }

  lemma ShortSnoc(narg: nat, lens: seq<nat>, len: nat)
    ensures ShortBeforeEmpty(narg, lens + [len]) <==>
            ShortBeforeEmpty(narg, lens) && (len == 0 ==> (if lens == [] then narg else lens[|lens| - 1]) < 10)
  {
    var more := lens + [len];
    var n := |lens|;
    assert more[n] == len && forall i :: 0 <= i < n ==> more[i] == lens[i];
    if ShortBeforeEmpty(narg, more) {
      forall i | 0 < i < n && lens[i] == 0
        ensures lens[i - 1] < 10
      {
        assert more[i] == 0;
      }
      if n > 0 {
        assert lens[0] == more[0] && lens[n - 1] == more[n - 1];
      }
    }
    if ShortBeforeEmpty(narg, lens) && (len == 0 ==> (if lens == [] then narg else lens[n - 1]) < 10) {
      forall i | 0 < i <= n && more[i] == 0
        ensures more[i - 1] < 10
      {
        assert more[i - 1] == lens[i - 1];
      }
    }
  }

  /** Cleanness in the lengths of the keys alone. */
  lemma {:induction false} CleanIsShort(narg: nat, ks: seq<SubKey>)
    ensures Clean(Dec(narg), ks) <==> ShortBeforeEmpty(narg, Lengths(ks))
  {
    if ks != [] {
      var n := |ks| - 1;
      CleanIsShort(narg, ks[..n]);
      assert Lengths(ks) == Lengths(ks[..n]) + [KeyLen(ks[n])];
      ShortSnoc(narg, Lengths(ks[..n]), KeyLen(ks[n]));
      if Clean(Dec(narg), ks[..n]) {
        CleanText(narg, ks[..n]);
        OneDigit(if n == 0 then narg else KeyLen(ks[n - 1]));
      }
    }
  }

  // ------------------------------------------------------------ the canonical form is a command

  /** The arguments a fragment carries: its keys, each followed by its value for MSET. */
  function Interleaved(typ: CmdType, keys: seq<seq<byte>>, values: seq<seq<byte>>): (args: seq<seq<byte>>)
    requires |keys| == |values|
    ensures |args| == if typ == MSET then 2 * |keys| else |keys|
  {
    if keys == [] then []
    else
      var n := |keys| - 1;
      Interleaved(typ, keys[..n], values[..n]) + if typ == MSET then [keys[n], values[n]] else [keys[n]]
  }

  function FragmentArgv(typ: CmdType, keys: seq<seq<byte>>, values: seq<seq<byte>>): seq<seq<byte>>
    requires |keys| == |values|
  {
    [Name(typ)] + Interleaved(typ, keys, values)
  }

  /** The buffer holds `key` at `k`, and for MSET its bulk-encoded value right behind it. */
  predicate Carries(buf: seq<byte>, typ: CmdType, k: SubKey, key: seq<byte>, value: seq<byte>) {
    Within(buf, k) && KeyBytes(buf, k) == key &&
    (typ == MSET ==> buf[k.end..k.end + k.remain] == CRLF + Bulk(value))
  }

  lemma {:induction false} BulksPrepend(name: seq<byte>, args: seq<seq<byte>>)
    ensures Bulks([name] + args) == Bulk(name) + Bulks(args)
  {
    if args == [] {
      assert [name] + args == [name];
      assert [name][..0] == [];
    } else {
      var n := |args| - 1;
      BulksPrepend(name, args[..n]);
      assert ([name] + args)[..n + 1] == [name] + args[..n];
      Associates(Bulk(name), Bulks(args[..n]), Bulk(args[n]));
    }
  }

  lemma BulksTwo(args: seq<seq<byte>>, a: seq<byte>, b: seq<byte>)
    ensures Bulks(args + [a, b]) == Bulks(args) + (Bulk(a) + Bulk(b))
    ensures Bulks(args + [a]) == Bulks(args) + Bulk(a)
  {
    assert (args + [a, b])[..|args| + 1] == args + [a];
    assert (args + [a])[..|args|] == args;
    Associates(Bulks(args), Bulk(a), Bulk(b));
  }

  lemma PieceIsBulks(buf: seq<byte>, typ: CmdType, k: SubKey, key: seq<byte>, value: seq<byte>)
    requires Carries(buf, typ, k, key, value)
    ensures BulkHead(KeyLen(k)) + Piece(buf, typ, k) == if typ == MSET then Bulk(key) + Bulk(value) else Bulk(key)
  {
    BulkSplit(key);
    if typ == MSET {
      assert Piece(buf, typ, k) == key + (CRLF + Bulk(value));
      Associates(key, CRLF, Bulk(value));
      Associates(BulkHead(KeyLen(k)), key + CRLF, Bulk(value));
    }
  }

  lemma {:induction false} CanonicalKeysAreBulks(buf: seq<byte>, typ: CmdType, ks: seq<SubKey>,
                                                 keys: seq<seq<byte>>, values: seq<seq<byte>>)
    requires |ks| == |keys| == |values| && AllWithin(buf, ks)
    requires forall i :: 0 <= i < |ks| ==> Carries(buf, typ, ks[i], keys[i], values[i])
    ensures CanonicalKeys(buf, typ, ks) == Bulks(Interleaved(typ, keys, values))
  {
    if ks != [] {
      var n := |ks| - 1;
      CanonicalKeysAreBulks(buf, typ, ks[..n], keys[..n], values[..n]);
      PieceIsBulks(buf, typ, ks[n], keys[n], values[n]);
      BulksTwo(Interleaved(typ, keys[..n], values[..n]), keys[n], values[n]);
    }
  }

  lemma NameLinesAreBulk(typ: CmdType)
    requires Splittable(typ)
    ensures NameLines(typ) == CRLF + Bulk(Name(typ))
  {
    hide Bulk;
    hide BulkHead;
    var name := Name(typ);
    ShortHeads();
    BulkSplit(name);
    assert NameLines(typ) == CRLF + (BulkHead(|name|) + (name + CRLF));
  }

  lemma ShortHeads()
    ensures BulkHead(3) == [36, 51, 13, 10] && BulkHead(4) == [36, 52, 13, 10]
  {
    assert Dec(3) == [51] && Dec(4) == [52];
  }

  /** A clean fragment is the wire form of its command, keys and values in their order. */
  lemma CanonicalIsWire(buf: seq<byte>, typ: CmdType, ks: seq<SubKey>,
                        keys: seq<seq<byte>>, values: seq<seq<byte>>)
    requires |ks| == |keys| == |values| && AllWithin(buf, ks) && Splittable(typ)
    requires forall i :: 0 <= i < |ks| ==> Carries(buf, typ, ks[i], keys[i], values[i])
    ensures Canonical(buf, typ, ks) == Wire(FragmentArgv(typ, keys, values))
  {
    var args := Interleaved(typ, keys, values);
    var argv := FragmentArgv(typ, keys, values);
    NameLinesAreBulk(typ);
    CanonicalKeysAreBulks(buf, typ, ks, keys, values);
    BulksPrepend(Name(typ), args);
    WireIsHeadAndBulks(argv);
    assert |argv| == Narg(typ, |ks|);
    var d := [STAR] + Dec(|argv|);
    Associates(d, CRLF, Bulk(Name(typ)));
    Associates(d + CRLF, Bulk(Name(typ)), Bulks(args));
  }
}
