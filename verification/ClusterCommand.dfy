/**
 A whole multi-key command against a cluster (hircluster.cpp command_format_by_slot and
 redisClusterFormattedCommand): the formatted bytes are parsed, split by slot, the
 fragments are sent to the nodes of their slots and the replies are merged. The network
 is perfect here and a node executes what it can read from the bytes it is sent.
 */
module ClusterCommand {
  import opened Bytes
  import opened CommandTable
  import opened Resp
  import opened Format
  import opened Command
  import opened CommandKeys
  import opened CommandRoundTrip
  import opened FragmentLayout
  import opened Fragment
  import opened Merge
  import opened HashSlot
  import opened Scatter

  // ------------------------------------------------------------ what a node does with bytes

  function ArgKeys(typ: CmdType, args: seq<seq<byte>>): seq<Key> {
    if typ == MSET then seq(|args| / 2, j requires 0 <= j < |args| / 2 => args[2 * j]) else args
  }

  function ArgValues(typ: CmdType, args: seq<seq<byte>>): (r: seq<seq<byte>>)
    ensures |r| == |ArgKeys(typ, args)|
  {
    if typ == MSET then seq(|args| / 2, j requires 0 <= j < |args| / 2 => args[2 * j + 1]) else args
  }

  const BAD_ARITY: seq<byte> := [69, 82, 82, 32, 97, 114, 105, 116, 121]
  const NOT_A_COMMAND: seq<byte> := [69, 82, 82]

  /** The command `argv` on one store; commands other than MGET, DEL and MSET are not modelled. */
  function Exec(store: Store, argv: seq<seq<byte>>): Ran {
    if argv == [] || !Splittable(TypeOf(argv[0])) then Ran(store, Error(NOT_A_COMMAND))
    else
      var typ := TypeOf(argv[0]);
      var args := argv[1..];
      if args == [] || (typ == MSET && |args| % 2 == 1) then Ran(store, Error(BAD_ARITY))
      else Perform(typ, store, ArgKeys(typ, args), ArgValues(typ, args))
  }

  /** Without a key, or with a key that has no value, a node refuses the command and keeps its store. */
  lemma ArityRefused(store: Store, name: seq<byte>, args: seq<seq<byte>>)
    requires args == [] || (name == MSET_NAME && |args| % 2 == 1)
    ensures Exec(store, [name] + args).store == store && Exec(store, [name] + args).reply.Error?
  {
    hide TypeOf;
    FragmentNames();
    assert ([name] + args)[1..] == args;
  }

  predicate AllStrings(vs: seq<Reply>) {
    forall i :: 0 <= i < |vs| ==> vs[i].Str?
  }

  function Texts(vs: seq<Reply>): (r: seq<seq<byte>>)
    requires AllStrings(vs)
    ensures |r| == |vs|
  {
    seq(|vs|, i requires 0 <= i < |vs| => vs[i].s)
  }

  /** A node reads an array of bulk strings from the bytes and executes it. */
  function Serve(store: Store, bytes: seq<byte>): Ran {
    var r := ParseReply(bytes, 0);
    if r.Parsed? && r.value.Arr? && AllStrings(r.value.elems) then Exec(store, Texts(r.value.elems))
    else Ran(store, Error(NOT_A_COMMAND))
  }

  lemma ServeWire(store: Store, argv: seq<seq<byte>>)
    ensures Serve(store, Wire(argv)) == Exec(store, argv)
  {
    hide Wire;
    hide ParseReply;
    hide Exec;
    WireReadsBack(argv, []);
    assert Wire(argv) + [] == Wire(argv);
    assert Texts(Strs(argv)) == argv;
  }

  lemma {:induction false} InterleavedAt(typ: CmdType, keys: seq<Key>, values: seq<seq<byte>>, j: nat)
    requires |keys| == |values| && j < |keys|
    ensures var args := Interleaved(typ, keys, values);
            if typ == MSET then args[2 * j] == keys[j] && args[2 * j + 1] == values[j] else args[j] == keys[j]
  {
    var n := |keys| - 1;
    if j < n {
      InterleavedAt(typ, keys[..n], values[..n], j);
    }
  }

  lemma InterleavedSplits(typ: CmdType, keys: seq<Key>, values: seq<seq<byte>>)
    requires |keys| == |values|
    ensures ArgKeys(typ, Interleaved(typ, keys, values)) == keys
    ensures typ == MSET ==> ArgValues(typ, Interleaved(typ, keys, values)) == values
  {
    forall j | 0 <= j < |keys|
      ensures ArgKeys(typ, Interleaved(typ, keys, values))[j] == keys[j]
      ensures typ == MSET ==> ArgValues(typ, Interleaved(typ, keys, values))[j] == values[j]
    {
      InterleavedAt(typ, keys, values, j);
    }
  }

  /** A node executes a canonical fragment as the command on the fragment's keys and values. */
  lemma ServeFragment(store: Store, typ: CmdType, keys: seq<Key>, values: seq<seq<byte>>)
    requires |keys| == |values| && keys != [] && Splittable(typ)
    ensures Serve(store, Wire(FragmentArgv(typ, keys, values))) == Perform(typ, store, keys, values)
  {
    hide TypeOf;
    hide Interleaved;
    hide Serve;
    hide Wire;
    hide Perform;
    hide ArgKeys;
    hide ArgValues;
    var argv := FragmentArgv(typ, keys, values);
    ServeWire(store, argv);
    FragmentNames();
    assert argv[1..] == Interleaved(typ, keys, values);
    InterleavedSplits(typ, keys, values);
    InterleavedCount(typ, keys, values);
    if typ != MSET {
      ValuesUnused(typ, store, keys, values, ArgValues(typ, argv[1..]));
    }
  }

  lemma InterleavedCount(typ: CmdType, keys: seq<Key>, values: seq<seq<byte>>)
    requires |keys| == |values|
    ensures |Interleaved(typ, keys, values)| == if typ == MSET then 2 * |keys| else |keys|
  {}

  lemma ValuesUnused(typ: CmdType, store: Store, keys: seq<Key>, values: seq<seq<byte>>, others: seq<seq<byte>>)
    requires |keys| == |values| == |others| && Splittable(typ) && typ != MSET
    ensures Perform(typ, store, keys, values) == Perform(typ, store, keys, others)
  {
    hide Delete;
  }

  // ------------------------------------------------------------ from the formatted command to its fragments

  /** An MGET, DEL or MSET with at least one key and, for MSET, as many values. */
  predicate WellFormed(argv: seq<seq<byte>>) {
    Fits(argv) && |Wire(argv)| < 0x8000_0000 && |argv| < 0x3FFF_FFFF && |argv| >= 2 &&
    Splittable(TypeOf(argv[0])) && (TypeOf(argv[0]) == MSET ==> |argv| % 2 == 1)
  }

  /** The position in the argument list of key `j`. */
  function KeyIndex(typ: CmdType, j: nat): nat {
    if typ == MSET then 2 * j + 1 else j + 1
  }

  function KeysOf(argv: seq<seq<byte>>): (r: seq<KeyPos>)
    requires |argv| >= 1
  {
    var typ := TypeOf(argv[0]);
    var n := |ArgKeys(typ, argv[1..])|;
    seq(n, j requires 0 <= j < n => KeyAt(argv, KeyIndex(typ, j)))
  }

  /** The keys recorded by the parser are the key arguments. */
  lemma KeysAreArguments(argv: seq<seq<byte>>, j: nat)
    requires WellFormed(argv) && j < |KeysOf(argv)|
    ensures var typ := TypeOf(argv[0]);
            var key := KeysOf(argv)[j];
            var texts := ArgKeys(typ, argv[1..]);
            |KeysOf(argv)| == |texts| && key.start <= key.end && key.end + 2 <= |Wire(argv)| &&
            Wire(argv)[key.start..key.end] == texts[j]
  {
    hide TypeOf;
    hide Wire;
    hide KeyAt;
    hide Offset;
    KeySlice(argv, KeyIndex(TypeOf(argv[0]), j));
    KeyAtOrdered(argv, KeyIndex(TypeOf(argv[0]), j));
  }

  lemma KeyAtOrdered(argv: seq<seq<byte>>, i: nat)
    requires i < |argv|
    ensures KeyAt(argv, i).start <= KeyAt(argv, i).end
  {}

  lemma ParseFinds(argv: seq<seq<byte>>)
    requires WellFormed(argv)
    ensures var r := Execute(Wire(argv), INITIAL);
            r.Accepted? && r.s.typ == TypeOf(argv[0]) && r.s.keys == KeysOf(argv)
  {
    hide TypeOf;
    hide ClassOf;
    hide Wire;
    hide Execute;
    hide KeysOf;
    hide KeysAt;
    MultiKeyClasses(TypeOf(argv[0]));
    ParserInvertsFormatter(argv);
    KeysOfIs(argv);
  }

  lemma KeysOfIs(argv: seq<seq<byte>>)
    requires WellFormed(argv)
    ensures KeysOf(argv) == KeysAt(argv, KeyIndexes(ClassOf(TypeOf(argv[0])), |argv|))
  {
    hide TypeOf;
    hide ClassOf;
    hide Wire;
    hide Fits;
    hide KeyAt;
    var typ := TypeOf(argv[0]);
    MultiKeyClasses(typ);
    var js := KeyIndexes(ClassOf(typ), |argv|);
    var n := |argv|;
    assert |argv[1..]| == n - 1;
    assert typ == MSET ==> (n - 1) / 2 == n / 2;
    assert |js| == |KeysOf(argv)|;
    forall j | 0 <= j < |js|
      ensures js[j] == KeyIndex(typ, j) < n
    {
    }
  }

  /** The line end after argument `i`, then the whole next argument. */
  lemma NextBulk(argv: seq<seq<byte>>, i: nat)
    requires i + 1 < |argv|
    ensures At(Wire(argv), KeyAt(argv, i).end, CRLF + Bulk(argv[i + 1]))
  {
    hide Bulk;
    hide Wire;
    hide Offset;
    var cmd := Wire(argv);
    var e := KeyAt(argv, i).end;
    KeySlice(argv, i);
    BulkLocated(argv, i);
    BulkLocated(argv, i + 1);
    BulkSplit(argv[i]);
    var q := Offset(argv, i);
    AtParts(cmd, q, BulkHead(|argv[i]|), argv[i] + CRLF);
    AtParts(cmd, q + |BulkHead(|argv[i]|)|, argv[i], CRLF);
    assert cmd[e..e + 2] == CRLF;
    var v := Bulk(argv[i + 1]);
    assert cmd[e..e + 2 + |v|] == cmd[e..e + 2] + cmd[e + 2..e + 2 + |v|];
  }

  lemma AtByte(cmd: seq<byte>, q: nat, piece: seq<byte>, k: nat)
    requires CommandRoundTrip.At(cmd, q, piece) && k < |piece|
    ensures q + k < |cmd| && cmd[q + k] == piece[k]
  {
    assert cmd[q..q + |piece|][k] == cmd[q + k];
  }

  /** Where the pieces of a bulk string behind a key are. */
  lemma BulkPieces(cmd: seq<byte>, e: nat, value: seq<byte>)
    requires CommandRoundTrip.At(cmd, e, CRLF + Bulk(value))
    ensures CommandRoundTrip.At(cmd, e, CRLF) && CommandRoundTrip.At(cmd, e + 2, [DOLLAR])
    ensures var d := Dec(|value|);
            CommandRoundTrip.At(cmd, e + 3, d) && CommandRoundTrip.At(cmd, e + 3 + |d|, CRLF) &&
            CommandRoundTrip.At(cmd, e + 5 + |d|, value) && CommandRoundTrip.At(cmd, e + 5 + |d| + |value|, CRLF)
  {
    hide Dec;
    hide CommandRoundTrip.At;
    hide Bulk;
    var d := Dec(|value|);
    BulkSplit(value);
    AtParts(cmd, e, CRLF, Bulk(value));
    AtParts(cmd, e + 2, BulkHead(|value|), value + CRLF);
    AtParts(cmd, e + 2, [DOLLAR] + d, CRLF);
    AtParts(cmd, e + 2, [DOLLAR], d);
    AtParts(cmd, e + 5 + |d|, value, CRLF);
  }

  /** The length line of a bulk string behind a key. */
  lemma LengthFound(cmd: seq<byte>, e: nat, value: seq<byte>)
    requires CommandRoundTrip.At(cmd, e, CRLF + Bulk(value)) && |value| < TWO_32
    ensures var q := e + 3 + |Dec(|value|)|;
            LengthAt(cmd, e, q) && LengthOf(cmd, e, q) == |value|
  {
    hide Dec;
    hide Bulk;
    var d := Dec(|value|);
    var q := e + 3 + |d|;
    DecRoundTrip(|value|);
    DecLeading(|value|);
    BulkPieces(cmd, e, value);
    AtSlice(cmd, e + 3, d);
    hide CommandRoundTrip.At;
    AtByte(cmd, e, CRLF, 0);
    AtByte(cmd, e, CRLF, 1);
    AtByte(cmd, e + 2, [DOLLAR], 0);
    AtByte(cmd, q, CRLF, 0);
  }

  /** A bulk string behind a key is what the value scan finds. */
  lemma ValueFound(cmd: seq<byte>, e: nat, value: seq<byte>)
    requires CommandRoundTrip.At(cmd, e, CRLF + Bulk(value)) && |value| < TWO_32
    ensures ValueFollows(cmd, e) && Remain(cmd, e) == |CRLF + Bulk(value)|
  {
    var d := Dec(|value|);
    var q := e + 3 + |d|;
    LengthFound(cmd, e, value);
    BulkSplit(value);
    BulkPieces(cmd, e, value);
    hide Dec;
    hide Bulk;
    hide LengthAt;
    hide LengthOf;
    hide CommandRoundTrip.At;
    AtByte(cmd, q, CRLF, 1);
    AtByte(cmd, q + 2 + |value|, CRLF, 0);
    AtByte(cmd, q + 2 + |value|, CRLF, 1);
    LengthOrdered(cmd, e, q);
    assert ValueAt(cmd, e, q);
    RemainIs(cmd, e, q);
  }

  lemma LengthOrdered(cmd: seq<byte>, e: nat, q: nat)
    requires LengthAt(cmd, e, q)
    ensures e + 3 < q < |cmd|
  {}

  lemma AtSlice(cmd: seq<byte>, q: nat, piece: seq<byte>)
    requires CommandRoundTrip.At(cmd, q, piece)
    ensures q + |piece| <= |cmd| && cmd[q..q + |piece|] == piece
  {}

  /** The key and the value of pair `j` of an MSET. */
  lemma PairOf(argv: seq<seq<byte>>, j: nat)
    requires WellFormed(argv) && TypeOf(argv[0]) == MSET && j < |KeysOf(argv)|
    ensures 2 * j + 2 < |argv| && KeysOf(argv)[j] == KeyAt(argv, 2 * j + 1) && |argv[2 * j + 2]| < TWO_32
    ensures j < |ArgValues(MSET, argv[1..])| && ArgValues(MSET, argv[1..])[j] == argv[2 * j + 2]
  {
    hide TypeOf;
    hide Wire;
    hide KeyAt;
    PairExists(argv, j);
  }

  lemma PairExists(argv: seq<seq<byte>>, j: nat)
    requires WellFormed(argv) && TypeOf(argv[0]) == MSET && j < |KeysOf(argv)|
    ensures 2 * j + 2 < |argv| && |argv[2 * j + 2]| < TWO_32
  {
    hide TypeOf;
    hide Wire;
    hide KeyAt;
    assert |argv[1..]| == |argv| - 1;
  }

  lemma MsetValueFollows(argv: seq<seq<byte>>, j: nat)
    requires WellFormed(argv) && TypeOf(argv[0]) == MSET && j < |KeysOf(argv)|
    ensures var cmd := Wire(argv);
            var e := KeysOf(argv)[j].end;
            var rest := CRLF + Bulk(ArgValues(MSET, argv[1..])[j]);
            ValueFollows(cmd, e) && Remain(cmd, e) == |rest| && cmd[e..e + |rest|] == rest
  {
    hide TypeOf;
    hide Wire;
    hide KeyAt;
    hide Bulk;
    hide ValueFollows;
    hide Remain;
    hide CommandRoundTrip.At;
    hide KeysOf;
    hide ArgValues;
    PairOf(argv, j);
    NextBulk(argv, 2 * j + 1);
    AtSlice(Wire(argv), KeysOf(argv)[j].end, CRLF + Bulk(argv[2 * j + 2]));
    ValueFound(Wire(argv), KeysOf(argv)[j].end, argv[2 * j + 2]);
  }

  /** A formatted command meets what the fragmenter relies on. */
  lemma FormattedSplits(argv: seq<seq<byte>>)
    requires WellFormed(argv)
    ensures Splits(Wire(argv), TypeOf(argv[0]), KeysOf(argv))
  {
    hide TypeOf;
    hide Wire;
    hide ValueFollows;
    var keys := KeysOf(argv);
    forall j | 0 <= j < |keys|
      ensures keys[j].start <= keys[j].end < |Wire(argv)|
      ensures TypeOf(argv[0]) == MSET ==> ValueFollows(Wire(argv), keys[j].end)
    {
      KeysAreArguments(argv, j);
      if TypeOf(argv[0]) == MSET {
        MsetValueFollows(argv, j);
      }
    }
    SmallEnough(argv);
  }

  lemma SmallEnough(argv: seq<seq<byte>>)
    requires WellFormed(argv)
    ensures Splittable(TypeOf(argv[0])) && |Wire(argv)| < 0x8000_0000 && |KeysOf(argv)| < 0x3FFF_FFFF
  {
    hide TypeOf;
    hide Wire;
    hide KeyAt;
  }

  lemma SlotsAreKeySlots(argv: seq<seq<byte>>)
    requires WellFormed(argv)
    ensures Splits(Wire(argv), TypeOf(argv[0]), KeysOf(argv))
    ensures SlotsOf(Wire(argv), KeysOf(argv)) == KeySlots(ArgKeys(TypeOf(argv[0]), argv[1..]))
  {
    hide TypeOf;
    hide Wire;
    hide KeysOf;
    hide Slot;
    hide ArgKeys;
    FormattedSplits(argv);
    var keys := KeysOf(argv);
    var texts := ArgKeys(TypeOf(argv[0]), argv[1..]);
    KeyCount(argv);
    forall j | 0 <= j < |keys|
      ensures SlotsOf(Wire(argv), keys)[j] == KeySlots(texts)[j]
    {
      KeysAreArguments(argv, j);
    }
  }

  lemma KeyCount(argv: seq<seq<byte>>)
    requires WellFormed(argv)
    ensures |KeysOf(argv)| == |ArgKeys(TypeOf(argv[0]), argv[1..])| > 0
  {
    hide TypeOf;
    hide Wire;
    hide KeyAt;
  }

  /** At every recorded key the buffer holds the key argument and, for MSET, its value. */
  lemma ArgumentCarried(argv: seq<seq<byte>>, j: nat)
    requires WellFormed(argv) && j < |KeysOf(argv)|
    ensures Splits(Wire(argv), TypeOf(argv[0]), KeysOf(argv)) && |KeysOf(argv)| == |ArgKeys(TypeOf(argv[0]), argv[1..])|
    ensures var typ := TypeOf(argv[0]);
            Carries(Wire(argv), typ, SubKeysOf(Wire(argv), typ, KeysOf(argv))[j],
                    ArgKeys(typ, argv[1..])[j], ArgValues(typ, argv[1..])[j])
  {
    hide TypeOf;
    hide Wire;
    hide KeysOf;
    hide ArgKeys;
    hide ArgValues;
    hide Bulk;
    hide Splits;
    hide Remain;
    FormattedSplits(argv);
    KeyCount(argv);
    KeysAreArguments(argv, j);
    if TypeOf(argv[0]) == MSET {
      MsetValueFollows(argv, j);
    }
  }

  /** The keys of the fragment for `slot`, as positions in the command. */
  function FragmentKeys(argv: seq<seq<byte>>, slot: nat): seq<SubKey>
    requires WellFormed(argv) && Splits(Wire(argv), TypeOf(argv[0]), KeysOf(argv))
  {
    var cmd, typ, keys := Wire(argv), TypeOf(argv[0]), KeysOf(argv);
    Pick(SubKeysOf(cmd, typ, keys), Members(SlotsOf(cmd, keys), slot))
  }

  /** No empty key is printed over a number of two or more digits, in the fragment of any slot. */
  ghost predicate AllClean(argv: seq<seq<byte>>)
    requires WellFormed(argv)
  {
    FormattedSplits(argv);
    forall slot: nat :: var ks := FragmentKeys(argv, slot); Clean(Dec(Narg(TypeOf(argv[0]), |ks|)), ks)
  }

  /** The bytes of a clean fragment are the wire form of the command on its keys and values. */
  lemma FragmentIsWire(argv: seq<seq<byte>>, slot: nat)
    requires WellFormed(argv) && AllClean(argv)
    ensures Splits(Wire(argv), TypeOf(argv[0]), KeysOf(argv))
    ensures var typ := TypeOf(argv[0]);
            var texts, values := ArgKeys(typ, argv[1..]), ArgValues(typ, argv[1..]);
            var ks := FragmentKeys(argv, slot);
            AllWithin(Wire(argv), ks) &&
            Written(Wire(argv), typ, ks) ==
              Wire(FragmentArgv(typ, Part(texts, KeySlots(texts), slot), Part(values, KeySlots(texts), slot)))
  {
    hide TypeOf;
    hide KeysOf;
    hide ArgKeys;
    hide ArgValues;
    hide InBounds;
    hide Valued;
    hide Wire;
    hide Written;
    hide Canonical;
    hide FragmentArgv;
    hide Clean;
    hide Carries;
    hide Slot;
    FormattedSplits(argv);
    KeyCount(argv);
    SlotsAreKeySlots(argv);
    var cmd, typ, keys := Wire(argv), TypeOf(argv[0]), KeysOf(argv);
    var texts, values := ArgKeys(typ, argv[1..]), ArgValues(typ, argv[1..]);
    var slots, ks := SlotsOf(cmd, keys), SubKeysOf(cmd, typ, keys);
    var ms := Members(slots, slot);
    SubKeysFit(cmd, typ, keys);
    WithinPick(cmd, ks, ms);
    SmallEnough(argv);
    var part := Pick(ks, ms);
    assert RemainsOnlyForMset(typ, part);
    LayoutExact(cmd, typ, part);
    var pk, pv := Part(texts, KeySlots(texts), slot), Part(values, KeySlots(texts), slot);
    forall j | 0 <= j < |part|
      ensures Carries(cmd, typ, part[j], pk[j], pv[j])
    {
      ArgumentCarried(argv, ms[j]);
    }
    CanonicalIsWire(cmd, typ, part, pk, pv);
    assert part == FragmentKeys(argv, slot);
  }

  // ------------------------------------------------------------ sending the fragments

  lemma NoNegativeArray(store: Store, bytes: seq<byte>)
    ensures !Serve(store, bytes).reply.NegArray?
  {
    hide ParseReply;
    hide TypeOf;
    hide Delete;
    hide Assign;
  }

  predicate Stopped(rs: seq<Reply>) {
    rs != [] && rs[|rs| - 1].Error?
  }

  /** The fragments' bytes sent one after the other to the nodes of their slots, up to the first error reply. */
  function ServeEach(nodes: Nodes, owner: seq<nat>, slots: seq<nat>, texts: seq<seq<byte>>): (r: (Nodes, seq<Reply>))
    requires Owning(owner, nodes) && |slots| == |texts| && forall k :: 0 <= k < |slots| ==> slots[k] < SLOTS
    ensures Owning(owner, r.0) && |r.0| == |nodes| && (Stopped(r.1) || |r.1| == |slots|) && |r.1| <= |slots|
    ensures forall k :: 0 <= k < |r.1| ==> !r.1[k].NegArray?
  {
    if slots == [] then (nodes, [])
    else
      var n := |slots| - 1;
      var (ns, rs) := ServeEach(nodes, owner, slots[..n], texts[..n]);
      if Stopped(rs) then (ns, rs)
      else
        NoNegativeArray(ns[owner[slots[n]]], texts[n]);
        var ran := Serve(ns[owner[slots[n]]], texts[n]);
        (ns[owner[slots[n]] := ran.store], rs + [ran.reply])
  }

  /** The commands carry these slot numbers and bytes, and no two have the same slot. */
  ghost predicate Addressed(commands: seq<Cmd>, slots: seq<nat>, texts: seq<seq<byte>>)
    reads commands
  {
    |commands| == |slots| == |texts| &&
    (forall k :: 0 <= k < |slots| ==>
      commands[k].slot_num == slots[k] < SLOTS && commands[k].command == texts[k]) &&
    forall k, l :: 0 <= k < l < |slots| ==> slots[k] != slots[l]
  }

  /** The loop that executes the fragments and keeps their replies. */
  method ExecuteFragments(commands: seq<Cmd>, nodes: Nodes, owner: seq<nat>, ghost slots: seq<nat>, ghost texts: seq<seq<byte>>)
      returns (nodes': Nodes, error: Option<Reply>, ghost rs: seq<Reply>)
    requires Owning(owner, nodes) && Addressed(commands, slots, texts)
    modifies commands
    ensures Owning(owner, nodes') && (nodes', rs) == ServeEach(nodes, owner, slots, texts)
    ensures Addressed(commands, slots, texts) && forall c :: c in commands ==> c.slot_num == old(c.slot_num)
    ensures Stopped(rs) ==> error == Some(rs[|rs| - 1])
    ensures !Stopped(rs) ==> error == None && |rs| == |commands| && forall k :: 0 <= k < |rs| ==> commands[k].reply == Some(rs[k])
  {
    hide Serve;
    hide ServeEach;
    ServeNone(nodes, owner);
    nodes', rs := nodes, [];
    var k := 0;
    assert slots[..0] == [] && texts[..0] == [];
    while k < |commands|
      invariant 0 <= k <= |commands| && Owning(owner, nodes') && Addressed(commands, slots, texts)
      invariant (nodes', rs) == ServeEach(nodes, owner, slots[..k], texts[..k]) && !Stopped(rs) && |rs| == k
      invariant forall l :: 0 <= l < k ==> commands[l].reply == Some(rs[l])
      invariant forall c :: c in commands ==> c.slot_num == old(c.slot_num)
    {
      ServeNext(nodes, owner, slots, texts, k);
      var c := commands[k];
      var ran := Serve(nodes'[owner[c.slot_num]], c.command);
      nodes' := nodes'[owner[c.slot_num] := ran.store];
      rs := rs + [ran.reply];
      k := k + 1;
      if ran.reply.Error? {
        StopsThere(nodes, owner, slots, texts, k);
        return nodes', Some(ran.reply), rs;
      }
      c.reply := Some(ran.reply);
    }
    assert slots[..k] == slots && texts[..k] == texts;
    return nodes', None, rs;
  }

  lemma ServeNone(nodes: Nodes, owner: seq<nat>)
    requires Owning(owner, nodes)
    ensures ServeEach(nodes, owner, [], []) == (nodes, [])
  {}

  lemma ServeNext(nodes: Nodes, owner: seq<nat>, slots: seq<nat>, texts: seq<seq<byte>>, k: nat)
    requires Owning(owner, nodes) && |slots| == |texts| && k < |slots|
    requires forall j :: 0 <= j < |slots| ==> slots[j] < SLOTS
    requires !Stopped(ServeEach(nodes, owner, slots[..k], texts[..k]).1)
    ensures var (ns, rs) := ServeEach(nodes, owner, slots[..k], texts[..k]);
            var ran := Serve(ns[owner[slots[k]]], texts[k]);
            ServeEach(nodes, owner, slots[..k + 1], texts[..k + 1]) == (ns[owner[slots[k]] := ran.store], rs + [ran.reply])
  {
    hide Serve;
    hide ServeEach;
    ServeEachSnoc(nodes, owner, slots[..k], texts[..k], slots[k], texts[k]);
    assert slots[..k + 1] == slots[..k] + [slots[k]] && texts[..k + 1] == texts[..k] + [texts[k]];
  }

  lemma {:induction false} StopsThere(nodes: Nodes, owner: seq<nat>, slots: seq<nat>, texts: seq<seq<byte>>, k: nat)
    requires Owning(owner, nodes) && |slots| == |texts| && k <= |slots|
    requires forall j :: 0 <= j < |slots| ==> slots[j] < SLOTS
    requires Stopped(ServeEach(nodes, owner, slots[..k], texts[..k]).1)
    ensures ServeEach(nodes, owner, slots, texts) == ServeEach(nodes, owner, slots[..k], texts[..k])
  {
    hide Serve;
    if k == |slots| {
      assert slots[..k] == slots && texts[..k] == texts;
    } else {
      var n := |slots| - 1;
      assert slots[..n][..k] == slots[..k] && texts[..n][..k] == texts[..k];
      StopsThere(nodes, owner, slots[..n], texts[..n], k);
    }
  }

  // ------------------------------------------------------------ merging what came back

  /** What a fragment lists is what its keys take. */
  lemma ListedIsShared(commands: seq<Cmd>, frag_seq: seq<Cmd>, slots: seq<nat>, rs: seq<Reply>, elems: seq<Reply>, i: nat)
    requires Answered(commands, slots, rs) && Leads(frag_seq, commands, slots) && i < |slots|
    requires ListedBySlot(elems, rs, slots)
    ensures frag_seq[i].reply.Some? && frag_seq[i].reply.value.Arr?
    ensures var es := frag_seq[i].reply.value.elems;
            |es| == |Members(slots, slots[i])| && Share(es, slots, i) == elems[i]
  {
    hide Occupied;
    hide Members;
    hide Rank;
    var k :| 0 <= k < |commands| && commands[k] == frag_seq[i];
    var occ := Occupied(slots, SLOTS);
    assert occ[k] == slots[i] && rs[k] == Arr(Part(elems, slots, occ[k]));
    ShareOfFullReply(Part(elems, slots, slots[i]), slots, i);
  }

  /** Every fragment has answered one element per key, and `elems` has the keys' elements. */
  ghost predicate FullShares(all: Elems, frag_seq: seq<Cmd>, slots: seq<nat>, elems: seq<Reply>) {
    |elems| == |slots| == |frag_seq| &&
    forall i :: 0 <= i < |slots| ==>
      frag_seq[i] in all && |all[frag_seq[i]]| == |Members(slots, slots[i])| && Share(all[frag_seq[i]], slots, i) == elems[i]
  }

  lemma ListedFully(commands: seq<Cmd>, frag_seq: seq<Cmd>, slots: seq<nat>, rs: seq<Reply>, elems: seq<Reply>)
    requires Answered(commands, slots, rs) && Leads(frag_seq, commands, slots) && ListedBySlot(elems, rs, slots)
    requires forall c :: c in commands ==> c.reply.Some? && c.reply.value.Arr?
    ensures FullShares(ElemsOf(commands), frag_seq, slots, elems)
  {
    hide Answered;
    hide Members;
    hide Share;
    forall i | 0 <= i < |slots|
      ensures var es := frag_seq[i].reply.value.elems;
              |es| == |Members(slots, slots[i])| && Share(es, slots, i) == elems[i]
    {
      ListedIsShared(commands, frag_seq, slots, rs, elems, i);
    }
  }

  lemma MergedIs(out: MergeResult, commands: seq<Cmd>, frag_seq: seq<Cmd>, all: Elems, slots: seq<nat>, elems: seq<Reply>)
    requires MgetMerged(out, commands, frag_seq, all, slots) && FullShares(all, frag_seq, slots, elems)
    ensures out == Answer(Arr(elems))
  {
    hide Members;
    hide Share;
    assert Enough(frag_seq, all, slots);
    assert out.reply.elems == elems;
  }

  /** command_post_fragment on replies that merge to `reply` hands out `reply`. */
  method MergeAnswers(typ: CmdType, commands: seq<Cmd>, frag_seq: seq<Cmd>,
                      ghost slots: seq<nat>, ghost rs: seq<Reply>, ghost reply: Reply) returns (out: MergeResult)
    requires Splittable(typ) && Answered(commands, slots, rs) && Leads(frag_seq, commands, slots)
    requires forall k :: 0 <= k < |rs| ==> !rs[k].NegArray?
    modifies commands
    ensures MergesTo(typ, rs, slots, reply) ==> out == Answer(reply)
  {
    hide Answered;
    hide MgetMerged;
    hide ListedBySlot;
    hide FullShares;
    AnsweredReplies(commands, slots, rs);
    ghost var elems := if reply.Arr? then reply.elems else [];
    ghost var all: Elems := map[];
    if typ == MGET && MergesTo(typ, rs, slots, reply) {
      AllArrays(commands);
      assert forall c :: c in commands ==> c.reply.value.Arr?;
      all := ElemsOf(commands);
      ListedFully(commands, frag_seq, slots, rs, elems);
    }
    out := PostFragment(typ, commands, frag_seq, slots);
    if typ == MGET && MergesTo(typ, rs, slots, reply) {
      MergedIs(out, commands, frag_seq, all, slots, elems);
    }
  }

  // ------------------------------------------------------------ the whole command

  function KeyTexts(argv: seq<seq<byte>>): seq<Key>
    requires WellFormed(argv)
  {
    ArgKeys(TypeOf(argv[0]), argv[1..])
  }

  function ValueTexts(argv: seq<seq<byte>>): (r: seq<seq<byte>>)
    requires WellFormed(argv)
    ensures |r| == |KeyTexts(argv)|
  {
    ArgValues(TypeOf(argv[0]), argv[1..])
  }

  /** The bytes of the fragments of the slots `occ`. */
  function FragmentTexts(argv: seq<seq<byte>>, occ: seq<nat>): (r: seq<seq<byte>>)
    requires WellFormed(argv)
    ensures |r| == |occ|
  {
    FormattedSplits(argv);
    seq(|occ|, k requires 0 <= k < |occ| => FragmentText(argv, occ[k]))
  }

  function FragmentText(argv: seq<seq<byte>>, slot: nat): seq<byte>
    requires WellFormed(argv)
  {
    FormattedSplits(argv);
    FragmentFits(argv, slot);
    Written(Wire(argv), TypeOf(argv[0]), FragmentKeys(argv, slot))
  }

  lemma FragmentFits(argv: seq<seq<byte>>, slot: nat)
    requires WellFormed(argv)
    ensures Splits(Wire(argv), TypeOf(argv[0]), KeysOf(argv)) && AllWithin(Wire(argv), FragmentKeys(argv, slot))
  {
    hide TypeOf;
    hide KeysOf;
    hide Wire;
    FormattedSplits(argv);
    var cmd, typ, keys := Wire(argv), TypeOf(argv[0]), KeysOf(argv);
    SubKeysFit(cmd, typ, keys);
    WithinPick(cmd, SubKeysOf(cmd, typ, keys), Members(SlotsOf(cmd, keys), slot));
  }

  lemma ServeFragmentText(argv: seq<seq<byte>>, store: Store, slot: nat)
    requires WellFormed(argv) && AllClean(argv)
    requires Members(KeySlots(KeyTexts(argv)), slot) != []
    ensures var keys, values := KeyTexts(argv), ValueTexts(argv);
            var slots := KeySlots(keys);
            Serve(store, FragmentText(argv, slot)) ==
            Perform(TypeOf(argv[0]), store, Part(keys, slots, slot), Part(values, slots, slot)) &&
            !Serve(store, FragmentText(argv, slot)).reply.Error?
  {
    hide TypeOf;
    hide Wire;
    hide Written;
    hide AllClean;
    hide FragmentKeys;
    hide Serve;
    hide Part;
    hide Delete;
    hide Assign;
    var keys, values := KeyTexts(argv), ValueTexts(argv);
    var slots := KeySlots(keys);
    FragmentIsWire(argv, slot);
    ServeFragment(store, TypeOf(argv[0]), Part(keys, slots, slot), Part(values, slots, slot));
  }

  lemma ServeEachSnoc(nodes: Nodes, owner: seq<nat>, slots: seq<nat>, texts: seq<seq<byte>>, slot: nat, text: seq<byte>)
    requires Owning(owner, nodes) && |slots| == |texts| && slot < SLOTS
    requires forall k :: 0 <= k < |slots| ==> slots[k] < SLOTS
    requires !Stopped(ServeEach(nodes, owner, slots, texts).1)
    ensures var (ns, rs) := ServeEach(nodes, owner, slots, texts);
            var ran := Serve(ns[owner[slot]], text);
            ServeEach(nodes, owner, slots + [slot], texts + [text]) == (ns[owner[slot] := ran.store], rs + [ran.reply])
  {
    hide Serve;
    assert (slots + [slot])[..|slots|] == slots && (texts + [text])[..|slots|] == texts;
  }

  lemma FragmentTextsSnoc(argv: seq<seq<byte>>, occ: seq<nat>, slot: nat)
    requires WellFormed(argv)
    ensures FragmentTexts(argv, occ + [slot]) == FragmentTexts(argv, occ) + [FragmentText(argv, slot)]
  {
    hide TypeOf;
    hide Wire;
    hide FragmentText;
  }

  lemma ServedStep(argv: seq<seq<byte>>, nodes: Nodes, owner: seq<nat>, slot: nat)
    requires WellFormed(argv) && AllClean(argv) && Owning(owner, nodes) && slot < SLOTS
    requires Members(KeySlots(KeyTexts(argv)), slot) != []
    requires var occ := Occupied(KeySlots(KeyTexts(argv)), slot);
             var r := RunFragments(TypeOf(argv[0]), nodes, owner, KeyTexts(argv), ValueTexts(argv), slot);
             ServeEach(nodes, owner, occ, FragmentTexts(argv, occ)) == r && !Stopped(r.1)
    ensures var occ := Occupied(KeySlots(KeyTexts(argv)), slot) + [slot];
            var r := RunFragments(TypeOf(argv[0]), nodes, owner, KeyTexts(argv), ValueTexts(argv), slot + 1);
            ServeEach(nodes, owner, occ, FragmentTexts(argv, occ)) == r && !Stopped(r.1)
  {
    hide TypeOf;
    hide Wire;
    hide AllClean;
    hide FragmentText;
    hide FragmentTexts;
    hide Serve;
    hide ServeEach;
    hide Part;
    hide Perform;
    hide KeyTexts;
    hide ValueTexts;
    hide Members;
    hide Occupied;
    hide Fits;
    var occ := Occupied(KeySlots(KeyTexts(argv)), slot);
    var ns := RunFragments(TypeOf(argv[0]), nodes, owner, KeyTexts(argv), ValueTexts(argv), slot).0;
    ServeFragmentText(argv, ns[owner[slot]], slot);
    FragmentTextsSnoc(argv, occ, slot);
    ServeEachSnoc(nodes, owner, occ, FragmentTexts(argv, occ), slot, FragmentText(argv, slot));
  }

  /** Sending the written fragments has the effect and the replies of running the fragments. */
  lemma {:induction false} ServedAsPerformed(argv: seq<seq<byte>>, nodes: Nodes, owner: seq<nat>, bound: nat)
    requires WellFormed(argv) && AllClean(argv) && Owning(owner, nodes) && bound <= SLOTS
    ensures var occ := Occupied(KeySlots(KeyTexts(argv)), bound);
            var r := RunFragments(TypeOf(argv[0]), nodes, owner, KeyTexts(argv), ValueTexts(argv), bound);
            ServeEach(nodes, owner, occ, FragmentTexts(argv, occ)) == r && !Stopped(r.1)
  {
    hide TypeOf;
    hide Wire;
    hide AllClean;
    hide FragmentText;
    hide Serve;
    hide RunSlot;
    hide KeyTexts;
    hide ValueTexts;
    hide Members;
    hide KeySlots;
    hide Fits;
    if bound > 0 {
      var slot := bound - 1;
      var slots := KeySlots(KeyTexts(argv));
      ServedAsPerformed(argv, nodes, owner, slot);
      OccupiedStep(slots, slot);
      if Members(slots, slot) != [] {
        ServedStep(argv, nodes, owner, slot);
      } else {
        assert Occupied(slots, bound) == Occupied(slots, slot);
      }
    }
  }

  lemma {:induction false} AbsentUntouched(typ: CmdType, keys: seq<Key>, values: seq<seq<byte>>, key: Key, v: Option<seq<byte>>)
    requires |keys| == |values| && key !in keys
    ensures Scatter.After(typ, keys, values, key, v) == v
  {
    if keys != [] && typ != MGET {
      var n := |keys| - 1;
      assert keys[n] in keys;
      AbsentUntouched(typ, keys[..n], values[..n], key, v);
    }
  }

  /** When all keys have one slot, the node of that slot can run the command as it is. */
  lemma OneNodeSuffices(typ: CmdType, nodes: Nodes, owner: seq<nat>, whole: Store,
                        keys: seq<Key>, values: seq<seq<byte>>, slot: nat)
    requires |keys| == |values| && Splittable(typ) && Owning(owner, nodes) && Agree(nodes, owner, whole) && slot < SLOTS
    requires forall k :: k in keys ==> Slot(k) == slot
    ensures var ran := Perform(typ, nodes[owner[slot]], keys, values);
            var all := Perform(typ, whole, keys, values);
            ran.reply == all.reply && Agree(nodes[owner[slot] := ran.store], owner, all.store)
  {
    hide Slot;
    hide Perform;
    hide Scatter.After;
    var node := nodes[owner[slot]];
    var ran, all := Perform(typ, node, keys, values), Perform(typ, whole, keys, values);
    forall k | k in keys
      ensures Lookup(node, k) == Lookup(whole, k)
    {
      assert owner[Slot(k)] == owner[slot];
    }
    ReplyDepends(typ, node, whole, keys, values);
    forall k: Key
      ensures Lookup(nodes[owner[slot] := ran.store][owner[Slot(k)]], k) == Lookup(all.store, k)
    {
      RunPointwise(typ, node, keys, values, k);
      RunPointwise(typ, whole, keys, values, k);
      if owner[Slot(k)] != owner[slot] {
        AbsentUntouched(typ, keys, values, k, Lookup(whole, k));
      }
    }
  }

  lemma WholeIsPerformed(argv: seq<seq<byte>>, store: Store)
    requires WellFormed(argv)
    ensures Exec(store, argv) == Perform(TypeOf(argv[0]), store, KeyTexts(argv), ValueTexts(argv))
    ensures Serve(store, Wire(argv)) == Exec(store, argv)
  {
    hide TypeOf;
    hide Perform;
    hide Wire;
    hide Serve;
    hide Fits;
    hide ArgKeys;
    hide ArgValues;
    ServeWire(store, argv);
    assert |argv[1..]| == |argv| - 1;
  }

  /** The fragments are executed and their replies merged; an error reply ends it at once. */
  method ExecuteAndMerge(typ: CmdType, commands: seq<Cmd>, frag_seq: seq<Cmd>, nodes: Nodes, owner: seq<nat>,
                         ghost slots: seq<nat>, ghost texts: seq<seq<byte>>, ghost reply: Reply)
      returns (nodes': Nodes, out: MergeResult, ghost rs: seq<Reply>)
    requires Splittable(typ) && Owning(owner, nodes) && Leads(frag_seq, commands, slots)
    requires Addressed(commands, Occupied(slots, SLOTS), texts)
    modifies commands
    ensures Owning(owner, nodes') && (nodes', rs) == ServeEach(nodes, owner, Occupied(slots, SLOTS), texts)
    ensures Stopped(rs) ==> out == Answer(rs[|rs| - 1])
    ensures !Stopped(rs) && MergesTo(typ, rs, slots, reply) ==> out == Answer(reply)
  {
    hide Occupied;
    hide Serve;
    hide MergesTo;
    var error;
    nodes', error, rs := ExecuteFragments(commands, nodes, owner, Occupied(slots, SLOTS), texts);
    if error.Some? {
      return nodes', Answer(error.value), rs;
    }
    out := MergeAnswers(typ, commands, frag_seq, slots, rs, reply);
  }

  lemma FragmentsAddressed(argv: seq<seq<byte>>, commands: seq<Cmd>)
    requires WellFormed(argv) && Splits(Wire(argv), TypeOf(argv[0]), KeysOf(argv))
    requires SplitInto(commands, Wire(argv), TypeOf(argv[0]), KeysOf(argv))
    ensures SlotsOf(Wire(argv), KeysOf(argv)) == KeySlots(KeyTexts(argv))
    ensures var occ := Occupied(KeySlots(KeyTexts(argv)), SLOTS);
            Addressed(commands, occ, FragmentTexts(argv, occ))
  {
    hide TypeOf;
    hide Wire;
    hide KeysOf;
    hide Occupied;
    hide Written;
    hide InBounds;
    hide Valued;
    hide SlotsOf;
    hide SubKeysOf;
    hide KeySlots;
    hide Predicted;
    SlotsAreKeySlots(argv);
    var cmd, typ, keys := Wire(argv), TypeOf(argv[0]), KeysOf(argv);
    var slots := SlotsOf(cmd, keys);
    var occ := Occupied(slots, SLOTS);
    var texts := FragmentTexts(argv, occ);
    forall k | 0 <= k < |occ|
      ensures commands[k].slot_num == occ[k] && commands[k].command == texts[k]
    {
      assert FragmentOf(commands[k], occ[k], cmd, typ, slots, SubKeysOf(cmd, typ, keys));
    }
  }

  lemma AllInOneSlot(argv: seq<seq<byte>>)
    requires WellFormed(argv) && |Occupied(KeySlots(KeyTexts(argv)), SLOTS)| == 1
    ensures var slots := KeySlots(KeyTexts(argv));
            KeyTexts(argv) != [] && forall k :: k in KeyTexts(argv) ==> Slot(k) == slots[|slots| - 1]
  {
    hide Slot;
    hide Occupied;
    hide KeyTexts;
    NoKeysNoFragments(SLOTS);
    var keys := KeyTexts(argv);
    var slots := KeySlots(keys);
    OneFragment(slots);
    forall k | k in keys
      ensures Slot(k) == slots[|slots| - 1]
    {
      var i :| 0 <= i < |keys| && keys[i] == k;
      assert slots[i] == Slot(k);
    }
  }

  /** The command is sent as it is to the node of `slot`. */
  method SendWhole(cmd: seq<byte>, nodes: Nodes, owner: seq<nat>, slot: nat, ghost argv: seq<seq<byte>>, ghost whole: Store)
      returns (nodes': Nodes, out: MergeResult)
    requires WellFormed(argv) && cmd == Wire(argv) && Owning(owner, nodes) && Agree(nodes, owner, whole)
    requires slot < SLOTS && forall k :: k in KeyTexts(argv) ==> Slot(k) == slot
    ensures Owning(owner, nodes') && Agree(nodes', owner, Exec(whole, argv).store)
    ensures out == Answer(Exec(whole, argv).reply)
  {
    hide Exec;
    hide Serve;
    hide Agree;
    hide Wire;
    hide KeyTexts;
    hide Perform;
    var ran := Serve(nodes[owner[slot]], cmd);
    WholeIsPerformed(argv, nodes[owner[slot]]);
    WholeIsPerformed(argv, whole);
    OneNodeSuffices(TypeOf(argv[0]), nodes, owner, whole, KeyTexts(argv), ValueTexts(argv), slot);
    return nodes[owner[slot] := ran.store], Answer(ran.reply);
  }

  /** The fragments are sent to their nodes and the answers merged. */
  method SendSplit(typ: CmdType, commands: seq<Cmd>, frag_seq: seq<Cmd>, nodes: Nodes, owner: seq<nat>,
                   ghost argv: seq<seq<byte>>, ghost whole: Store)
      returns (nodes': Nodes, out: MergeResult)
    requires WellFormed(argv) && AllClean(argv) && typ == TypeOf(argv[0])
    requires Owning(owner, nodes) && Agree(nodes, owner, whole)
    requires Splits(Wire(argv), typ, KeysOf(argv)) && SplitInto(commands, Wire(argv), typ, KeysOf(argv))
    requires Leads(frag_seq, commands, SlotsOf(Wire(argv), KeysOf(argv)))
    modifies commands
    ensures Owning(owner, nodes') && Agree(nodes', owner, Exec(whole, argv).store)
    ensures out == Answer(Exec(whole, argv).reply)
  {
    hide Exec;
    hide AllClean;
    hide Wire;
    hide KeyTexts;
    hide ValueTexts;
    hide KeysOf;
    hide Occupied;
    hide Agree;
    hide TypeOf;
    hide MergesTo;
    hide SplitInto;
    hide Perform;
    hide RunFragments;
    hide ServeEach;
    hide KeySlots;
    ghost var keys, values := KeyTexts(argv), ValueTexts(argv);
    ghost var slots := KeySlots(keys);
    FragmentsAddressed(argv, commands);
    ServedAsPerformed(argv, nodes, owner, SLOTS);
    SplitPreserves(typ, nodes, owner, whole, keys, values);
    WholeIsPerformed(argv, whole);
    ghost var rs;
    nodes', out, rs := ExecuteAndMerge(typ, commands, frag_seq, nodes, owner, slots,
                                       FragmentTexts(argv, Occupied(slots, SLOTS)), Exec(whole, argv).reply);
  }

  /**
   redisClusterFormattedCommand for an MGET, DEL or MSET with any keys, repeated or not: the
   reply and the state of the nodes are those of the command on the whole store.
   */
  method FormattedCommand(cmd: seq<byte>, nodes: Nodes, owner: seq<nat>, ghost argv: seq<seq<byte>>, ghost whole: Store)
      returns (nodes': Nodes, out: MergeResult)
    requires WellFormed(argv) && AllClean(argv) && cmd == Wire(argv)
    requires Owning(owner, nodes) && Agree(nodes, owner, whole)
    ensures Owning(owner, nodes') && Agree(nodes', owner, Exec(whole, argv).store)
    ensures out == Answer(Exec(whole, argv).reply)
  {
    hide Exec;
    hide Wire;
    hide AllClean;
    hide ArgKeys;
    hide KeysOf;
    hide Agree;
    hide TypeOf;
    hide Execute;
    hide SplitInto;
    hide Leads;
    hide Occupied;
    hide Splits;
    ParseFinds(argv);
    FormattedSplits(argv);
    SlotsAreKeySlots(argv);
    var v := ParseCmd(cmd);
    var typ, keys := v.s.typ, v.s.keys;
    if |keys| == 1 {
      OnlyKey(argv);
      var slot := KeyHashSlot(cmd[keys[0].start..keys[0].end]);
      nodes', out := SendWhole(cmd, nodes, owner, slot, argv, whole);
      return;
    }
    var slot_num, frag_seq, commands := PreFragment(cmd, typ, keys);
    if |commands| == 0 {
      SomeFragment(argv);
      AllInOneSlot(argv);
      nodes', out := SendWhole(cmd, nodes, owner, slot_num, argv, whole);
    } else {
      nodes', out := SendSplit(typ, commands, frag_seq, nodes, owner, argv, whole);
    }
  }

  lemma OnlyKey(argv: seq<seq<byte>>)
    requires WellFormed(argv) && |KeysOf(argv)| == 1
    ensures var k := KeysOf(argv)[0];
            k.start <= k.end <= |Wire(argv)| &&
            forall t :: t in KeyTexts(argv) ==> t == Wire(argv)[k.start..k.end]
  {
    hide TypeOf;
    hide Wire;
    hide KeysOf;
    KeysAreArguments(argv, 0);
  }

  lemma SomeFragment(argv: seq<seq<byte>>)
    requires WellFormed(argv)
    ensures KeyTexts(argv) != [] && Occupied(KeySlots(KeyTexts(argv)), SLOTS) != []
  {
    hide TypeOf;
    hide Slot;
    hide Occupied;
    var slots := KeySlots(KeyTexts(argv));
    KeyCount(argv);
    MembersHas(slots, 0);
    OccupiedHas(slots, SLOTS, slots[0]);
  }
}
