/**
 When the fragments of a formatted MGET, DEL or MSET fit the lengths computed for them
 (the clen of command_pre_fragment, hircluster.cpp), stated on the argument list: it
 depends only on the lengths of the keys that share a slot with the empty key.
 */
module FragmentFit {
  import opened Bytes
  import opened CommandTable
  import opened Resp
  import opened Format
  import opened FragmentLayout
  import opened Crc16
  import opened HashSlot
  import opened CommandKeys
  import opened Fragment
  import opened Scatter
  import opened ClusterCommand

  /** Every fragment has exactly the length that was computed for it. */
  ghost predicate AllFit(argv: seq<seq<byte>>)
    requires WellFormed(argv)
  {
    FormattedSplits(argv);
    forall slot: nat :: |FragmentText(argv, slot)| == Predicted(TypeOf(argv[0]), FragmentKeys(argv, slot))
  }

  lemma FragmentFitsIff(argv: seq<seq<byte>>, slot: nat)
    requires WellFormed(argv)
    ensures Splits(Wire(argv), TypeOf(argv[0]), KeysOf(argv))
    ensures var ks := FragmentKeys(argv, slot);
            var count := Dec(Narg(TypeOf(argv[0]), |ks|));
            (|FragmentText(argv, slot)| == Predicted(TypeOf(argv[0]), ks) <==> Clean(count, ks)) &&
            |FragmentText(argv, slot)| == Predicted(TypeOf(argv[0]), ks) + Excess(count, ks)
  {
    hide TypeOf;
    hide Wire;
    hide KeysOf;
    hide Written;
    hide Predicted;
    hide Clean;
    hide Excess;
    hide Valued;
    hide InBounds;
    FormattedSplits(argv);
    FragmentFits(argv, slot);
    SmallEnough(argv);
    var cmd, typ, keys := Wire(argv), TypeOf(argv[0]), KeysOf(argv);
    SubKeysFit(cmd, typ, keys);
    var ks := FragmentKeys(argv, slot);
    assert RemainsOnlyForMset(typ, ks);
    LayoutExact(cmd, typ, ks);
    LayoutExcess(cmd, typ, ks);
  }

  /** All fragments fit their lengths exactly when no empty key is printed over a longer number. */
  lemma FitIffClean(argv: seq<seq<byte>>)
    requires WellFormed(argv)
    ensures AllFit(argv) <==> AllClean(argv)
  {
    hide TypeOf;
    hide Wire;
    hide KeysOf;
    hide Predicted;
    hide Clean;
    hide FragmentText;
    hide FragmentKeys;
    FormattedSplits(argv);
    forall slot: nat
      ensures |FragmentText(argv, slot)| == Predicted(TypeOf(argv[0]), FragmentKeys(argv, slot)) <==>
              Clean(Dec(Narg(TypeOf(argv[0]), |FragmentKeys(argv, slot)|)), FragmentKeys(argv, slot))
    {
      FragmentFitsIff(argv, slot);
    }
  }

  // ------------------------------------------------------------ on the arguments

  function TextLengths(keys: seq<Key>): (r: seq<nat>)
    ensures |r| == |keys|
  {
    seq(|keys|, i requires 0 <= i < |keys| => |keys[i]|)
  }

  /** The keys of the fragment for `slot`. */
  function PartKeys(argv: seq<seq<byte>>, slot: nat): seq<Key>
    requires WellFormed(argv)
  {
    Part(KeyTexts(argv), KeySlots(KeyTexts(argv)), slot)
  }

  /** No empty key of the fragment comes first under ten or more arguments, or right after a key of ten or more bytes. */
  predicate Short(argv: seq<seq<byte>>, slot: nat)
    requires WellFormed(argv)
  {
    var keys := PartKeys(argv, slot);
    ShortBeforeEmpty(Narg(TypeOf(argv[0]), |keys|), TextLengths(keys))
  }

  lemma FragmentLengths(argv: seq<seq<byte>>, slot: nat)
    requires WellFormed(argv)
    ensures Splits(Wire(argv), TypeOf(argv[0]), KeysOf(argv))
    ensures Lengths(FragmentKeys(argv, slot)) == TextLengths(PartKeys(argv, slot))
  {
    hide TypeOf;
    hide Wire;
    hide KeysOf;
    hide ArgKeys;
    hide Slot;
    hide Members;
    FormattedSplits(argv);
    SlotsAreKeySlots(argv);
    KeyCount(argv);
    var ms := Members(SlotsOf(Wire(argv), KeysOf(argv)), slot);
    var ks := FragmentKeys(argv, slot);
    forall j | 0 <= j < |ms|
      ensures KeyLen(ks[j]) == |PartKeys(argv, slot)[j]|
    {
      KeysAreArguments(argv, ms[j]);
    }
  }

  lemma CleanIffShort(argv: seq<seq<byte>>, slot: nat)
    requires WellFormed(argv)
    ensures Splits(Wire(argv), TypeOf(argv[0]), KeysOf(argv))
    ensures var ks := FragmentKeys(argv, slot);
            Clean(Dec(Narg(TypeOf(argv[0]), |ks|)), ks) <==> Short(argv, slot)
  {
    hide TypeOf;
    hide Wire;
    hide KeysOf;
    hide FragmentKeys;
    hide PartKeys;
    hide Clean;
    hide Lengths;
    hide TextLengths;
    hide ShortBeforeEmpty;
    FragmentLengths(argv, slot);
    var ks := FragmentKeys(argv, slot);
    CleanIsShort(Narg(TypeOf(argv[0]), |ks|), ks);
  }

  lemma EmptyKeySlot()
    ensures Slot([]) == 0
  {
    assert HashedPart([]) == [];
    assert SerialCrc([]) == 0;
  }

  /** A fragment for another slot than that of the empty key has no empty key. */
  lemma ShortElsewhere(argv: seq<seq<byte>>, slot: nat)
    requires WellFormed(argv) && slot != 0
    ensures Short(argv, slot)
  {
    hide TypeOf;
    hide Wire;
    hide ArgKeys;
    EmptyKeySlot();
    hide Slot;
    hide Members;
    var keys := PartKeys(argv, slot);
    forall j | 0 <= j < |keys|
      ensures keys[j] != []
    {
      assert Slot(keys[j]) == slot;
    }
  }

  /**
   The guarantee the splitter gives, on the arguments: every fragment has its computed length
   if and only if, among the keys in slot 0, which is the slot of the empty key, none of ten or
   more bytes comes right before an empty one, and the first one is not empty under ten or more
   arguments.
   */
  lemma FitIffShort(argv: seq<seq<byte>>)
    requires WellFormed(argv)
    ensures AllFit(argv) <==> Short(argv, 0)
    ensures AllClean(argv) <==> Short(argv, 0)
  {
    hide TypeOf;
    hide Wire;
    hide KeysOf;
    hide FragmentKeys;
    hide AllFit;
    hide Short;
    hide Clean;
    FitIffClean(argv);
    FormattedSplits(argv);
    forall slot: nat
      ensures Clean(Dec(Narg(TypeOf(argv[0]), |FragmentKeys(argv, slot)|)), FragmentKeys(argv, slot)) <==> Short(argv, slot)
    {
      CleanIffShort(argv, slot);
    }
    forall slot: nat | slot != 0
      ensures Short(argv, slot)
    {
      ShortElsewhere(argv, slot);
    }
  }

  // ------------------------------------------------------------ a command that does not fit

  const LONG_KEY: seq<byte> := [123, 48, 54, 83, 125, 97, 98, 99, 100, 101]   // {06S}abcde
  const MISFIT: seq<seq<byte>> := [MGET_NAME, LONG_KEY, [], [98]]

  lemma LongKeySlot()
    ensures Slot(LONG_KEY) == 0
  {
    var key := LONG_KEY;
    assert HashedPart(key) == [48, 54, 83] by {
      assert HasTag(key, [], [48, 54, 83], [97, 98, 99, 100, 101]);
      TagIsHashed(key, [], [48, 54, 83], [97, 98, 99, 100, 101]);
    }
    TagChecksum();
  }

  lemma TagChecksum()
    ensures SerialCrc([48, 54, 83]) == 0
  {
    SerialThree(48, 54, 83);
    FirstByte();
    SecondByte();
    ThirdByte();
  }

  lemma FirstByte()
    ensures Enter(0, 48) == 0x3653
  {}

  lemma SecondByte()
    ensures Enter(0x3653, 54) == 0x5300
  {}

  lemma ThirdByte()
    ensures Enter(0x5300, 83) == 0
  {}

  lemma SerialThree(a: byte, b: byte, c: byte)
    ensures SerialCrc([a, b, c]) == Enter(Enter(Enter(0, a), b), c)
  {
    hide Enter;
    assert [a, b, c][1..] == [b, c] && [b, c][1..] == [c] && [c][1..] == [];
    assert SerialFrom(Enter(Enter(Enter(0, a), b), c), []) == Enter(Enter(Enter(0, a), b), c);
    assert SerialFrom(Enter(Enter(0, a), b), [c]) == Enter(Enter(Enter(0, a), b), c);
    assert SerialFrom(Enter(0, a), [b, c]) == Enter(Enter(Enter(0, a), b), c);
  }

  lemma OtherSlot()
    ensures Slot([98]) == 3300
  {
    hide Enter;
    assert HashedPart([98]) == [98];
    assert [98][1..] == [];
    assert SerialFrom(Enter(0, 98), []) == Enter(0, 98);
    assert SerialCrc([98]) == Enter(0, 98);
    OtherByte();
  }

  lemma OtherByte()
    ensures Enter(0, 98) == 0x4ce4
  {}

  lemma {:induction false} DecShort(n: nat)
    ensures |Dec(n)| <= n + 1
  {
    if n >= 10 {
      DecShort(n / 10);
    }
  }

  lemma BulkLength(arg: seq<byte>)
    ensures |Bulk(arg)| <= 2 * |arg| + 6
  {
    hide Dec;
    DecShort(|arg|);
    BulkSplit(arg);
  }

  lemma MisfitFormed()
    ensures WellFormed(MISFIT) && TypeOf(MISFIT[0]) == MGET
  {
    hide TypeOf;
    hide Bulk;
    hide Wire;
    var argv := MISFIT;
    FragmentNames();
    WireIsHeadAndBulks(argv);
    BulkLength(MGET_NAME);
    BulkLength(LONG_KEY);
    BulkLength([]);
    BulkLength([98]);
    BulksTwo([], MGET_NAME, LONG_KEY);
    BulksTwo([MGET_NAME, LONG_KEY], [], [98]);
    assert [] + [MGET_NAME, LONG_KEY] == [MGET_NAME, LONG_KEY];
    assert [MGET_NAME, LONG_KEY] + [[], [98]] == argv;
    DecShort(4);
  }

  lemma MembersOfThree(slot: nat)
    ensures Members([0, 0, 3300], slot) == if slot == 0 then [0, 1] else if slot == 3300 then [2] else []
  {
    var slots: seq<nat> := [0, 0, 3300];
    MembersStep(slots, 0, slot);
    MembersStep(slots, 1, slot);
    MembersStep(slots, 2, slot);
    assert Members(slots[..0], slot) == [];
    hide Members;
    assert slots[..3] == slots;
  }

  lemma MisfitParts()
    requires WellFormed(MISFIT) && TypeOf(MISFIT[0]) == MGET
    ensures PartKeys(MISFIT, 0) == [LONG_KEY, []] && PartKeys(MISFIT, 3300) == [[98]]
  {
    hide TypeOf;
    hide Wire;
    hide Slot;
    hide Members;
    LongKeySlot();
    EmptyKeySlot();
    OtherSlot();
    var keys := KeyTexts(MISFIT);
    assert keys == [LONG_KEY, [], [98]];
    assert KeySlots(keys) == [0, 0, 3300];
    MembersOfThree(0);
    MembersOfThree(3300);
  }

  /** MGET of `{06S}abcde`, the empty key and `b`: the fragment for slot 0 is one byte longer than computed. */
  lemma FitFails()
    ensures WellFormed(MISFIT) && !AllFit(MISFIT)
    ensures Splits(Wire(MISFIT), TypeOf(MISFIT[0]), KeysOf(MISFIT))
    ensures |FragmentText(MISFIT, 0)| == Predicted(MGET, FragmentKeys(MISFIT, 0)) + 1
  {
    hide TypeOf;
    hide Wire;
    hide KeysOf;
    hide FragmentText;
    hide FragmentKeys;
    hide Predicted;
    hide Excess;
    hide PartKeys;
    MisfitFormed();
    MisfitParts();
    FragmentFitsIff(MISFIT, 0);
    FragmentLengths(MISFIT, 0);
    var ks := FragmentKeys(MISFIT, 0);
    assert TextLengths([LONG_KEY, []]) == [10, 0];
    ExcessOfTwo(ks);
  }

  lemma ExcessOfTwo(ks: seq<SubKey>)
    requires Lengths(ks) == [10, 0]
    ensures Excess(Dec(3), ks) == 1
  {
    var ls := Lengths(ks);
    assert |ks| == 2 && KeyLen(ks[0]) == ls[0] == 10 && KeyLen(ks[1]) == ls[1] == 0;
    var one := ks[..1];
    assert one[..0] == [];
    assert TextAfter(Dec(3), one) == ItoaText(TextAfter(Dec(3), []), 10);
    assert |Dec(10)| == 2 by {
      assert |Dec(1)| == 1;
    }
    assert Excess(Dec(3), one) == 0;
  }
}
