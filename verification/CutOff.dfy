/**
 A formatted MSET of which only the first bytes are there: which cuts the command parser
 takes for a whole command although a value is missing, in terms of the bytes.
 */
module CutOff {
  import opened Bytes
  import opened CommandTable
  import opened Resp
  import opened Format
  import opened Command
  import opened CommandKeys
  import opened CommandRoundTrip
  import opened ClusterCommand

  // ------------------------------------------------------------ a run and its prefix

  /** What one step may do to the keys and the type. */
  lemma StepKeeps(cmd: seq<byte>, s: Fsa)
    requires s.p < |cmd| && Command.Step(cmd, s).Next?
    ensures var t := Command.Step(cmd, s).s;
            t.keys == (if s.sw == DATA(KEY) then s.keys + [KeyPos(s.p, s.p + s.rlen)] else s.keys) &&
            (s.sw.DATA? ==> t.p == s.p + s.rlen + 1) &&
            (Named(s) ==> Named(t) && t.typ == s.typ)
  {
    hide TypeOf;
    hide ClassOf;
    hide ScriptCountOk;
  }

  lemma DoneKeeps(cmd: seq<byte>, s: Fsa)
    requires s.p < |cmd| && Command.Step(cmd, s).Done?
    ensures Command.Step(cmd, s).s == s
  {
    hide TypeOf;
    hide ClassOf;
    hide ScriptCountOk;
  }

  /** The keys recorded later all start later, and a name once read stays. */
  lemma {:induction false} KeysGrow(cmd: seq<byte>, s: Fsa)
    requires s.p <= |cmd| && Execute(cmd, s).Accepted?
    ensures var end := Execute(cmd, s).s;
            s.keys <= end.keys && s.p <= end.p < |cmd| && (Named(s) ==> end.typ == s.typ) &&
            forall j :: |s.keys| <= j < |end.keys| ==> s.p <= end.keys[j].start
    decreases |cmd| - s.p
  {
    hide Command.Step;
    hide Named;
    var r := Command.Step(cmd, s);
    if r.Next? {
      KeysGrow(cmd, r.s);
      StepKeeps(cmd, s);
    } else {
      DoneKeeps(cmd, s);
    }
  }

  /** A step that does not look beyond the prefix is the same on the prefix. */
  lemma StepOnPrefix(cmd: seq<byte>, s: Fsa, n: nat)
    requires s.p < n <= |cmd|
    ensures Command.Step(cmd[..n], s) == Command.Step(cmd, s) || (s.sw.DATA? && n <= s.p + s.rlen)
    ensures s.sw.DATA? && n <= s.p + s.rlen ==> Command.Step(cmd[..n], s).Bad?
  {
    hide TypeOf;
    hide ClassOf;
    hide ScriptCountOk;
    hide NextField;
    if s.sw.DATA? && s.p + s.rlen < n {
      assert cmd[..n][s.p..s.p + s.rlen] == cmd[s.p..s.p + s.rlen];
    }
  }

  /** A prefix of an accepted command either ends in a state of the whole run or is refused inside a field. */
  lemma {:induction false} PrefixRun(cmd: seq<byte>, s: Fsa, n: nat) returns (t: Fsa)
    requires s.p <= n <= |cmd| && Inv(cmd, s) && Execute(cmd, s).Accepted? && n <= Execute(cmd, s).s.p
    ensures t.p <= n && Inv(cmd, t) && Execute(cmd, t) == Execute(cmd, s)
    ensures var r := Execute(cmd[..n], s);
            (r == OutOfInput(t) && t.p == n) || (r.Rejected? && t.sw.DATA? && t.p < n <= t.p + t.rlen)
    decreases |cmd| - s.p
  {
    hide Inv;
    hide Command.Step;
    if s.p == n {
      t := s;
    } else {
      StepOnPrefix(cmd, s, n);
      var r := Command.Step(cmd, s);
      if s.sw.DATA? && n <= s.p + s.rlen {
        t := s;
      } else if r.Next? {
        StepKeepsInv(cmd, s);
        t := PrefixRun(cmd, r.s, n);
      } else {
        DoneKeeps(cmd, s);
        assert false;
      }
    }
  }

  // ------------------------------------------------------------ where the values lie

  /** The value `v` lies behind the key `k`, after its length line. */
  predicate ValueLies(cmd: seq<byte>, k: KeyPos, v: KeyPos) {
    k.start <= k.end && k.end + 5 < v.start <= v.end && v.end + 1 < |cmd| &&
    LengthAt(cmd, k.end, v.start - 2) && LengthOf(cmd, k.end, v.start - 2) == v.end - v.start
  }

  /** Keys and values take turns. */
  predicate Laid(cmd: seq<byte>, ks: seq<KeyPos>, vs: seq<KeyPos>) {
    |ks| == |vs| && (forall k :: 0 <= k < |ks| ==> ValueLies(cmd, ks[k], vs[k])) &&
    forall k, l :: 0 <= k < l < |ks| ==> vs[k].end + 2 < ks[l].start
  }

  /** The bytes end between key `k` and the end of its value, with nothing half read. */
  predicate CutsValue(ks: seq<KeyPos>, vs: seq<KeyPos>, k: nat, n: nat)
    requires k < |ks| == |vs|
  {
    ks[k].end < n <= vs[k].start || n == vs[k].end + 1
  }

  lemma LengthOnPrefix(cmd: seq<byte>, n: nat, e: nat, q: nat)
    requires n <= |cmd| && LengthAt(cmd[..n], e, q)
    ensures LengthAt(cmd, e, q) && LengthOf(cmd, e, q) == LengthOf(cmd[..n], e, q)
  {
    assert cmd[..n][e + 3..q] == cmd[e + 3..q];
  }

  /** What the state at the end of the bytes says about where they end. */
  lemma PendingIsCut(cmd: seq<byte>, n: nat, t: Fsa, k: KeyPos, v: KeyPos)
    requires n < |cmd| && Inv(cmd[..n], t) && t.p == n && ClassOf(t.typ) == Pairs && ValuePending(t)
    requires LastEnd(t) == k.end && ValueLies(cmd, k, v)
    ensures k.end < n <= v.start || n == v.end + 1
  {
    hide TypeOf;
    hide ClassOf;
    hide Valued;
    hide InBounds;
    hide DecVal;
    hide AllDigits;
    hide LengthAt;
    hide LengthOf;
    var c, e := cmd[..n], k.end;
    LengthOrdered(cmd, e, v.start - 2);
    if t.sw == LEN(ARG1) {
      if t.token != -1 && v.start - 2 < n {
        CrAtLengthEnd(cmd, e, v.start - 2);
        DigitsThrough(c, e + 3, n, v.start - 2);
      }
    } else if t.sw == LEN_LF(ARG1) {
      LengthOnPrefix(cmd, n, e, n - 1);
      LengthUnique(cmd, e, n - 1, v.start - 2);
    } else if t.sw == DATA(ARG1) {
      LengthOnPrefix(cmd, n, e, n - 2);
      LengthUnique(cmd, e, n - 2, v.start - 2);
    } else if t.sw == DATA_LF(ARG1) {
      var q: nat :| SkippedAt(c, e, q, n);
      LengthOnPrefix(cmd, n, e, q);
      LengthUnique(cmd, e, q, v.start - 2);
    }
  }

  lemma CrAtLengthEnd(cmd: seq<byte>, e: nat, q: nat)
    requires LengthAt(cmd, e, q)
    ensures cmd[q] == CR && !IsDigit(cmd[q])
  {}

  /** Where the bytes end says what the state is. */
  lemma CutIsPending(cmd: seq<byte>, n: nat, t: Fsa, k: KeyPos, v: KeyPos)
    requires n < |cmd| && Inv(cmd[..n], t) && t.p == n && t.typ == MSET && ClassOf(MSET) == Pairs && |t.keys| > 1
    requires t.keys[|t.keys| - 1] == k && ValueLies(cmd, k, v)
    requires k.end < n <= v.start || n == v.end + 1
    ensures ValuePending(t)
  {
    hide TypeOf;
    hide ClassOf;
    hide InBounds;
    hide DecVal;
    hide AllDigits;
    hide LengthAt;
    hide LengthOf;
    hide ReadsLength;
    if !ValuePending(t) && Valued(cmd[..n], t.keys) {
      assert ValueFollows(cmd[..n], k.end);
      var q: nat :| ValueAt(cmd[..n], k.end, q);
      LengthOnPrefix(cmd, n, k.end, q);
      LengthUnique(cmd, k.end, q, v.start - 2);
    }
  }

  /** A prefix that ends at such a place is not refused: no field is half read there. */
  lemma CutIsNoField(cmd: seq<byte>, ks: seq<KeyPos>, vs: seq<KeyPos>, t: Fsa, n: nat, k: nat)
    requires t.p < n <= |cmd| && Inv(cmd, t) && t.sw.DATA? && Laid(cmd, ks, vs) && k < |ks| && CutsValue(ks, vs, k, n)
    requires Execute(cmd, t).Accepted? && Execute(cmd, t).s.keys == ks && Execute(cmd, t).s.typ == MSET && ClassOf(MSET) == Pairs
    ensures n > t.p + t.rlen
  {
    hide TypeOf;
    hide ClassOf;
    hide Valued;
    hide InBounds;
    hide LengthAt;
    hide LengthOf;
    hide Command.Step;
    KeysGrow(cmd, t);
    var next := Command.Step(cmd, t).s;
    NextOfField(cmd, t);
    KeysGrow(cmd, next);
    StepKeeps(cmd, t);
    if t.sw.f == KEY {
      var l := |t.keys|;
      assert ks[l] == next.keys[l];
      NotInside(cmd, ks, vs, k, l, n);
    } else if Named(t) {
      var l := |t.keys| - 1;
      FieldIsValue(cmd, t, ks[l], vs[l]);
      NotInside(cmd, ks, vs, k, l, n);
    } else {
      assert t.keys == [] && next.p <= ks[k].start && ValueLies(cmd, ks[k], vs[k]);
    }
  }

  /** A value that is being read is the one that lies behind the last key. */
  lemma FieldIsValue(cmd: seq<byte>, t: Fsa, k: KeyPos, v: KeyPos)
    requires Inv(cmd, t) && t.sw.DATA? && t.sw.f != KEY && Named(t) && ClassOf(t.typ) == Pairs
    requires t.keys != [] ==> t.keys[|t.keys| - 1] == k && ValueLies(cmd, k, v)
    ensures t.keys != [] && t.p == v.start && t.p + t.rlen == v.end
  {
    hide TypeOf;
    hide ClassOf;
    hide Valued;
    hide InBounds;
    hide LengthAt;
    hide LengthOf;
    LengthUnique(cmd, k.end, t.p - 2, v.start - 2);
  }

  lemma NotInside(cmd: seq<byte>, ks: seq<KeyPos>, vs: seq<KeyPos>, k: nat, l: nat, n: nat)
    requires Laid(cmd, ks, vs) && k < |ks| && l < |ks| && CutsValue(ks, vs, k, n)
    ensures !(ks[l].start < n <= ks[l].end) && !(vs[l].start < n <= vs[l].end)
  {
    hide LengthAt;
    hide LengthOf;
    assert ValueLies(cmd, ks[l], vs[l]) && ValueLies(cmd, ks[k], vs[k]);
  }

  lemma NextOfField(cmd: seq<byte>, t: Fsa)
    requires t.p <= |cmd| && t.sw.DATA? && Execute(cmd, t).Accepted?
    ensures t.p < |cmd| && Command.Step(cmd, t).Next? && Execute(cmd, Command.Step(cmd, t).s) == Execute(cmd, t)
  {
    hide TypeOf;
    hide ClassOf;
    hide ScriptCountOk;
  }

  /** The keys whose value may be cut are exactly those recorded so far. */
  lemma RecordedSoFar(cmd: seq<byte>, ks: seq<KeyPos>, vs: seq<KeyPos>, t: Fsa, n: nat, k: nat)
    requires Laid(cmd, ks, vs) && k < |ks| && CutsValue(ks, vs, k, n) && n <= |cmd|
    requires t.keys <= ks && InBounds(cmd[..n], t.keys) && forall j :: |t.keys| <= j < |ks| ==> n <= ks[j].start
    ensures |t.keys| == k + 1
  {
    hide InBounds;
    assert ValueLies(cmd, ks[k], vs[k]);
    if |t.keys| > k + 1 {
      EndsBefore(cmd, ks, t, n, k + 1);
    }
  }

  lemma EndsBefore(cmd: seq<byte>, ks: seq<KeyPos>, t: Fsa, n: nat, j: nat)
    requires t.keys <= ks && n <= |cmd| && InBounds(cmd[..n], t.keys) && j < |t.keys|
    ensures ks[j].start <= ks[j].end < n
  {
    assert t.keys[j] == ks[j];
  }

  /**
   A prefix of an accepted MSET is taken for a whole command with a value missing exactly when
   it ends behind its second or a later key, before the first or right behind the last byte of
   the value.
   */
  lemma CutExactly(cmd: seq<byte>, ks: seq<KeyPos>, vs: seq<KeyPos>, n: nat)
    requires Execute(cmd, INITIAL).Accepted? && n <= Execute(cmd, INITIAL).s.p && n < |cmd|
    requires Execute(cmd, INITIAL).s.keys == ks && Execute(cmd, INITIAL).s.typ == MSET && |ks| == |vs| && Laid(cmd, ks, vs)
    ensures var r := Execute(cmd[..n], INITIAL);
            r.OutOfInput? && ValuePending(r.s) <==> exists k :: 1 <= k < |ks| && CutsValue(ks, vs, k, n)
  {
    hide Execute;
    hide Inv;
    hide ValuePending;
    hide Laid;
    hide InBounds;
    InvStarts(cmd);
    MultiKeyClasses(MSET);
    var t := PrefixRun(cmd, INITIAL, n);
    KeysGrow(cmd, t);
    if t.p == n && Execute(cmd[..n], INITIAL) == OutOfInput(t) {
      PrefixInv(cmd, n);
      if ValuePending(t) {
        PendingHasKey(cmd, ks, vs, n, t);
      }
      if k :| 1 <= k < |ks| && CutsValue(ks, vs, k, n) {
        KeyHasPending(cmd, ks, vs, n, t, k);
      }
    } else if k :| 1 <= k < |ks| && CutsValue(ks, vs, k, n) {
      CutIsNoField(cmd, ks, vs, t, n, k);
      assert false;
    }
  }

  lemma InvStarts(cmd: seq<byte>)
    ensures Inv(cmd, INITIAL)
  {}

  lemma PrefixInv(cmd: seq<byte>, n: nat)
    requires n <= |cmd| && Execute(cmd[..n], INITIAL).OutOfInput?
    ensures Inv(cmd[..n], Execute(cmd[..n], INITIAL).s)
  {
    InvStarts(cmd[..n]);
    RunsOutInv(cmd[..n], INITIAL);
  }

  lemma NamedByKeys(cmd: seq<byte>, t: Fsa)
    requires Inv(cmd, t) && t.keys != []
    ensures Named(t) && InBounds(cmd, t.keys)
  {}

  lemma PendingHasKey(cmd: seq<byte>, ks: seq<KeyPos>, vs: seq<KeyPos>, n: nat, t: Fsa)
    requires n < |cmd| && Laid(cmd, ks, vs) && Inv(cmd[..n], t) && t.p == n && ValuePending(t) && t.keys <= ks
    ensures exists k :: 1 <= k < |ks| && CutsValue(ks, vs, k, n)
  {
    hide Inv;
    MultiKeyClasses(MSET);
    var k := |t.keys| - 1;
    assert t.keys[k] == ks[k];
    PendingIsCut(cmd, n, t, ks[k], vs[k]);
    assert CutsValue(ks, vs, k, n);
  }

  lemma KeyHasPending(cmd: seq<byte>, ks: seq<KeyPos>, vs: seq<KeyPos>, n: nat, t: Fsa, k: nat)
    requires n < |cmd| && Laid(cmd, ks, vs) && Inv(cmd[..n], t) && t.p == n && t.keys <= ks
    requires forall j :: |t.keys| <= j < |ks| ==> n <= ks[j].start
    requires Named(t) ==> t.typ == MSET
    requires 1 <= k < |ks| && CutsValue(ks, vs, k, n)
    ensures ValuePending(t)
  {
    hide Inv;
    MultiKeyClasses(MSET);
    InvBounds(cmd[..n], t);
    RecordedSoFar(cmd, ks, vs, t, n, k);
    NamedByKeys(cmd[..n], t);
    CutIsPending(cmd, n, t, ks[k], vs[k]);
  }

  lemma InvBounds(cmd: seq<byte>, t: Fsa)
    requires Inv(cmd, t)
    ensures InBounds(cmd, t.keys)
  {}

  // ------------------------------------------------------------ on the argument list

  /** An MSET with as many values as keys. */
  predicate IsMset(argv: seq<seq<byte>>) {
    Fits(argv) && |argv| >= 3 && |argv| % 2 == 1 && TypeOf(argv[0]) == MSET
  }

  /** The first `n` bytes end between the key argument `i` and the end of its value. */
  predicate EndsInValue(argv: seq<seq<byte>>, i: nat, n: nat)
    requires i + 1 < |argv|
  {
    KeyAt(argv, i).end < n <= KeyAt(argv, i + 1).start || n == KeyAt(argv, i + 1).end + 1
  }

  function ValuesAt(argv: seq<seq<byte>>): (vs: seq<KeyPos>)
    requires |argv| % 2 == 1
    ensures |vs| == |argv| / 2 && forall j :: 0 <= j < |vs| ==> vs[j] == KeyAt(argv, 2 * j + 2)
  {
    seq(|argv| / 2, j requires 0 <= j < |argv| / 2 => KeyAt(argv, 2 * j + 2))
  }

  lemma {:induction false} OffsetsOrdered(argv: seq<seq<byte>>, i: nat, j: nat)
    requires i <= j <= |argv|
    ensures Offset(argv, i) <= Offset(argv, j)
    decreases j - i
  {
    hide Offset;
    hide Bulk;
    if i < j {
      OffsetsOrdered(argv, i, j - 1);
      BulkLocated(argv, j - 1);
    }
  }

  lemma ValueBehindKey(argv: seq<seq<byte>>, i: nat)
    requires Fits(argv) && i + 1 < |argv|
    ensures ValueLies(Wire(argv), KeyAt(argv, i), KeyAt(argv, i + 1))
  {
    hide Wire;
    hide Offset;
    hide Bulk;
    hide Dec;
    hide LengthAt;
    hide LengthOf;
    NextBulk(argv, i);
    LengthFound(Wire(argv), KeyAt(argv, i).end, argv[i + 1]);
    KeySlice(argv, i);
    KeySlice(argv, i + 1);
    DecLeading(|argv[i + 1]|);
  }

  lemma MsetLaid(argv: seq<seq<byte>>, ks: seq<KeyPos>)
    requires IsMset(argv) && |ks| == |argv| / 2 && forall j :: 0 <= j < |ks| ==> ks[j] == KeyAt(argv, 2 * j + 1)
    ensures Laid(Wire(argv), ks, ValuesAt(argv))
  {
    hide Wire;
    hide KeyAt;
    hide TypeOf;
    hide ValueLies;
    var vs := ValuesAt(argv);
    forall k | 0 <= k < |ks|
      ensures ValueLies(Wire(argv), ks[k], vs[k])
    {
      ValueBehindKey(argv, 2 * k + 1);
    }
    forall k, l | 0 <= k < l < |ks|
      ensures vs[k].end + 2 < ks[l].start
    {
      LaterKey(argv, 2 * k + 2, 2 * l + 1);
    }
  }

  lemma LaterKey(argv: seq<seq<byte>>, i: nat, j: nat)
    requires i < j < |argv|
    ensures KeyAt(argv, i).end + 2 < KeyAt(argv, j).start
  {
    hide Wire;
    hide Offset;
    KeySlice(argv, i);
    OffsetsOrdered(argv, i + 1, j);
  }

  /**
   Which first parts of a formatted MSET are taken for whole commands in which a value is missing:
   exactly those that end behind the second or a later key and before or just behind its value,
   though not between the bytes of the value.
   */
  lemma CutOffBytes(argv: seq<seq<byte>>, n: nat)
    requires IsMset(argv) && n < |Wire(argv)|
    ensures var cmd := Wire(argv)[..n];
            var r := Execute(cmd, INITIAL);
            (r.OutOfInput? && !SafeToFragment(cmd, r.s)) <==>
            exists j :: 1 <= j && 2 * j + 2 < |argv| && EndsInValue(argv, 2 * j + 1, n)
  {
    hide Wire;
    hide Execute;
    hide KeyAt;
    hide SafeToFragment;
    hide ValuePending;
    hide TypeOf;
    hide Laid;
    MsetParses(argv);
    var ks, vs := Execute(Wire(argv), INITIAL).s.keys, ValuesAt(argv);
    MsetLaid(argv, ks);
    CutExactly(Wire(argv), ks, vs, n);
    if Execute(Wire(argv)[..n], INITIAL).OutOfInput? {
      CutOffKeys(Wire(argv)[..n]);
    }
    SameCuts(argv, ks, n);
  }

  lemma SameCuts(argv: seq<seq<byte>>, ks: seq<KeyPos>, n: nat)
    requires |argv| % 2 == 1 && |ks| == |argv| / 2 && forall j :: 0 <= j < |ks| ==> ks[j] == KeyAt(argv, 2 * j + 1)
    ensures (exists k :: 1 <= k < |ks| && CutsValue(ks, ValuesAt(argv), k, n)) <==>
            (exists j :: 1 <= j && 2 * j + 2 < |argv| && EndsInValue(argv, 2 * j + 1, n))
  {
    hide KeyAt;
    var vs := ValuesAt(argv);
    if k :| 1 <= k < |ks| && CutsValue(ks, vs, k, n) {
      assert EndsInValue(argv, 2 * k + 1, n);
    }
    if j :| 1 <= j && 2 * j + 2 < |argv| && EndsInValue(argv, 2 * j + 1, n) {
      assert CutsValue(ks, vs, j, n);
    }
  }

  lemma MsetParses(argv: seq<seq<byte>>)
    requires IsMset(argv)
    ensures var r := Execute(Wire(argv), INITIAL);
            r.Accepted? && r.s.p == |Wire(argv)| - 1 && r.s.typ == MSET && |r.s.keys| == |argv| / 2 &&
            forall j :: 0 <= j < |r.s.keys| ==> r.s.keys[j] == KeyAt(argv, 2 * j + 1)
  {
    hide Wire;
    hide Execute;
    hide KeyAt;
    hide TypeOf;
    hide ClassOf;
    MultiKeyClasses(MSET);
    ParserInvertsFormatter(argv);
  }
}
