/**
 What acceptance by the command parser means for an arbitrary byte string, formatted
 or not: only MGET, DEL and MSET can have recorded several keys, and every key of a
 multi-key MSET is followed by a length-prefixed value inside the buffer. The
 fragmenter relies on both.
 */
module CommandKeys {
  import opened Bytes
  import opened CommandTable
  import opened Command

  /** The length line of a value follows the key that ends at `e`; its CR is at `q`. */
  predicate LengthAt(cmd: seq<byte>, e: nat, q: nat) {
    e + 3 < q < |cmd| && cmd[e] == CR && cmd[e + 1] == LF && cmd[e + 2] == DOLLAR &&
    AllDigits(cmd[e + 3..q]) && cmd[q] == CR
  }

  /** The length that line announces, as the 32-bit accumulator reads it. */
  function LengthOf(cmd: seq<byte>, e: nat, q: nat): nat
    requires LengthAt(cmd, e, q)
  {
    U32(DecVal(cmd[e + 3..q]))
  }

  predicate ValueAt(cmd: seq<byte>, e: nat, q: nat) {
    LengthAt(cmd, e, q) && cmd[q + 1..] != [] && cmd[q + 1] == LF &&
    var end := q + 2 + LengthOf(cmd, e, q);
    end + 1 < |cmd| && cmd[end] == CR && cmd[end + 1] == LF
  }

  /** A length-prefixed value follows the key that ends at `e`. */
  ghost predicate ValueFollows(cmd: seq<byte>, e: nat) {
    exists q: nat :: ValueAt(cmd, e, q)
  }

  ghost predicate Valued(cmd: seq<byte>, keys: seq<KeyPos>) {
    forall k :: 0 <= k < |keys| ==> ValueFollows(cmd, keys[k].end)
  }

  predicate InBounds(cmd: seq<byte>, keys: seq<KeyPos>) {
    forall k :: 0 <= k < |keys| ==> keys[k].start <= keys[k].end < |cmd|
  }

  /** Commands of the other classes have recorded at most one key, and none before their key field. */
  predicate FewKeys(c: Class, s: Fsa) {
    match s.sw
    case START => s.keys == []
    case NARG => s.keys == []
    case NARG_LF => s.keys == []
    case DATA_LF(f) =>
      |s.keys| <= 1 && (f == REQ_TYPE || (c == Script && (f == ARG1 || f == ARG2)) ==> s.keys == [])
    case _ =>
      |s.keys| <= 1 &&
      (s.sw.f == REQ_TYPE || s.sw.f == KEY || (c == Script && (s.sw.f == ARG1 || s.sw.f == ARG2)) ==> s.keys == [])
  }

  /** The value of the key that ends at `e` has been skipped up to the LF at `p`. */
  predicate SkippedAt(cmd: seq<byte>, e: nat, q: nat, p: nat) {
    LengthAt(cmd, e, q) && q + 1 < |cmd| && cmd[q + 1] == LF &&
    p == q + 3 + LengthOf(cmd, e, q) && p <= |cmd| && cmd[p - 1] == CR
  }

  /** `n` keys have been recorded and all but the last are known to have values. */
  ghost predicate AwaitsValue(cmd: seq<byte>, s: Fsa) {
    s.keys != [] && Valued(cmd, s.keys[..|s.keys| - 1])
  }

  function LastEnd(s: Fsa): nat
    requires s.keys != []
  {
    s.keys[|s.keys| - 1].end
  }

  /** MSET alternates between keys and values; the argument count tells where it may stop. */
  ghost predicate Alternates(cmd: seq<byte>, s: Fsa) {
    s.p <= |cmd| &&
    var n := |s.keys|;
    match s.sw
    case DATA_LF(f) =>
      (match f
       case REQ_TYPE => n == 0 && s.rnarg + 1 == s.narg
       case KEY => AwaitsValue(cmd, s) && s.rnarg + 2 * n == s.narg && (n >= 2 ==> s.narg % 2 == 1) &&
                   LastEnd(s) + 1 == s.p && cmd[s.p - 1] == CR
       case ARG1 => AwaitsValue(cmd, s) && s.rnarg + 2 * n + 1 == s.narg && s.narg % 2 == 1 &&
                    exists q: nat :: SkippedAt(cmd, LastEnd(s), q, s.p)
       case _ => false)
    case LEN(f) =>
      (match f
       case KEY => Valued(cmd, s.keys) && s.rnarg + 1 + 2 * n == s.narg && (n >= 1 ==> s.narg % 2 == 1)
       case ARG1 => AwaitsValue(cmd, s) && s.rnarg + 2 * n == s.narg && s.narg % 2 == 1 &&
                    ReadsLength(cmd, s, LastEnd(s))
       case _ => false)
    case LEN_LF(f) =>
      (match f
       case KEY => Valued(cmd, s.keys) && s.rnarg + 2 + 2 * n == s.narg && (n >= 1 ==> s.narg % 2 == 1)
       case ARG1 => AwaitsValue(cmd, s) && s.rnarg + 2 * n + 1 == s.narg && s.narg % 2 == 1 &&
                    s.p >= 1 && LengthAt(cmd, LastEnd(s), s.p - 1) && s.rlen == LengthOf(cmd, LastEnd(s), s.p - 1)
       case _ => false)
    case DATA(f) =>
      (match f
       case KEY => Valued(cmd, s.keys) && s.rnarg + 2 + 2 * n == s.narg && (n >= 1 ==> s.narg % 2 == 1)
       case ARG1 => AwaitsValue(cmd, s) && s.rnarg + 2 * n + 1 == s.narg && s.narg % 2 == 1 &&
                    s.p >= 2 && cmd[s.p - 1] == LF &&
                    LengthAt(cmd, LastEnd(s), s.p - 2) && s.rlen == LengthOf(cmd, LastEnd(s), s.p - 2)
       case _ => false)
    case _ => false
  }

  /** The automaton is on the length line of the value of the key that ends at `e`. */
  predicate ReadsLength(cmd: seq<byte>, s: Fsa, e: nat) {
    e + 1 < |cmd| && cmd[e] == CR && cmd[e + 1] == LF &&
    if s.token == -1 then s.p == e + 2
    else e + 3 <= s.p <= |cmd| && s.token == e + 2 && cmd[e + 2] == DOLLAR &&
         AllDigits(cmd[e + 3..s.p]) && s.rlen == U32(DecVal(cmd[e + 3..s.p]))
  }

  /** The command name has been read. */
  predicate Named(s: Fsa) {
    s.sw.DATA_LF? || (s.sw.LEN? && s.sw.f != REQ_TYPE) || (s.sw.LEN_LF? && s.sw.f != REQ_TYPE) ||
    (s.sw.DATA? && s.sw.f != REQ_TYPE)
  }

  /** Before the command name is known: no keys, and the count runs down from the total. */
  predicate Unnamed(s: Fsa) {
    s.keys == [] &&
    match s.sw
    case LEN(_) => s.rnarg == s.narg
    case LEN_LF(_) => s.rnarg + 1 == s.narg
    case DATA(_) => s.rnarg + 1 == s.narg
    case NARG_LF => s.rnarg == s.narg
    case _ => true
  }

  ghost predicate Inv(cmd: seq<byte>, s: Fsa) {
    s.p <= |cmd| && InBounds(cmd, s.keys) &&
    (!s.sw.START? && !s.sw.NARG? && !s.sw.LEN? ==> s.token == -1) &&
    if !Named(s) then Unnamed(s)
    else
      var c := ClassOf(s.typ);
      s.typ != UNKNOWN &&
      (c != Keys && c != Pairs ==> FewKeys(c, s)) && (c == Pairs ==> Alternates(cmd, s))
  }

  lemma StepUnnamed(cmd: seq<byte>, s: Fsa)
    requires Inv(cmd, s) && !Named(s) && s.p < |cmd| && Step(cmd, s).Next?
    ensures Inv(cmd, Step(cmd, s).s)
  {
    hide TypeOf;
    hide ClassOf;
    if s.sw.DATA? {
      EveryCommandHasAClass(Step(cmd, s).s.typ);
    }
  }

  lemma StepFew(cmd: seq<byte>, s: Fsa)
    requires Inv(cmd, s) && Named(s) && s.p < |cmd| && Step(cmd, s).Next?
    requires ClassOf(s.typ) != Keys && ClassOf(s.typ) != Pairs
    ensures Inv(cmd, Step(cmd, s).s)
  {
    hide TypeOf;
    hide ClassOf;
    hide ScriptCountOk;
  }

  lemma StepKeys(cmd: seq<byte>, s: Fsa)
    requires Inv(cmd, s) && Named(s) && s.p < |cmd| && Step(cmd, s).Next? && ClassOf(s.typ) == Keys
    ensures Inv(cmd, Step(cmd, s).s)
  {
    hide TypeOf;
    hide ClassOf;
    hide ScriptCountOk;
  }

  lemma LengthDigit(cmd: seq<byte>, e: nat, p: nat)
    requires e + 3 <= p < |cmd| && AllDigits(cmd[e + 3..p]) && IsDigit(cmd[p])
    ensures AllDigits(cmd[e + 3..p + 1])
    ensures U32(DecVal(cmd[e + 3..p + 1])) == U32(U32(DecVal(cmd[e + 3..p])) * 10 + DigitVal(cmd[p]))
  {
    DecValSnoc(cmd[e + 3..p], cmd[p]);
    assert cmd[e + 3..p + 1] == cmd[e + 3..p] + [cmd[p]];
    WrapDigit(DecVal(cmd[e + 3..p]), DigitVal(cmd[p]));
  }

  /** The transition on a byte of the length line of a value. */
  lemma LengthTurn(cmd: seq<byte>, s: Fsa)
    requires s.sw == LEN(ARG1) && s.p < |cmd| && Step(cmd, s).Next?
    ensures var t := Step(cmd, s).s;
            if s.token == -1 then cmd[s.p] == DOLLAR && t == s.(p := s.p + 1, token := s.p, rlen := 0)
            else if IsDigit(cmd[s.p]) then t == s.(p := s.p + 1, rlen := U32(s.rlen * 10 + DigitVal(cmd[s.p])))
            else cmd[s.p] == CR && s.rnarg != 0 && s.p - s.token > 1 &&
                 t == s.(sw := LEN_LF(ARG1), p := s.p + 1, token := -1, rnarg := s.rnarg - 1)
  {}

  lemma NoDigits(cmd: seq<byte>, p: nat)
    requires p <= |cmd|
    ensures AllDigits(cmd[p..p]) && DecVal(cmd[p..p]) == 0
  {}

  lemma StepPairsDollar(cmd: seq<byte>, s: Fsa)
    requires Inv(cmd, s) && s.sw == LEN(ARG1) && s.p < |cmd| && Step(cmd, s).Next? && ClassOf(s.typ) == Pairs
    requires s.token == -1
    ensures Inv(cmd, Step(cmd, s).s)
  {
    hide TypeOf;
    hide ClassOf;
    hide Valued;
    hide Step;
    hide DecVal;
    LengthTurn(cmd, s);
    NoDigits(cmd, s.p + 1);
  }

  lemma ReadsDigit(cmd: seq<byte>, s: Fsa, e: nat)
    requires ReadsLength(cmd, s, e) && s.token != -1 && s.p < |cmd| && IsDigit(cmd[s.p])
    ensures ReadsLength(cmd, s.(p := s.p + 1, rlen := U32(s.rlen * 10 + DigitVal(cmd[s.p]))), e)
  {
    hide DecVal;
    hide U32;
    LengthDigit(cmd, e, s.p);
  }

  lemma StepPairsDigit(cmd: seq<byte>, s: Fsa)
    requires Inv(cmd, s) && s.sw == LEN(ARG1) && s.p < |cmd| && Step(cmd, s).Next? && ClassOf(s.typ) == Pairs
    requires s.token != -1 && IsDigit(cmd[s.p])
    ensures Inv(cmd, Step(cmd, s).s)
  {
    hide TypeOf;
    hide ClassOf;
    hide Valued;
    hide Step;
    hide DecVal;
    hide ReadsLength;
    hide LengthAt;
    hide SkippedAt;
    hide U32;
    hide InBounds;
    LengthTurn(cmd, s);
    ReadsDigit(cmd, s, LastEnd(s));
  }

  lemma StepPairsCr(cmd: seq<byte>, s: Fsa)
    requires Inv(cmd, s) && s.sw == LEN(ARG1) && s.p < |cmd| && Step(cmd, s).Next? && ClassOf(s.typ) == Pairs
    requires s.token != -1 && !IsDigit(cmd[s.p])
    ensures Inv(cmd, Step(cmd, s).s)
  {
    hide TypeOf;
    hide ClassOf;
    hide Valued;
    hide Step;
    hide DecVal;
    LengthTurn(cmd, s);
  }

  lemma StepPairsLength(cmd: seq<byte>, s: Fsa)
    requires Inv(cmd, s) && s.sw == LEN(ARG1) && s.p < |cmd| && Step(cmd, s).Next? && ClassOf(s.typ) == Pairs
    ensures Inv(cmd, Step(cmd, s).s)
  {
    hide Inv;
    hide Step;
    if s.token == -1 {
      StepPairsDollar(cmd, s);
    } else if IsDigit(cmd[s.p]) {
      StepPairsDigit(cmd, s);
    } else {
      StepPairsCr(cmd, s);
    }
  }

  lemma StepPairsData(cmd: seq<byte>, s: Fsa)
    requires Inv(cmd, s) && s.sw == DATA(ARG1) && s.p < |cmd| && Step(cmd, s).Next? && ClassOf(s.typ) == Pairs
    ensures Inv(cmd, Step(cmd, s).s)
  {
    hide TypeOf;
    hide ClassOf;
    hide ScriptCountOk;
    hide Valued;
    hide DecVal;
    var t := Step(cmd, s).s;
    assert t == s.(sw := DATA_LF(ARG1), p := s.p + s.rlen + 1, rlen := 0, token := -1);
    assert SkippedAt(cmd, LastEnd(t), s.p - 2, t.p);
    assert Alternates(cmd, t);
  }

  lemma ValueComplete(cmd: seq<byte>, s: Fsa)
    requires Inv(cmd, s) && s.sw == DATA_LF(ARG1) && ClassOf(s.typ) == Pairs && s.p < |cmd| && cmd[s.p] == LF
    ensures Valued(cmd, s.keys)
  {
    hide TypeOf;
    hide ClassOf;
    hide Valued;
    hide DecVal;
    var q: nat :| SkippedAt(cmd, LastEnd(s), q, s.p);
    assert ValueAt(cmd, LastEnd(s), q);
    ValuedMore(cmd, s.keys);
  }

  lemma ValuedMore(cmd: seq<byte>, keys: seq<KeyPos>)
    requires keys != [] && Valued(cmd, keys[..|keys| - 1]) && ValueFollows(cmd, keys[|keys| - 1].end)
    ensures Valued(cmd, keys)
  {
    hide ValueFollows;
    var n := |keys| - 1;
    assert forall k :: 0 <= k < n ==> keys[k] == keys[..n][k];
  }

  lemma StepPairsValueEnd(cmd: seq<byte>, s: Fsa)
    requires Inv(cmd, s) && s.sw == DATA_LF(ARG1) && s.p < |cmd| && Step(cmd, s).Next? && ClassOf(s.typ) == Pairs
    ensures Inv(cmd, Step(cmd, s).s)
  {
    hide TypeOf;
    hide ClassOf;
    hide Valued;
    ValueComplete(cmd, s);
  }

  lemma NoKeysValued(cmd: seq<byte>)
    ensures Valued(cmd, [])
  {}

  lemma StepPairsLine(cmd: seq<byte>, s: Fsa)
    requires Inv(cmd, s) && Named(s) && s.p < |cmd| && Step(cmd, s).Next? && ClassOf(s.typ) == Pairs
    requires (s.sw.LEN? || s.sw.LEN_LF?) && s.sw != LEN(ARG1)
    ensures Inv(cmd, Step(cmd, s).s)
  {
    hide TypeOf;
    hide ClassOf;
    hide Valued;
    hide LengthAt;
    hide SkippedAt;
    hide AfterData;
    hide StepData;
    hide StepDataLf;
  }

  /** The transition at the first byte of a key. */
  lemma KeyTurn(cmd: seq<byte>, s: Fsa)
    requires s.sw == DATA(KEY) && s.p < |cmd| && Step(cmd, s).Next?
    ensures var m := s.p + s.rlen;
            m < |cmd| && cmd[m] == CR &&
            Step(cmd, s).s == s.(sw := DATA_LF(KEY), p := m + 1, rlen := 0, token := -1, keys := s.keys + [KeyPos(s.p, m)])
  {}

  lemma StepPairsKey(cmd: seq<byte>, s: Fsa)
    requires Inv(cmd, s) && s.sw == DATA(KEY) && s.p < |cmd| && Step(cmd, s).Next? && ClassOf(s.typ) == Pairs
    ensures Inv(cmd, Step(cmd, s).s)
  {
    hide Step;
    hide TypeOf;
    hide ClassOf;
    hide ScriptCountOk;
    hide Valued;
    hide LengthAt;
    hide SkippedAt;
    KeyTurn(cmd, s);
    var t := Step(cmd, s).s;
    assert t.keys[..|t.keys| - 1] == s.keys;
  }

  lemma StepPairsAfter(cmd: seq<byte>, s: Fsa)
    requires Inv(cmd, s) && s.sw.DATA_LF? && s.p < |cmd| && Step(cmd, s).Next? && ClassOf(s.typ) == Pairs
    requires s.sw != DATA_LF(ARG1)
    ensures Inv(cmd, Step(cmd, s).s)
  {
    hide TypeOf;
    hide ClassOf;
    hide Valued;
    hide LengthAt;
    hide SkippedAt;
    hide AfterData;
    hide StepData;
    hide StepLen;
    NoKeysValued(cmd);
  }

  lemma StepPairsElsewhere(cmd: seq<byte>, s: Fsa)
    requires Inv(cmd, s) && Named(s) && s.p < |cmd| && Step(cmd, s).Next? && ClassOf(s.typ) == Pairs
    requires s.sw != LEN(ARG1) && s.sw != DATA(ARG1) && s.sw != DATA_LF(ARG1)
    ensures Inv(cmd, Step(cmd, s).s)
  {
    hide Step;
    hide TypeOf;
    hide ClassOf;
    hide Valued;
    hide LengthAt;
    hide SkippedAt;
    if s.sw.LEN? || s.sw.LEN_LF? {
      StepPairsLine(cmd, s);
    } else if s.sw.DATA_LF? {
      StepPairsAfter(cmd, s);
    } else {
      StepPairsKey(cmd, s);
    }
  }

  lemma StepKeepsInv(cmd: seq<byte>, s: Fsa)
    requires Inv(cmd, s) && s.p < |cmd| && Step(cmd, s).Next?
    ensures Inv(cmd, Step(cmd, s).s)
  {
    hide Inv;
    hide Step;
    if !Named(s) {
      StepUnnamed(cmd, s);
    } else if ClassOf(s.typ) == Keys {
      StepKeys(cmd, s);
    } else if ClassOf(s.typ) != Pairs {
      StepFew(cmd, s);
    } else if s.sw == LEN(ARG1) {
      StepPairsLength(cmd, s);
    } else if s.sw == DATA(ARG1) {
      StepPairsData(cmd, s);
    } else if s.sw == DATA_LF(ARG1) {
      StepPairsValueEnd(cmd, s);
    } else {
      StepPairsElsewhere(cmd, s);
    }
  }

  /** What the fragmenter may rely on when the parser has accepted a command. */
  ghost predicate SafeToFragment(cmd: seq<byte>, s: Fsa) {
    InBounds(cmd, s.keys) &&
    (|s.keys| > 1 ==> s.typ == MGET || s.typ == DEL || s.typ == MSET) &&
    (|s.keys| > 1 && s.typ == MSET ==> Valued(cmd, s.keys))
  }

  lemma DoneIsSafe(cmd: seq<byte>, s: Fsa)
    requires Inv(cmd, s) && s.p < |cmd| && Step(cmd, s).Done?
    ensures Step(cmd, s).s == s && SafeToFragment(cmd, s)
  {
    hide TypeOf;
    hide ClassOf;
    hide ScriptCountOk;
    hide Valued;
    MultiKeyClasses(s.typ);
    if ClassOf(s.typ) == Pairs && s.sw == DATA_LF(ARG1) {
      ValueComplete(cmd, s);
    }
  }

  lemma {:induction false} AcceptedIsSafe(cmd: seq<byte>, s: Fsa)
    requires s.p <= |cmd| && Inv(cmd, s) && Execute(cmd, s).Accepted?
    ensures SafeToFragment(cmd, Execute(cmd, s).s)
    decreases |cmd| - s.p
  {
    hide Inv;
    hide Step;
    hide SafeToFragment;
    var r := Step(cmd, s);
    if r.Next? {
      StepKeepsInv(cmd, s);
      AcceptedIsSafe(cmd, r.s);
    } else {
      DoneIsSafe(cmd, s);
    }
  }

  /**
   For every byte string: when the parser reaches `done` with more than one key, the
   command is an MGET, DEL or MSET, every key lies inside the buffer, and every key of
   an MSET is followed by a length-prefixed value that lies inside the buffer.
   */
  lemma AcceptedKeys(cmd: seq<byte>)
    requires Execute(cmd, INITIAL).Accepted?
    ensures SafeToFragment(cmd, Execute(cmd, INITIAL).s)
  {
    AcceptedIsSafe(cmd, INITIAL);
  }
  // ------------------------------------------------------------ when the bytes end too early

  /** An MSET with several keys, the last of which is not followed by its whole value. */
  predicate ValuePending(s: Fsa) {
    s.typ == MSET && |s.keys| > 1 &&
    (s.sw == DATA_LF(KEY) || s.sw == LEN(ARG1) || s.sw == LEN_LF(ARG1) || s.sw == DATA(ARG1) || s.sw == DATA_LF(ARG1))
  }

  lemma DigitsThrough(cmd: seq<byte>, a: nat, b: nat, k: nat)
    requires a <= k < b <= |cmd| && AllDigits(cmd[a..b])
    ensures IsDigit(cmd[k])
  {
    assert cmd[a..b][k - a] == cmd[k];
  }

  lemma LengthUnique(cmd: seq<byte>, e: nat, q1: nat, q2: nat)
    requires LengthAt(cmd, e, q1) && LengthAt(cmd, e, q2)
    ensures q1 == q2
  {
    hide AllDigits;
    if q1 < q2 {
      DigitsThrough(cmd, e + 3, q2, q1);
    } else if q2 < q1 {
      DigitsThrough(cmd, e + 3, q1, q2);
    }
  }

  /** No value follows a key while its length line or its value is still being read at the end of the bytes. */
  lemma PendingHasNoValue(cmd: seq<byte>, s: Fsa, q: nat)
    requires Inv(cmd, s) && ClassOf(s.typ) == Pairs && s.p == |cmd| && s.keys != [] && ValuePending(s)
    ensures !ValueAt(cmd, LastEnd(s), q)
  {
    hide TypeOf;
    hide ClassOf;
    hide Valued;
    hide InBounds;
    hide DecVal;
    hide AllDigits;
    var e := LastEnd(s);
    if LengthAt(cmd, e, q) {
      if s.sw == LEN(ARG1) {
        if s.token != -1 {
          DigitsThrough(cmd, e + 3, s.p, q);
        }
      } else if s.sw == LEN_LF(ARG1) {
        LengthUnique(cmd, e, q, s.p - 1);
      } else if s.sw == DATA(ARG1) {
        LengthUnique(cmd, e, q, s.p - 2);
      } else if s.sw == DATA_LF(ARG1) {
        var q2: nat :| SkippedAt(cmd, e, q2, s.p);
        LengthUnique(cmd, e, q, q2);
      }
    }
  }

  lemma EndedInv(cmd: seq<byte>, s: Fsa)
    requires Inv(cmd, s) && s.p == |cmd|
    ensures SafeToFragment(cmd, s) <==> !ValuePending(s)
  {
    hide TypeOf;
    hide ClassOf;
    hide LengthAt;
    hide SkippedAt;
    hide ReadsLength;
    hide ValueAt;
    MultiKeyClasses(s.typ);
    if ValuePending(s) {
      forall q: nat
        ensures !ValueAt(cmd, LastEnd(s), q)
      {
        PendingHasNoValue(cmd, s, q);
      }
      assert !ValueFollows(cmd, LastEnd(s));
    }
  }

  lemma {:induction false} RunsOutInv(cmd: seq<byte>, s: Fsa)
    requires s.p <= |cmd| && Inv(cmd, s) && Execute(cmd, s).OutOfInput?
    ensures var t := Execute(cmd, s).s; Inv(cmd, t) && t.p == |cmd|
    decreases |cmd| - s.p
  {
    hide Inv;
    hide Step;
    if s.p < |cmd| {
      StepKeepsInv(cmd, s);
      RunsOutInv(cmd, Step(cmd, s).s);
    }
  }

  /**
   A run that ends before `done` keeps the OK result and the keys found so far, and the command
   is split all the same. What the splitter relies on holds then exactly when the bytes do not
   end between the second or a later key of an MSET and the end of that key's value.
   */
  lemma CutOffKeys(cmd: seq<byte>)
    requires Execute(cmd, INITIAL).OutOfInput?
    ensures var s := Execute(cmd, INITIAL).s; SafeToFragment(cmd, s) <==> !ValuePending(s)
  {
    RunsOutInv(cmd, INITIAL);
    EndedInv(cmd, Execute(cmd, INITIAL).s);
  }

  /** An MSET that ends right after its second key. */
  const CUT_OFF: seq<byte> := [
    42, 53, 13, 10, 36, 52, 13, 10, 109, 115, 101, 116, 13, 10,
    36, 49, 13, 10, 97, 13, 10, 36, 49, 13, 10, 49, 13, 10,
    36, 49, 13, 10, 98, 13
  ]

  lemma StepTo(cmd: seq<byte>, s: Fsa, t: Fsa)
    requires s.p < |cmd| && Step(cmd, s) == Next(t)
    ensures Execute(cmd, s) == Execute(cmd, t)
  {}

  lemma CutOffCount(cmd: seq<byte>)
    requires |cmd| == 34 && cmd[0] == STAR && cmd[1] == 53 && cmd[2] == CR && cmd[3] == LF
    ensures Execute(cmd, INITIAL) ==
            Execute(cmd, Fsa(LEN(REQ_TYPE), 4, -1, 0, 5, 5, UNKNOWN, []))
  {
    hide Execute;
    hide TypeOf;
    hide ClassOf;
    var s0 := INITIAL;
    var s1 := Fsa(NARG, 1, 0, 0, 0, 0, UNKNOWN, []);
    StepTo(cmd, s0, s1);
    var s2 := Fsa(NARG, 2, 0, 0, 5, 0, UNKNOWN, []);
    StepTo(cmd, s1, s2);
    var s3 := Fsa(NARG_LF, 3, -1, 0, 5, 5, UNKNOWN, []);
    StepTo(cmd, s2, s3);
    var s4 := Fsa(LEN(REQ_TYPE), 4, -1, 0, 5, 5, UNKNOWN, []);
    StepTo(cmd, s3, s4);
  }

  lemma CutOffName(cmd: seq<byte>)
    requires |cmd| == 34 && cmd[4] == DOLLAR && cmd[5] == 52 && cmd[6] == CR && cmd[7] == LF && cmd[12] == CR && cmd[13] == LF &&
             cmd[8] == 109 && cmd[9] == 115 && cmd[10] == 101 && cmd[11] == 116
    ensures Execute(cmd, Fsa(LEN(REQ_TYPE), 4, -1, 0, 5, 5, UNKNOWN, [])) ==
            Execute(cmd, Fsa(LEN(KEY), 14, -1, 0, 4, 5, MSET, []))
  {
    hide Execute;
    hide TypeOf;
    hide ClassOf;
    FragmentNames();
    MultiKeyClasses(MSET);
    assert cmd[8..12] == MSET_NAME;
    var s0 := Fsa(LEN(REQ_TYPE), 4, -1, 0, 5, 5, UNKNOWN, []);
    var s1 := Fsa(LEN(REQ_TYPE), 5, 4, 0, 5, 5, UNKNOWN, []);
    StepTo(cmd, s0, s1);
    var s2 := Fsa(LEN(REQ_TYPE), 6, 4, 4, 5, 5, UNKNOWN, []);
    StepTo(cmd, s1, s2);
    var s3 := Fsa(LEN_LF(REQ_TYPE), 7, -1, 4, 4, 5, UNKNOWN, []);
    StepTo(cmd, s2, s3);
    var s4 := Fsa(DATA(REQ_TYPE), 8, -1, 4, 4, 5, UNKNOWN, []);
    StepTo(cmd, s3, s4);
    var s5 := Fsa(DATA_LF(REQ_TYPE), 13, -1, 0, 4, 5, MSET, []);
    StepTo(cmd, s4, s5);
    var s6 := Fsa(LEN(KEY), 14, -1, 0, 4, 5, MSET, []);
    StepTo(cmd, s5, s6);
  }

  lemma CutOffKey(cmd: seq<byte>)
    requires |cmd| == 34 && cmd[14] == DOLLAR && cmd[15] == 49 && cmd[16] == CR && cmd[17] == LF && cmd[18] == 97 && cmd[19] == CR && cmd[20] == LF
    ensures Execute(cmd, Fsa(LEN(KEY), 14, -1, 0, 4, 5, MSET, [])) ==
            Execute(cmd, Fsa(LEN(ARG1), 21, -1, 0, 3, 5, MSET, [KeyPos(18, 19)]))
  {
    hide Execute;
    hide TypeOf;
    hide ClassOf;
    MultiKeyClasses(MSET);
    var s0 := Fsa(LEN(KEY), 14, -1, 0, 4, 5, MSET, []);
    var s1 := Fsa(LEN(KEY), 15, 14, 0, 4, 5, MSET, []);
    StepTo(cmd, s0, s1);
    var s2 := Fsa(LEN(KEY), 16, 14, 1, 4, 5, MSET, []);
    StepTo(cmd, s1, s2);
    var s3 := Fsa(LEN_LF(KEY), 17, -1, 1, 3, 5, MSET, []);
    StepTo(cmd, s2, s3);
    var s4 := Fsa(DATA(KEY), 18, -1, 1, 3, 5, MSET, []);
    StepTo(cmd, s3, s4);
    var s5 := Fsa(DATA_LF(KEY), 20, -1, 0, 3, 5, MSET, [KeyPos(18, 19)]);
    StepTo(cmd, s4, s5);
    var s6 := Fsa(LEN(ARG1), 21, -1, 0, 3, 5, MSET, [KeyPos(18, 19)]);
    StepTo(cmd, s5, s6);
  }

  lemma CutOffValue(cmd: seq<byte>)
    requires |cmd| == 34 && cmd[21] == DOLLAR && cmd[22] == 49 && cmd[23] == CR && cmd[24] == LF && cmd[25] == 49 && cmd[26] == CR && cmd[27] == LF
    ensures Execute(cmd, Fsa(LEN(ARG1), 21, -1, 0, 3, 5, MSET, [KeyPos(18, 19)])) ==
            Execute(cmd, Fsa(LEN(KEY), 28, -1, 0, 2, 5, MSET, [KeyPos(18, 19)]))
  {
    hide Execute;
    hide TypeOf;
    hide ClassOf;
    MultiKeyClasses(MSET);
    var s0 := Fsa(LEN(ARG1), 21, -1, 0, 3, 5, MSET, [KeyPos(18, 19)]);
    var s1 := Fsa(LEN(ARG1), 22, 21, 0, 3, 5, MSET, [KeyPos(18, 19)]);
    StepTo(cmd, s0, s1);
    var s2 := Fsa(LEN(ARG1), 23, 21, 1, 3, 5, MSET, [KeyPos(18, 19)]);
    StepTo(cmd, s1, s2);
    var s3 := Fsa(LEN_LF(ARG1), 24, -1, 1, 2, 5, MSET, [KeyPos(18, 19)]);
    StepTo(cmd, s2, s3);
    var s4 := Fsa(DATA(ARG1), 25, -1, 1, 2, 5, MSET, [KeyPos(18, 19)]);
    StepTo(cmd, s3, s4);
    var s5 := Fsa(DATA_LF(ARG1), 27, -1, 0, 2, 5, MSET, [KeyPos(18, 19)]);
    StepTo(cmd, s4, s5);
    var s6 := Fsa(LEN(KEY), 28, -1, 0, 2, 5, MSET, [KeyPos(18, 19)]);
    StepTo(cmd, s5, s6);
  }

  lemma CutOffSecondKey(cmd: seq<byte>)
    requires |cmd| == 34 && cmd[28] == DOLLAR && cmd[29] == 49 && cmd[30] == CR && cmd[31] == LF && cmd[32] == 98 && cmd[33] == CR
    ensures Execute(cmd, Fsa(LEN(KEY), 28, -1, 0, 2, 5, MSET, [KeyPos(18, 19)])) == OutOfInput(
              Fsa(DATA_LF(KEY), 34, -1, 0, 1, 5, MSET, [KeyPos(18, 19), KeyPos(32, 33)]))
  {
    hide Execute;
    hide TypeOf;
    hide ClassOf;
    MultiKeyClasses(MSET);
    var s0 := Fsa(LEN(KEY), 28, -1, 0, 2, 5, MSET, [KeyPos(18, 19)]);
    var s1 := Fsa(LEN(KEY), 29, 28, 0, 2, 5, MSET, [KeyPos(18, 19)]);
    StepTo(cmd, s0, s1);
    var s2 := Fsa(LEN(KEY), 30, 28, 1, 2, 5, MSET, [KeyPos(18, 19)]);
    StepTo(cmd, s1, s2);
    var s3 := Fsa(LEN_LF(KEY), 31, -1, 1, 1, 5, MSET, [KeyPos(18, 19)]);
    StepTo(cmd, s2, s3);
    var s4 := Fsa(DATA(KEY), 32, -1, 1, 1, 5, MSET, [KeyPos(18, 19)]);
    StepTo(cmd, s3, s4);
    var s5 := Fsa(DATA_LF(KEY), 34, -1, 0, 1, 5, MSET, [KeyPos(18, 19), KeyPos(32, 33)]);
    StepTo(cmd, s4, s5);
    RunsDry(cmd, s5);
  }

  lemma CutOffCounted()
    ensures Execute(CUT_OFF, INITIAL) == Execute(CUT_OFF, Fsa(LEN(REQ_TYPE), 4, -1, 0, 5, 5, UNKNOWN, []))
  {
    hide Execute;
    CutOffCount(CUT_OFF);
  }

  lemma CutOffStarts()
    ensures Execute(CUT_OFF, INITIAL) == Execute(CUT_OFF, Fsa(LEN(KEY), 14, -1, 0, 4, 5, MSET, []))
  {
    hide Execute;
    CutOffCounted();
    CutOffName(CUT_OFF);
  }

  lemma CutOffRuns()
    ensures Execute(CUT_OFF, INITIAL) == OutOfInput(Fsa(DATA_LF(KEY), 34, -1, 0, 1, 5, MSET, [KeyPos(18, 19), KeyPos(32, 33)]))
  {
    hide Execute;
    CutOffStarts();
    CutOffKey(CUT_OFF);
    CutOffValue(CUT_OFF);
    CutOffSecondKey(CUT_OFF);
  }

  /** That MSET is accepted, and its second key has no value. */
  lemma CutOffFails()
    ensures Execute(CUT_OFF, INITIAL).OutOfInput? && !SafeToFragment(CUT_OFF, Execute(CUT_OFF, INITIAL).s)
  {
    hide Execute;
    hide SafeToFragment;
    CutOffRuns();
    CutOffKeys(CUT_OFF);
  }
}
