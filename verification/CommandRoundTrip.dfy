/**
 What the command parser makes of a formatted argument list: it accepts exactly the
 admissible ones, on the last byte, and records exactly the key arguments.
 */
module CommandRoundTrip {
  import opened Bytes
  import opened CommandTable
  import opened Resp
  import opened Format
  import opened Command

  // ------------------------------------------------------------ the parser on argument indexes

  datatype Walked = Stops(keys: seq<nat>, at: nat) | Refuses | RunsOut

  /** The parser with every field read in one go: argument `i` is read as field `f`. */
  function Walk(c: Class, argv: seq<seq<byte>>, f: Field, i: nat): (w: Walked)
    requires i < |argv|
    ensures w.Stops? ==> i <= w.at < |argv| && forall j :: 0 <= j < |w.keys| ==> w.keys[j] <= w.at
    decreases |argv| - i
  {
    if f == ARG2 && c == Script && !ScriptCountOk(argv[i]) then Refuses
    else
      var here := if f == KEY then [i] else [];
      match NextField(c, f, |argv| - 1 - i, |argv|)
      case Stop => Stops(here, i)
      case Refuse => Refuses
      case Then(g) =>
        if i + 1 == |argv| then RunsOut
        else
          match Walk(c, argv, g, i + 1)
          case Stops(keys, at) => Stops(here + keys, at)
          case Refuses => Refuses
          case RunsOut => RunsOut
  }

  // ------------------------------------------------------------ positions in the wire form

  predicate At(cmd: seq<byte>, q: nat, piece: seq<byte>) {
    q + |piece| <= |cmd| && cmd[q..q + |piece|] == piece
  }

  lemma AtParts(cmd: seq<byte>, q: nat, a: seq<byte>, b: seq<byte>)
    requires At(cmd, q, a + b)
    ensures At(cmd, q, a) && At(cmd, q + |a|, b)
  {
    var s := cmd[q..q + |a + b|];
    assert cmd[q..q + |a|] == s[..|a|];
    assert cmd[q + |a|..q + |a| + |b|] == s[|a|..];
  }

  lemma AtHead(cmd: seq<byte>, q: nat, c: byte, rest: seq<byte>)
    requires At(cmd, q, [c] + rest)
    ensures q < |cmd| && cmd[q] == c && At(cmd, q + 1, rest)
  {
    AtParts(cmd, q, [c], rest);
    assert cmd[q..q + 1][0] == c;
  }

  /** Where the bulk string of argument `i` starts. */
  function Offset(argv: seq<seq<byte>>, i: nat): (q: nat)
    requires i <= |argv|
    ensures 0 < q <= |Wire(argv)|
  {
    WireIsHeadAndBulks(argv);
    BulksPrefix(argv, i);
    |Head(|argv|)| + |Bulks(argv[..i])|
  }

  /** Where the bytes of argument `i` lie. */
  function KeyAt(argv: seq<seq<byte>>, i: nat): KeyPos
    requires i < |argv|
  {
    var start := Offset(argv, i) + |BulkHead(|argv[i]|)|;
    KeyPos(start, start + |argv[i]|)
  }

  function KeysAt(argv: seq<seq<byte>>, keys: seq<nat>): (r: seq<KeyPos>)
    requires forall j :: 0 <= j < |keys| ==> keys[j] < |argv|
    ensures |r| == |keys| && forall j :: 0 <= j < |keys| ==> r[j] == KeyAt(argv, keys[j])
  {
    seq(|keys|, j requires 0 <= j < |keys| => KeyAt(argv, keys[j]))
  }

  lemma {:induction false} BulksPrefix(argv: seq<seq<byte>>, i: nat)
    requires i <= |argv|
    ensures Bulks(argv[..i]) <= Bulks(argv)
  {
    if i == |argv| {
      assert argv[..i] == argv;
    } else {
      BulksPrefix(argv[..|argv| - 1], i);
      assert argv[..|argv| - 1][..i] == argv[..i];
    }
  }

  lemma BulkLocated(argv: seq<seq<byte>>, i: nat)
    requires i < |argv|
    ensures At(Wire(argv), Offset(argv, i), Bulk(argv[i]))
    ensures Offset(argv, i + 1) == Offset(argv, i) + |Bulk(argv[i])|
  {
    WireIsHeadAndBulks(argv);
    BulksPrefix(argv, i + 1);
    assert argv[..i + 1][..i] == argv[..i];
    var b := Bulks(argv[..i + 1]);
    assert b == Bulks(argv[..i]) + Bulk(argv[i]);
    PrefixSlice(Head(|argv|), Bulks(argv[..i]), Bulk(argv[i]), Bulks(argv));
  }

  lemma PrefixSlice(h: seq<byte>, a: seq<byte>, b: seq<byte>, all: seq<byte>)
    requires a + b <= all
    ensures At(h + all, |h| + |a|, b)
  {
    var s := h + all;
    assert all[|a|..|a| + |b|] == (a + b)[|a|..];
    assert s[|h| + |a|..|h| + |a| + |b|] == all[|a|..|a| + |b|];
  }

  lemma OffsetEnds(argv: seq<seq<byte>>)
    ensures Offset(argv, |argv|) == |Wire(argv)|
    ensures Offset(argv, 0) == |Head(|argv|)| && At(Wire(argv), 0, Head(|argv|))
  {
    WireIsHeadAndBulks(argv);
    assert argv[..|argv|] == argv;
    assert Bulks(argv[..0]) == [];
  }

  /** The bytes between a recorded key's positions are the argument. */
  lemma KeySlice(argv: seq<seq<byte>>, i: nat)
    requires i < |argv|
    ensures KeyAt(argv, i).end + 2 == Offset(argv, i + 1) <= |Wire(argv)|
    ensures Wire(argv)[KeyAt(argv, i).start..KeyAt(argv, i).end] == argv[i]
  {
    BulkLocated(argv, i);
    BulkSplit(argv[i]);
    var q := Offset(argv, i);
    AtParts(Wire(argv), q, BulkHead(|argv[i]|), argv[i] + CRLF);
    AtParts(Wire(argv), q + |BulkHead(|argv[i]|)|, argv[i], CRLF);
  }

  // ------------------------------------------------------------ one field at a time

  lemma {:induction false} DecValGrows(a: seq<byte>, b: seq<byte>)
    requires AllDigits(a) && AllDigits(b)
    ensures AllDigits(a + b) && DecVal(a) <= DecVal(a + b)
    decreases |b|
  {
    if b == [] {
      assert a + b == a;
    } else {
      DecValSnoc(a, b[0]);
      DecValGrows(a + [b[0]], b[1..]);
      assert a + [b[0]] + b[1..] == a + b;
    }
  }

  lemma DigitStep(cmd: seq<byte>, s: Fsa)
    requires (s.sw.LEN? || s.sw.NARG?) && s.token != -1 && s.p < |cmd| && IsDigit(cmd[s.p])
    ensures var d := DigitVal(cmd[s.p]);
            Execute(cmd, s) ==
            Execute(cmd, if s.sw.LEN? then s.(p := s.p + 1, rlen := U32(s.rlen * 10 + d))
                         else s.(p := s.p + 1, rnarg := U32(s.rnarg * 10 + d)))
  {
    hide TypeOf;
    hide ClassOf;
  }

  /** Reading the digits of an argument count or a length, `pre` having been read already. */
  lemma {:induction false} DigitsRun(cmd: seq<byte>, s: Fsa, pre: seq<byte>, d: seq<byte>)
    requires (s.sw.LEN? || s.sw.NARG?) && s.token != -1
    requires AllDigits(pre) && AllDigits(d) && AllDigits(pre + d) && DecVal(pre + d) < TWO_32
    requires DecVal(pre) == if s.sw.LEN? then s.rlen else s.rnarg
    requires At(cmd, s.p, d)
    ensures var n := DecVal(pre + d);
            Execute(cmd, s) ==
            Execute(cmd, if s.sw.LEN? then s.(p := s.p + |d|, rlen := n) else s.(p := s.p + |d|, rnarg := n))
    decreases |d|
  {
    hide Execute;
    hide DecVal;
    hide At;
    if d == [] {
      assert pre + d == pre;
    } else {
      var pre' := pre + [d[0]];
      assert pre' + d[1..] == pre + d && [d[0]] + d[1..] == d;
      AtHead(cmd, s.p, d[0], d[1..]);
      DecValSnoc(pre, d[0]);
      DecValGrows(pre', d[1..]);
      var n := DecVal(pre');
      var t := if s.sw.LEN? then s.(p := s.p + 1, rlen := n) else s.(p := s.p + 1, rnarg := n);
      DigitStep(cmd, s);
      DigitsRun(cmd, t, pre', d[1..]);
    }
  }

  lemma NumeralRun(cmd: seq<byte>, s: Fsa, n: nat)
    requires (s.sw.LEN? && s.rlen == 0) || (s.sw.NARG? && s.rnarg == 0)
    requires s.token != -1 && n < TWO_32 && At(cmd, s.p, Dec(n))
    ensures Execute(cmd, s) ==
            Execute(cmd, if s.sw.LEN? then s.(p := s.p + |Dec(n)|, rlen := n) else s.(p := s.p + |Dec(n)|, rnarg := n))
  {
    hide Execute;
    hide Dec;
    DecRoundTrip(n);
    assert [] + Dec(n) == Dec(n);
    DigitsRun(cmd, s, [], Dec(n));
  }

  /** A length line: the field's length is read and one argument is counted off. */
  lemma LenRun(cmd: seq<byte>, s: Fsa, n: nat)
    requires s.sw.LEN? && s.token == -1 && s.rnarg > 0 && n < TWO_32
    requires At(cmd, s.p, BulkHead(n))
    ensures s.sw.f == REQ_TYPE && n == 0 ==> Execute(cmd, s) == Rejected
    ensures s.sw.f == REQ_TYPE ==> n > 0 ==>
              Execute(cmd, s) == Execute(cmd, LenRead(s, n))
    ensures s.sw.f != REQ_TYPE ==> Execute(cmd, s) == Execute(cmd, LenRead(s, n))
  {
    hide Execute;
    hide Dec;
    var d := Dec(n);
    assert BulkHead(n) == [DOLLAR] + (d + CRLF);
    AtHead(cmd, s.p, DOLLAR, d + CRLF);
    DollarRun(cmd, s);
    AtParts(cmd, s.p + 1, d, CRLF);
    var s1 := s.(p := s.p + 1, token := s.p, rlen := 0);
    NumeralRun(cmd, s1, n);
    var s2 := s1.(p := s1.p + |d|, rlen := n);
    CrlfRun(cmd, s2);
  }

  lemma DollarRun(cmd: seq<byte>, s: Fsa)
    requires s.sw.LEN? && s.token == -1 && s.p < |cmd| && cmd[s.p] == DOLLAR
    ensures Execute(cmd, s) == Execute(cmd, s.(p := s.p + 1, token := s.p, rlen := 0))
  {}

  function LenRead(s: Fsa, n: nat): Fsa
    requires s.sw.LEN? && s.rnarg > 0
  {
    s.(sw := DATA(s.sw.f), p := s.p + |BulkHead(n)|, token := -1, rlen := n, rnarg := s.rnarg - 1)
  }

  /** The CR LF that ends a length line. */
  lemma CrlfRun(cmd: seq<byte>, s: Fsa)
    requires s.sw.LEN? && s.token != -1 && s.rnarg > 0 && s.p - s.token > 1 && At(cmd, s.p, CRLF)
    ensures Execute(cmd, s) ==
            if s.sw.f == REQ_TYPE && s.rlen == 0 then Rejected
            else Execute(cmd, s.(sw := DATA(s.sw.f), p := s.p + 2, token := -1, rnarg := s.rnarg - 1))
  {
    hide TypeOf;
    hide ClassOf;
    hide Execute;
    assert CRLF == [CR] + [LF];
    AtHead(cmd, s.p, CR, [LF]);
    AtHead(cmd, s.p + 1, LF, []);
    OneStep(cmd, s);
    if !(s.sw.f == REQ_TYPE && s.rlen == 0) {
      OneStep(cmd, s.(sw := LEN_LF(s.sw.f), p := s.p + 1, token := -1, rnarg := s.rnarg - 1));
    }
  }

  lemma OneStep(cmd: seq<byte>, s: Fsa)
    requires s.p < |cmd|
    ensures Command.Step(cmd, s).Next? ==> Execute(cmd, s) == Execute(cmd, Command.Step(cmd, s).s)
    ensures Command.Step(cmd, s).Bad? ==> Execute(cmd, s) == Rejected
  {
    hide Command.Step;
  }

  /** The bytes of a field: a type is looked up, a key is recorded, a script's key count is checked. */
  function FieldRead(s: Fsa, data: seq<byte>): Move
    requires s.sw.DATA?
  {
    AfterData(s, s.sw.f, data, s.p + |data|)
  }

  lemma DataRun(cmd: seq<byte>, s: Fsa, data: seq<byte>)
    requires s.sw.DATA? && s.rlen == |data| && At(cmd, s.p, data + CRLF)
    ensures var r := FieldRead(s, data);
            if r.Next? then r.s.p == s.p + |data| + 1 < |cmd| && cmd[r.s.p] == LF && Execute(cmd, s) == Execute(cmd, r.s)
            else r.Bad? && Execute(cmd, s) == Rejected
  {
    hide TypeOf;
    hide ClassOf;
    hide ScriptCountOk;
    hide AfterData;
    hide Execute;
    hide At;
    AtParts(cmd, s.p, data, CRLF);
    var m := s.p + |data|;
    assert CRLF == [CR] + [LF];
    AtHead(cmd, m, CR, [LF]);
    AtHead(cmd, m + 1, LF, []);
    AfterDataShape(s, s.sw.f, data, m);
    assert cmd[s.p..m] == data;
    OneStep(cmd, s);
  }

  lemma AfterDataShape(s: Fsa, f: Field, data: seq<byte>, m: nat)
    ensures var r := AfterData(s, f, data, m);
            r.Bad? || (r.Next? && r.s.p == m + 1)
  {
    hide TypeOf;
  }

  // ------------------------------------------------------------ whole commands

  predicate Fits(argv: seq<seq<byte>>) {
    |argv| < TWO_32 && forall i :: 0 <= i < |argv| ==> |argv[i]| < TWO_32
  }

  /** The state at the LF that ends argument `i`. */
  function AtLf(argv: seq<seq<byte>>, s: Fsa, f: Field, i: nat): Fsa
    requires i < |argv|
  {
    s.(sw := DATA_LF(f), p := Offset(argv, i + 1) - 1, rlen := 0, token := -1, rnarg := |argv| - 1 - i)
  }

  ghost predicate Starts(argv: seq<seq<byte>>, s: Fsa, f: Field, i: nat) {
    i < |argv| && s.sw == LEN(f) && s.p == Offset(argv, i) && s.token == -1 &&
    s.rnarg == |argv| - i && s.narg == |argv|
  }

  /** The dispatch at the LF of argument `i`. */
  lemma LfRun(argv: seq<seq<byte>>, t: Fsa, f: Field, i: nat)
    requires i < |argv| && t.sw == DATA_LF(f) && t.p + 1 == Offset(argv, i + 1) <= |Wire(argv)| && Wire(argv)[t.p] == LF
    ensures var turn := NextField(ClassOf(t.typ), f, t.rnarg, t.narg);
            Execute(Wire(argv), t) ==
            if turn == Stop then Accepted(t)
            else if turn == Refuse then Rejected
            else Execute(Wire(argv), t.(sw := LEN(turn.f), p := t.p + 1))
  {
    hide ClassOf;
    hide NextField;
    hide Wire;
    hide Offset;
  }

  /** One argument that is not the command name. */
  lemma FieldRun(argv: seq<seq<byte>>, s: Fsa, f: Field, i: nat)
    requires Fits(argv) && Starts(argv, s, f, i) && f != REQ_TYPE
    ensures var t := AtLf(argv, s, f, i).(keys := s.keys + if f == KEY then [KeyAt(argv, i)] else []);
            Execute(Wire(argv), s) ==
            if f == ARG2 && ClassOf(s.typ) == Script && !ScriptCountOk(argv[i]) then Rejected
            else Execute(Wire(argv), t)
    ensures 0 < Offset(argv, i + 1) <= |Wire(argv)| && Wire(argv)[Offset(argv, i + 1) - 1] == LF
  {
    hide Execute;
    hide ClassOf;
    hide TypeOf;
    hide ScriptCountOk;
    hide Wire;
    hide Offset;
    var cmd, arg := Wire(argv), argv[i];
    BulkLocated(argv, i);
    BulkSplit(arg);
    AtParts(cmd, s.p, BulkHead(|arg|), arg + CRLF);
    LenRun(cmd, s, |arg|);
    var s1 := LenRead(s, |arg|);
    DataRun(cmd, s1, arg);
    LfOfBulk(cmd, s1.p, arg);
    assert s.keys + [] == s.keys;
  }

  lemma LfOfBulk(cmd: seq<byte>, q: nat, arg: seq<byte>)
    requires At(cmd, q, arg + CRLF)
    ensures q + |arg| + 1 < |cmd| && cmd[q + |arg| + 1] == LF
  {
    AtParts(cmd, q, arg, CRLF);
    assert CRLF == [CR] + [LF];
    AtHead(cmd, q + |arg|, CR, [LF]);
    AtHead(cmd, q + |arg| + 1, LF, []);
  }

  /** What the verdict must be when the walk over the arguments ends in `w`. */
  ghost predicate Agrees(argv: seq<seq<byte>>, typ: CmdType, before: seq<KeyPos>, w: Walked, r: Verdict) {
    match w
    case Refuses => r == Rejected
    case RunsOut => r.OutOfInput?
    case Stops(keys, at) =>
      at < |argv| && (forall j :: 0 <= j < |keys| ==> keys[j] < |argv|) &&
      r.Accepted? && r.s.p + 1 == Offset(argv, at + 1) && r.s.narg == |argv| && r.s.typ == typ &&
      r.s.keys == before + KeysAt(argv, keys)
  }

  lemma {:induction false} WalkIsRun(argv: seq<seq<byte>>, s: Fsa, f: Field, i: nat)
    requires Fits(argv) && Starts(argv, s, f, i) && f != REQ_TYPE
    ensures Agrees(argv, s.typ, s.keys, Walk(ClassOf(s.typ), argv, f, i), Execute(Wire(argv), s))
    decreases |argv| - i
  {
    hide ClassOf;
    hide ScriptCountOk;
    hide Execute;
    hide Wire;
    hide Offset;
    hide Agrees;
    hide NextField;
    FieldRun(argv, s, f, i);
    var c := ClassOf(s.typ);
    var here: seq<nat> := if f == KEY then [i] else [];
    var t := AtLf(argv, s, f, i).(keys := s.keys + if f == KEY then [KeyAt(argv, i)] else []);
    AgreesErrors(argv, s.typ, s.keys, t);
    if !(f == ARG2 && c == Script && !ScriptCountOk(argv[i])) {
      LfRun(argv, t, f, i);
      AgreesAtOnce(argv, s, f, i, t);
      assert KeysAt(argv, here) == if f == KEY then [KeyAt(argv, i)] else [];
      var turn := NextField(c, f, |argv| - 1 - i, |argv|);
      if turn.Then? {
        var next := t.(sw := LEN(turn.f), p := t.p + 1);
        NeverBackToType(c, f, |argv| - 1 - i, |argv|);
        if i + 1 == |argv| {
          OffsetEnds(argv);
          RunsDry(Wire(argv), next);
          AgreesErrors(argv, s.typ, s.keys, next);
        } else {
          WalkIsRun(argv, next, turn.f, i + 1);
          AgreesOn(argv, s.typ, s.keys, here, Walk(c, argv, turn.f, i + 1), Execute(Wire(argv), next));
        }
      }
    }
  }

  /** Counting the keys of this argument before those of the rest. */
  lemma AgreesOn(argv: seq<seq<byte>>, typ: CmdType, before: seq<KeyPos>, here: seq<nat>, w: Walked, r: Verdict)
    requires forall j :: 0 <= j < |here| ==> here[j] < |argv|
    requires Agrees(argv, typ, before + KeysAt(argv, here), w, r)
    ensures Agrees(argv, typ, before, if w.Stops? then Stops(here + w.keys, w.at) else w, r)
  {
    hide Offset;
    hide KeyAt;
    if w.Stops? {
      assert KeysAt(argv, here + w.keys) == KeysAt(argv, here) + KeysAt(argv, w.keys);
      assert before + KeysAt(argv, here) + KeysAt(argv, w.keys) == before + KeysAt(argv, here + w.keys);
    }
  }

  lemma AgreesErrors(argv: seq<seq<byte>>, typ: CmdType, before: seq<KeyPos>, t: Fsa)
    ensures Agrees(argv, typ, before, Refuses, Rejected)
    ensures Agrees(argv, typ, before, RunsOut, OutOfInput(t))
  {}

  /** Stopping at argument `i` itself. */
  lemma AgreesAtOnce(argv: seq<seq<byte>>, s: Fsa, f: Field, i: nat, t: Fsa)
    requires i < |argv| && t.p + 1 == Offset(argv, i + 1) && t.narg == |argv| && t.typ == s.typ
    requires t.keys == s.keys + if f == KEY then [KeyAt(argv, i)] else []
    ensures Agrees(argv, s.typ, s.keys, Stops(if f == KEY then [i] else [], i), Accepted(t))
    ensures Agrees(argv, s.typ, s.keys, Refuses, Rejected)
  {
    hide Offset;
    hide KeyAt;
    var here: seq<nat> := if f == KEY then [i] else [];
    assert KeysAt(argv, here) == if f == KEY then [KeyAt(argv, i)] else [];
  }

  lemma NeverBackToType(c: Class, f: Field, rnarg: nat, narg: nat)
    ensures NextField(c, f, rnarg, narg) != Then(REQ_TYPE)
  {}

  /** The state in which the command name is about to be read. */
  function AtName(argv: seq<seq<byte>>): Fsa {
    Fsa(LEN(REQ_TYPE), Offset(argv, 0), -1, 0, |argv|, |argv|, UNKNOWN, [])
  }

  lemma StarRun(cmd: seq<byte>)
    requires cmd != [] && cmd[0] == STAR
    ensures Execute(cmd, INITIAL) == Execute(cmd, Fsa(NARG, 1, 0, 0, 0, 0, UNKNOWN, []))
  {}

  lemma CountEndRun(cmd: seq<byte>, s: Fsa)
    requires s.sw == NARG && s.token != -1 && At(cmd, s.p, CRLF)
    ensures Execute(cmd, s) ==
            if s.rnarg == 0 then Rejected
            else Execute(cmd, s.(sw := LEN(REQ_TYPE), p := s.p + 2, token := -1, narg := s.rnarg))
  {
    hide TypeOf;
    hide ClassOf;
    assert CRLF == [CR] + [LF];
    AtHead(cmd, s.p, CR, [LF]);
    AtHead(cmd, s.p + 1, LF, []);
    if s.rnarg != 0 {
      var t := s.(sw := NARG_LF, p := s.p + 1, token := -1, narg := s.rnarg);
      assert Execute(cmd, s) == Execute(cmd, t);
    }
  }

  /** The argument count line. */
  lemma HeadRun(argv: seq<seq<byte>>)
    requires |argv| < TWO_32
    ensures Execute(Wire(argv), INITIAL) == if argv == [] then Rejected else Execute(Wire(argv), AtName(argv))
  {
    hide Execute;
    hide Wire;
    hide Dec;
    var cmd, d := Wire(argv), Dec(|argv|);
    OffsetEnds(argv);
    assert Head(|argv|) == [STAR] + (d + CRLF);
    AtHead(cmd, 0, STAR, d + CRLF);
    AtParts(cmd, 1, d, CRLF);
    StarRun(cmd);
    var s := Fsa(NARG, 1, 0, 0, 0, 0, UNKNOWN, []);
    NumeralRun(cmd, s, |argv|);
    CountEndRun(cmd, s.(p := 1 + |d|, rnarg := |argv|));
  }

  lemma NameRead(argv: seq<seq<byte>>)
    requires argv != [] && Offset(argv, 1) == Offset(argv, 0) + |BulkHead(|argv[0]|)| + |argv[0]| + 2
    ensures var r := FieldRead(LenRead(AtName(argv), |argv[0]|), argv[0]);
            if TypeOf(argv[0]) == UNKNOWN then r.Bad?
            else r == Next(AtLf(argv, AtName(argv), REQ_TYPE, 0).(typ := TypeOf(argv[0])))
  {
    hide TypeOf;
    hide Offset;
    hide BulkHead;
  }

  /** The command name: it must not be empty, and it must be known. */
  lemma NameRun(argv: seq<seq<byte>>)
    requires Fits(argv) && argv != []
    ensures Execute(Wire(argv), AtName(argv)) ==
            if argv[0] == [] || TypeOf(argv[0]) == UNKNOWN then Rejected
            else Execute(Wire(argv), AtLf(argv, AtName(argv), REQ_TYPE, 0).(typ := TypeOf(argv[0])))
    ensures Wire(argv)[Offset(argv, 1) - 1] == LF
  {
    hide Execute;
    hide TypeOf;
    hide Wire;
    hide Offset;
    hide At;
    hide Bulk;
    hide Dec;
    var cmd, name, s := Wire(argv), argv[0], AtName(argv);
    BulkLocated(argv, 0);
    BulkSplit(name);
    AtParts(cmd, s.p, BulkHead(|name|), name + CRLF);
    LenRun(cmd, s, |name|);
    var s1 := LenRead(s, |name|);
    NameRead(argv);
    hide FieldRead;
    DataRun(cmd, s1, name);
    LfOfBulk(cmd, s1.p, name);
  }

  // ------------------------------------------------------------ which argument lists are accepted

  /** The verdict on a formatted argument list, stated on the list itself. */
  function Expected(argv: seq<seq<byte>>): Walked {
    if argv == [] || argv[0] == [] || TypeOf(argv[0]) == UNKNOWN then Refuses
    else Walk(ClassOf(TypeOf(argv[0])), argv, REQ_TYPE, 0)
  }

  lemma ParseIsWalk(argv: seq<seq<byte>>)
    requires Fits(argv)
    ensures Agrees(argv, if argv == [] then UNKNOWN else TypeOf(argv[0]), [], Expected(argv), Execute(Wire(argv), INITIAL))
  {
    hide Execute;
    hide TypeOf;
    hide ClassOf;
    hide Wire;
    hide Offset;
    HeadRun(argv);
    if argv != [] {
      NameRun(argv);
      var typ := TypeOf(argv[0]);
      if argv[0] != [] && typ != UNKNOWN {
        var t := AtLf(argv, AtName(argv), REQ_TYPE, 0).(typ := typ);
        LfRun(argv, t, REQ_TYPE, 0);
        var c := ClassOf(typ);
        var turn := NextField(c, REQ_TYPE, |argv| - 1, |argv|);
        assert KeysAt(argv, []) == [];
        if turn.Then? {
          var next := t.(sw := LEN(turn.f), p := t.p + 1);
          if |argv| == 1 {
            OffsetEnds(argv);
            RunsDry(Wire(argv), next);
          } else {
            WalkIsRun(argv, next, turn.f, 1);
            var w := Walk(c, argv, turn.f, 1);
            if w.Stops? {
              assert [] + w.keys == w.keys;
            }
          }
        }
      }
    }
  }

  /** The arities the parser admits, name included. MSET with a lone key is among them. */
  predicate Admissible(c: Class, argv: seq<seq<byte>>) {
    var n := |argv|;
    match c
    case NoKey => n >= 1
    case KeyOnly => n == 2
    case KeyAnd1 => n == 3
    case KeyAnd2 => n == 4
    case KeyAnd3 => n == 5
    case KeyAndAny => n >= 2
    case Keys => n >= 2
    case Pairs => n == 2 || (n >= 3 && n % 2 == 1)
    case Script => n >= 4 && ScriptCountOk(argv[2])
    case Unclassed => false
  }

  /** Which arguments are keys. */
  function KeyIndexes(c: Class, n: nat): seq<nat>
    requires n >= 1
  {
    match c
    case NoKey => []
    case Keys => seq(n - 1, j requires 0 <= j => j + 1)
    case Pairs => seq(n / 2, j requires 0 <= j => 2 * j + 1)
    case Script => [3]
    case _ => [1]
  }

  /** The tail of a command whose remaining arguments need no inspection. */
  lemma {:induction false} WalkRest(c: Class, argv: seq<seq<byte>>, i: nat)
    requires i < |argv| && (c == KeyAndAny || c == Script)
    ensures Walk(c, argv, ARGN, i) == Stops([], |argv| - 1)
    decreases |argv| - i
  {
    if i + 1 < |argv| {
      WalkRest(c, argv, i + 1);
      assert [] + Walk(c, argv, ARGN, i + 1).keys == [];
    }
  }

  lemma {:induction false} WalkKeys(argv: seq<seq<byte>>, i: nat)
    requires i < |argv|
    ensures Walk(Keys, argv, KEY, i) == Stops(seq(|argv| - i, j requires 0 <= j => i + j), |argv| - 1)
    decreases |argv| - i
  {
    if i + 1 < |argv| {
      WalkKeys(argv, i + 1);
    }
  }

  lemma {:induction false} WalkPairs(argv: seq<seq<byte>>, i: nat)
    requires i + 1 < |argv| && i % 2 == 1 && |argv| % 2 == 1
    ensures Walk(Pairs, argv, KEY, i) == Stops(OddFrom(argv, i), |argv| - 1)
    decreases |argv| - i
  {
    hide Walk;
    hide OddFrom;
    if i + 2 < |argv| {
      WalkPairs(argv, i + 2);
      var w := Walk(Pairs, argv, KEY, i + 2);
      assert [] + w.keys == w.keys;
      WalkOn(Pairs, argv, ARG1, KEY, i + 1);
      WalkOn(Pairs, argv, KEY, ARG1, i);
      OddStep(argv, i);
    } else {
      WalkEnds(Pairs, argv, ARG1, i + 1);
      WalkOn(Pairs, argv, KEY, ARG1, i);
      OddStep(argv, i);
      OddEnds(argv);
    }
  }

  lemma OddEnds(argv: seq<seq<byte>>)
    ensures OddFrom(argv, |argv|) == []
  {}

  lemma OddStep(argv: seq<seq<byte>>, i: nat)
    requires i + 2 <= |argv|
    ensures [i] + OddFrom(argv, i + 2) == OddFrom(argv, i)
  {
    var n := |argv| - i;
    assert n / 2 == (n - 2) / 2 + 1;
  }

  lemma WalkOn(c: Class, argv: seq<seq<byte>>, f: Field, g: Field, i: nat)
    requires i + 1 < |argv| && c != Script && NextField(c, f, |argv| - 1 - i, |argv|) == Then(g)
    requires Walk(c, argv, g, i + 1).Stops?
    ensures var w := Walk(c, argv, g, i + 1);
            Walk(c, argv, f, i) == Stops((if f == KEY then [i] else []) + w.keys, w.at)
  {}

  lemma WalkEnds(c: Class, argv: seq<seq<byte>>, f: Field, i: nat)
    requires i < |argv| && c != Script && NextField(c, f, |argv| - 1 - i, |argv|) == Stop
    ensures Walk(c, argv, f, i) == Stops(if f == KEY then [i] else [], i)
  {}

  /** Every second index from `i` to the end. */
  function OddFrom(argv: seq<seq<byte>>, i: nat): seq<nat>
    requires i <= |argv|
  {
    seq((|argv| - i) / 2, j requires 0 <= j => i + 2 * j)
  }

  /** From the name on: no key at all, no more input, or the walk from the second argument. */
  lemma WalkFromName(c: Class, argv: seq<seq<byte>>)
    requires argv != []
    ensures Walk(c, argv, REQ_TYPE, 0) ==
            if c == NoKey then Stops([], 0)
            else if |argv| == 1 then RunsOut
            else Walk(c, argv, if c == Script then ARG1 else KEY, 1)
  {
    if c != NoKey && |argv| > 1 {
      var w := Walk(c, argv, if c == Script then ARG1 else KEY, 1);
      if w.Stops? {
        assert [] + w.keys == w.keys;
      }
    }
  }

  lemma WalkFixed(c: Class, argv: seq<seq<byte>>)
    requires |argv| >= 2 && (c == KeyOnly || c == KeyAnd1 || c == KeyAnd2 || c == KeyAnd3 || c == Unclassed)
    ensures Walk(c, argv, KEY, 1) == if Admissible(c, argv) then Stops([1], |argv| - 1) else Refuses
  {
    if c == KeyAnd3 && |argv| == 5 {
      assert Walk(c, argv, ARG3, 4) == Stops([], 4);
      assert Walk(c, argv, ARG2, 3) == Stops([], 4);
      assert Walk(c, argv, ARG1, 2) == Stops([], 4);
    } else if c == KeyAnd2 && |argv| == 4 {
      assert Walk(c, argv, ARG2, 3) == Stops([], 3);
      assert Walk(c, argv, ARG1, 2) == Stops([], 3);
    }
  }

  lemma WalkAny(argv: seq<seq<byte>>)
    requires |argv| >= 2
    ensures Walk(KeyAndAny, argv, KEY, 1) == Stops([1], |argv| - 1)
  {
    if |argv| > 3 {
      WalkRest(KeyAndAny, argv, 3);
    }
    if |argv| > 2 {
      assert Walk(KeyAndAny, argv, ARG1, 2) == Stops([], |argv| - 1);
    }
  }

  lemma WalkScript(argv: seq<seq<byte>>)
    requires |argv| >= 2
    ensures Walk(Script, argv, ARG1, 1) == if Admissible(Script, argv) then Stops([3], |argv| - 1) else Refuses
  {
    if |argv| > 3 {
      if |argv| > 4 {
        WalkRest(Script, argv, 4);
      }
      assert Walk(Script, argv, KEY, 3) == Stops([3], |argv| - 1);
      if ScriptCountOk(argv[2]) {
        assert Walk(Script, argv, ARG2, 2) == Stops([3], |argv| - 1);
      }
    }
  }

  lemma WalkAllKeys(argv: seq<seq<byte>>)
    requires |argv| >= 2
    ensures Walk(Keys, argv, KEY, 1) == Stops(KeyIndexes(Keys, |argv|), |argv| - 1)
  {
    WalkKeys(argv, 1);
    assert KeyIndexes(Keys, |argv|) == seq(|argv| - 1, j requires 0 <= j => 1 + j);
  }

  lemma WalkAllPairs(argv: seq<seq<byte>>)
    requires |argv| >= 2
    ensures Walk(Pairs, argv, KEY, 1) ==
            if Admissible(Pairs, argv) then Stops(KeyIndexes(Pairs, |argv|), |argv| - 1) else Refuses
  {
    if |argv| == 2 {
      assert KeyIndexes(Pairs, 2) == [1];
    } else if |argv| % 2 == 1 {
      WalkPairs(argv, 1);
      assert KeyIndexes(Pairs, |argv|) == OddFrom(argv, 1);
    }
  }

  /** The walk accepts exactly the admissible argument lists, and then finds exactly the keys. */
  lemma WalkExact(c: Class, argv: seq<seq<byte>>)
    requires argv != []
    ensures Walk(c, argv, REQ_TYPE, 0) ==
            if c == NoKey then Stops([], 0)
            else if |argv| == 1 then RunsOut
            else if Admissible(c, argv) then Stops(KeyIndexes(c, |argv|), |argv| - 1)
            else Refuses
  {
    hide Walk;
    hide NextField;
    WalkFromName(c, argv);
    if c != NoKey && |argv| > 1 {
      match c
      case Keys => WalkAllKeys(argv);
      case Pairs => WalkAllPairs(argv);
      case Script => WalkScript(argv);
      case KeyAndAny => WalkAny(argv);
      case _ => WalkFixed(c, argv);
    }
  }

  lemma NoNameNoType()
    ensures TypeOf([]) == UNKNOWN
  {}

  /**
   The parser inverts the formatter: on the wire form of an argument list it reaches
   `done` on the last byte exactly when the list names a known command with an
   admissible arity (and, for a command without keys, nothing but the name); it then
   reports all the arguments and records exactly the key arguments.
   */
  lemma ParserInvertsFormatter(argv: seq<seq<byte>>)
    requires Fits(argv) && argv != []
    ensures var typ := TypeOf(argv[0]);
            var c := ClassOf(typ);
            var r := Execute(Wire(argv), INITIAL);
            (r.Accepted? && r.s.p == |Wire(argv)| - 1 <==>
               typ != UNKNOWN && Admissible(c, argv) && (c == NoKey ==> |argv| == 1)) &&
            (r.Accepted? && r.s.p == |Wire(argv)| - 1 ==>
               r.s.typ == typ && r.s.narg == |argv| && r.s.keys == KeysAt(argv, KeyIndexes(c, |argv|)))
  {
    hide TypeOf;
    hide ClassOf;
    hide Execute;
    hide Wire;
    hide Offset;
    ParseIsWalk(argv);
    OffsetEnds(argv);
    NoNameNoType();
    var typ := TypeOf(argv[0]);
    var c := ClassOf(typ);
    WalkExact(c, argv);
    if typ != UNKNOWN && c == NoKey {
      OffsetsGrow(argv);
      assert KeysAt(argv, []) == [];
    }
    EveryCommandHasAClass(typ);
    if typ != UNKNOWN && Admissible(c, argv) {
      assert [] + KeysAt(argv, KeyIndexes(c, |argv|)) == KeysAt(argv, KeyIndexes(c, |argv|));
    }
  }

  /** A command without keys that has further arguments is accepted before its last byte. */
  lemma OffsetsGrow(argv: seq<seq<byte>>)
    requires |argv| >= 1
    ensures Offset(argv, 1) == |Wire(argv)| <==> |argv| == 1
  {
    OffsetEnds(argv);
    if |argv| > 1 {
      BulkLocated(argv, 1);
    }
  }

  /** The slices at the recorded positions are the key arguments themselves. */
  lemma RecordedKeysAreArguments(argv: seq<seq<byte>>, j: nat)
    requires Fits(argv) && argv != []
    requires var c := ClassOf(TypeOf(argv[0])); Admissible(c, argv) && j < |KeyIndexes(c, |argv|)|
    ensures var i := KeyIndexes(ClassOf(TypeOf(argv[0])), |argv|)[j];
            var k := KeyAt(argv, i);
            1 <= i < |argv| && k.start <= k.end <= |Wire(argv)| && Wire(argv)[k.start..k.end] == argv[i]
  {
    hide TypeOf;
    hide ClassOf;
    KeySlice(argv, KeyIndexes(ClassOf(TypeOf(argv[0])), |argv|)[j]);
  }
}
