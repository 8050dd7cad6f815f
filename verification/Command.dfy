/**
 The command parser of command.cpp: a finite automaton over the bytes of a formatted
 command that finds the command type and the positions of the keys.
 Its 27 states are START, NARG, NARG_LF and four states for each of six fields.
 */
module Command {
  import opened Bytes
  import opened CommandTable
  import opened Resp

  /** A key occupies the bytes start..end of the command. */
  datatype KeyPos = KeyPos(start: nat, end: nat)

  datatype Field = REQ_TYPE | KEY | ARG1 | ARG2 | ARG3 | ARGN

  datatype Sw = START | NARG | NARG_LF | LEN(f: Field) | LEN_LF(f: Field) | DATA(f: Field) | DATA_LF(f: Field)

  /** The parser's local variables; `token` is -1 when it is NULL. */
  datatype Fsa = Fsa(sw: Sw, p: nat, token: int, rlen: nat, rnarg: nat, narg: nat, typ: CmdType, keys: seq<KeyPos>)

  const INITIAL := Fsa(START, 0, -1, 0, 0, 0, UNKNOWN, [])

  const TWO_32: nat := 0x1_0000_0000

  /** The value a uint32_t holds after an assignment. */
  function U32(n: nat): (r: nat)
    ensures r < TWO_32
    ensures n < TWO_32 ==> r == n
  {
    n % TWO_32
  }

  // ------------------------------------------------------------ the transition function

  /** What follows a field, decided at its LF: the command ends, another field starts, or an error. */
  datatype Turn = Stop | Then(f: Field) | Refuse

  function Exactly(n: nat, rnarg: nat, next: Turn): Turn {
    if rnarg == n then next else Refuse
  }

  function UnlessDone(rnarg: nat, next: Turn): Turn {
    if rnarg == 0 then Stop else next
  }

  function NextField(c: Class, f: Field, rnarg: nat, narg: nat): Turn {
    match f
    case REQ_TYPE =>
      if c == NoKey then Stop else if c == Script then Then(ARG1) else Then(KEY)
    case KEY =>
      (match c
       case KeyOnly => Exactly(0, rnarg, Stop)
       case KeyAnd1 => Exactly(1, rnarg, Then(ARG1))
       case KeyAnd2 => Exactly(2, rnarg, Then(ARG1))
       case KeyAnd3 => Exactly(3, rnarg, Then(ARG1))
       case KeyAndAny => UnlessDone(rnarg, Then(ARG1))
       case Keys => UnlessDone(rnarg, Then(KEY))
       case Pairs => UnlessDone(rnarg, if narg % 2 == 0 then Refuse else Then(ARG1))
       case Script => UnlessDone(rnarg, Then(ARGN))
       case _ => Refuse)
    case ARG1 =>
      (match c
       case KeyAnd1 => Exactly(0, rnarg, Stop)
       case KeyAnd2 => Exactly(1, rnarg, Then(ARG2))
       case KeyAnd3 => Exactly(2, rnarg, Then(ARG2))
       case KeyAndAny => UnlessDone(rnarg, Then(ARGN))
       case Script => if rnarg < 2 then Refuse else Then(ARG2)
       case Pairs => UnlessDone(rnarg, Then(KEY))
       case _ => Refuse)
    case ARG2 =>
      (match c
       case KeyAnd2 => Exactly(0, rnarg, Stop)
       case KeyAnd3 => Exactly(1, rnarg, Then(ARG3))
       case KeyAndAny => UnlessDone(rnarg, Then(ARGN))
       case Script => if rnarg < 1 then Refuse else Then(KEY)
       case _ => Refuse)
    case ARG3 =>
      (match c
       case KeyAnd3 => Exactly(0, rnarg, Stop)
       case KeyAndAny => UnlessDone(rnarg, Then(ARGN))
       case _ => Refuse)
    case ARGN =>
      if c == KeyAndAny || c == Script then UnlessDone(rnarg, Then(ARGN)) else Refuse
  }

  datatype Move = Next(s: Fsa) | Done(s: Fsa) | Bad

  /** The key count of EVAL and EVALSHA must be a number, and not zero in 32 bits. */
  predicate ScriptCountOk(arg: seq<byte>) {
    arg != [] && AllDigits(arg) && U32(DecVal(arg)) != 0
  }

  function StepNarg(s: Fsa, ch: byte): Move {
    if s.token == -1 then
      if ch != STAR then Bad else Next(s.(sw := NARG, p := s.p + 1, token := s.p, rnarg := 0))
    else if IsDigit(ch) then Next(s.(p := s.p + 1, rnarg := U32(s.rnarg * 10 + DigitVal(ch))))
    else if ch == CR then
      if s.rnarg == 0 then Bad else Next(s.(sw := NARG_LF, p := s.p + 1, token := -1, narg := s.rnarg))
    else Bad
  }

  /** The digits of a length line may be missing only for a key; a type must not be empty. */
  predicate LengthAccepted(s: Fsa, f: Field) {
    s.rnarg != 0 &&
    match f
    case REQ_TYPE => s.rlen != 0
    case KEY => true
    case _ => s.p - s.token > 1
  }

  function StepLen(s: Fsa, f: Field, ch: byte): Move {
    if s.token == -1 then
      if ch != DOLLAR then Bad else Next(s.(p := s.p + 1, token := s.p, rlen := 0))
    else if IsDigit(ch) then Next(s.(p := s.p + 1, rlen := U32(s.rlen * 10 + DigitVal(ch))))
    else if ch == CR && LengthAccepted(s, f) then
      Next(s.(sw := LEN_LF(f), p := s.p + 1, token := -1, rnarg := s.rnarg - 1))
    else Bad
  }

  /** The bytes of the field have been skipped and the cursor `m` is on their CR. */
  function AfterData(s: Fsa, f: Field, data: seq<byte>, m: nat): Move {
    var t := s.(sw := DATA_LF(f), p := m + 1, rlen := 0, token := -1);
    match f
    case REQ_TYPE => if TypeOf(data) == UNKNOWN then Bad else Next(t.(typ := TypeOf(data)))
    case KEY => Next(t.(keys := s.keys + [KeyPos(s.p, m)]))
    case ARG2 => if ClassOf(s.typ) == Script && !ScriptCountOk(data) then Bad else Next(t)
    case _ => Next(t)
  }

  function StepData(cmd: seq<byte>, s: Fsa, f: Field): Move {
    var m := s.p + s.rlen;
    if m >= |cmd| || cmd[m] != CR then Bad else AfterData(s, f, cmd[s.p..m], m)
  }

  function StepDataLf(s: Fsa, f: Field, ch: byte): Move {
    if ch != LF then Bad
    else
      match NextField(ClassOf(s.typ), f, s.rnarg, s.narg)
      case Stop => Done(s)
      case Then(g) => Next(s.(sw := LEN(g), p := s.p + 1))
      case Refuse => Bad
  }

  /** One turn of the parser's loop, with the increment of `p` at its end. */
  function Step(cmd: seq<byte>, s: Fsa): (r: Move)
    requires s.p < |cmd|
    ensures r.Next? ==> s.p < r.s.p <= |cmd|
  {
    var ch := cmd[s.p];
    match s.sw
    case START => StepNarg(s, ch)
    case NARG => StepNarg(s, ch)
    case NARG_LF => if ch == LF then Next(s.(sw := LEN(REQ_TYPE), p := s.p + 1)) else Bad
    case LEN(f) => StepLen(s, f, ch)
    case LEN_LF(f) => if ch == LF then Next(s.(sw := DATA(f), p := s.p + 1)) else Bad
    case DATA(f) => StepData(cmd, s, f)
    case DATA_LF(f) => StepDataLf(s, f, ch)
  }

  /**
   How a run ends: at `done` with the cursor on the last byte looked at, at `error`,
   or by running out of input, in which case the initial OK result stands with the keys found so far.
   */
  datatype Verdict = Accepted(s: Fsa) | Rejected | OutOfInput(s: Fsa)

  function Execute(cmd: seq<byte>, s: Fsa): Verdict
    requires s.p <= |cmd|
    decreases |cmd| - s.p
  {
    if s.p == |cmd| then OutOfInput(s)
    else
      match Step(cmd, s)
      case Next(t) => Execute(cmd, t)
      case Done(t) => Accepted(t)
      case Bad => Rejected
  }

  lemma RunsDry(cmd: seq<byte>, s: Fsa)
    requires s.p == |cmd|
    ensures Execute(cmd, s) == OutOfInput(s)
  {}

  /** redis_parse_cmd. */
  method ParseCmd(cmd: seq<byte>) returns (r: Verdict)
    ensures r == Execute(cmd, INITIAL)
  {
    var s := INITIAL;
    while s.p < |cmd|
      invariant s.p <= |cmd| && Execute(cmd, s) == Execute(cmd, INITIAL)
      decreases |cmd| - s.p
    {
      match Step(cmd, s)
      case Next(t) => s := t;
      case Done(t) => return Accepted(t);
      case Bad => return Rejected;
    }
    return OutOfInput(s);
  }

  /** The loop that reads the key count of a script, in 32 bits; None when it is not a number. */
  method ReadKeyCount(arg: seq<byte>) returns (nkey: Option<nat>)
    ensures (nkey.Some? && nkey.value != 0 && arg != []) <==> ScriptCountOk(arg)
  {
    var n := 0;
    var i := 0;
    while i < |arg|
      invariant 0 <= i <= |arg| && AllDigits(arg[..i]) && n == U32(DecVal(arg[..i]))
    {
      if !IsDigit(arg[i]) {
        return None;
      }
      DecValSnoc(arg[..i], arg[i]);
      assert arg[..i + 1] == arg[..i] + [arg[i]];
      WrapDigit(DecVal(arg[..i]), DigitVal(arg[i]));
      n := U32(n * 10 + DigitVal(arg[i]));
      i := i + 1;
    }
    assert arg[..i] == arg;
    return Some(n);
  }

  /** Wrapping at every digit or once at the end gives the same number. */
  lemma WrapDigit(a: nat, d: nat)
    ensures U32(U32(a) * 10 + d) == U32(a * 10 + d)
  {
    var q := a / TWO_32;
    assert a * 10 + d == (U32(a) * 10 + d) + TWO_32 * (q * 10);
    WrapMultiple(U32(a) * 10 + d, q * 10);
  }

  lemma {:induction false} WrapMultiple(x: nat, k: nat)
    ensures U32(x + TWO_32 * k) == U32(x)
  {
    if k > 0 {
      WrapMultiple(x, k - 1);
      assert x + TWO_32 * k == (x + TWO_32 * (k - 1)) + TWO_32;
    }
  }
}
