/**
 Replies of the Redis serialization protocol (sections "Simple strings", "Integers",
 "Bulk strings" and "Arrays" of the RESP specification), described three ways: an
 encoder, a recursive parser, and the resumable stack machine of read.cpp with its
 state written as a value. `Reader` is proved to be this machine.
 */
module Resp {
  import opened Bytes

  datatype Option<T> = None | Some(value: T)

  function Somes<T>(xs: seq<T>): (r: seq<Option<T>>)
    ensures |r| == |xs| && forall i :: 0 <= i < |xs| ==> r[i] == Some(xs[i])
  {
    seq(|xs|, i requires 0 <= i < |xs| => Some(xs[i]))
  }

  /** What the type byte of an item announces. */
  datatype Kind = KError | KStatus | KInteger | KString | KArray

  /**
   A complete reply. `NegArray` is the array object that the code builds for an
   element count below -1: it has no elements, only the negative count.
   */
  datatype Reply =
    | Str(s: seq<byte>)
    | Status(s: seq<byte>)
    | Error(s: seq<byte>)
    | Integer(i: int)
    | Nil
    | Arr(elems: seq<Reply>)
    | NegArray(count: int)

  datatype ReadError = BadType(c: byte) | TooDeep

  /** Arrays may be opened on stack levels 0 to 7 of the nine-entry task stack. */
  const MAX_DEPTH: nat := 8

  function KindOf(c: byte): Option<Kind> {
    if c == MINUS then Some(KError)
    else if c == PLUS then Some(KStatus)
    else if c == COLON then Some(KInteger)
    else if c == DOLLAR then Some(KString)
    else if c == STAR then Some(KArray)
    else None
  }

  // ---------------------------------------------------------------- lines

  predicate BreakAt(s: seq<byte>, j: nat) {
    j + 1 < |s| && s[j] == CR && s[j + 1] == LF
  }

  /** The first position of a CR that is followed by a LF. */
  function Newline(s: seq<byte>): (r: Option<nat>)
    ensures r.Some? ==> r.value + 2 <= |s| && BreakAt(s, r.value)
    ensures r.Some? ==> forall j: nat :: j < r.value ==> !BreakAt(s, j)
    ensures r.None? ==> forall j: nat :: !BreakAt(s, j)
    decreases |s|
  {
    if |s| < 2 then None
    else if BreakAt(s, 0) then Some(0)
    else
      assert forall j: nat :: BreakAt(s, j) ==> j > 0 && BreakAt(s[1..], j - 1);
      match Newline(s[1..])
      case None => None
      case Some(i) => Some(i + 1)
  }

  lemma NewlineUnique(s: seq<byte>, i: nat)
    requires BreakAt(s, i)
    requires forall j: nat :: j < i ==> !BreakAt(s, j)
    ensures Newline(s) == Some(i)
  {}

  lemma NewlineExtends(s: seq<byte>, t: seq<byte>)
    requires Newline(s).Some?
    ensures Newline(s + t) == Newline(s)
  {
    var i := Newline(s).value;
    forall j: nat | j < i
      ensures !BreakAt(s + t, j)
    {
      assert !BreakAt(s, j);
    }
    NewlineUnique(s + t, i);
  }

  predicate EndsInCr(s: seq<byte>) {
    s != [] && s[|s| - 1] == CR
  }

  /** readLongLong after the sign: digits up to the first CR, or -1 at any other byte. */
  function Digits(s: seq<byte>, v: int): int
    requires EndsInCr(s)
    decreases |s|
  {
    if s[0] == CR then v
    else if IsDigit(s[0]) then Digits(s[1..], v * 10 + DigitVal(s[0]))
    else -1
  }

  function Negated(d: int): int {
    if d == -1 then -1 else -d
  }

  /** The number at the start of a line; -1 also stands for anything that is not a number. */
  function LongLong(s: seq<byte>): int
    requires EndsInCr(s)
  {
    if s[0] == MINUS then Negated(Digits(s[1..], 0))
    else if s[0] == PLUS then Digits(s[1..], 0)
    else Digits(s, 0)
  }

  // ---------------------------------------------------------------- one item

  /** The outcome of reading what follows a type byte. */
  datatype Scanned =
    | Need                               // the bytes are not all there yet
    | Whole(reply: Reply, used: nat)     // a complete value
    | Open(count: nat, used: nat)        // an array header with elements to come

  /** The number on the line that ends at the line break `i`. */
  function Number(b: seq<byte>, i: nat): int
    requires BreakAt(b, i)
  {
    LongLong(b[..i + 1])
  }

  function BulkBody(b: seq<byte>, start: nat, n: int): (r: Scanned)
    requires start <= |b|
    ensures r.Whole? ==> start <= r.used <= |b|
    ensures !r.Open?
  {
    if n < 0 then Whole(Nil, start)
    else if start + n + 2 <= |b| then Whole(Str(b[start..start + n]), start + n + 2)
    else Need
  }

  function ArrayHeader(n: int, used: nat): (r: Scanned)
    ensures r.Whole? ==> r.used == used
    ensures r.Open? ==> r.used == used && r.count > 0
    ensures !r.Need?
  {
    if n == -1 then Whole(Nil, used)
    else if n > 0 then Open(n, used)
    else if n == 0 then Whole(Arr([]), used)
    else Whole(NegArray(n), used)
  }

  function Scan(kind: Kind, b: seq<byte>): (r: Scanned)
    ensures r.Whole? ==> 2 <= r.used <= |b|
    ensures r.Open? ==> 2 <= r.used <= |b| && r.count > 0
  {
    match Newline(b)
    case None => Need
    case Some(i) =>
      match kind
      case KStatus => Whole(Status(b[..i]), i + 2)
      case KError => Whole(Error(b[..i]), i + 2)
      case KInteger => Whole(Integer(Number(b, i)), i + 2)
      case KString => BulkBody(b, i + 2, Number(b, i))
      case KArray => ArrayHeader(Number(b, i), i + 2)
  }

  lemma ScanExtends(kind: Kind, b: seq<byte>, t: seq<byte>)
    requires !Scan(kind, b).Need?
    ensures Scan(kind, b + t) == Scan(kind, b)
  {
    NewlineExtends(b, t);
    var i := Newline(b).value;
    assert (b + t)[..i] == b[..i];
    assert (b + t)[..i + 1] == b[..i + 1];
    var n := Number(b, i);
    if kind == KString && n >= 0 {
      assert (b + t)[i + 2..i + 2 + n] == b[i + 2..i + 2 + n];
    }
  }

  // ---------------------------------------------------------------- recursive parser

  datatype Parse<T> = Parsed(value: T, rest: seq<byte>) | Short | Wrong(error: ReadError)

  function ParseReply(b: seq<byte>, depth: nat): (r: Parse<Reply>)
    ensures r.Parsed? ==> |r.rest| < |b|
    decreases |b|, 0
  {
    if b == [] then Short
    else
      match KindOf(b[0])
      case None => Wrong(BadType(b[0]))
      case Some(kind) =>
        if kind == KArray && depth == MAX_DEPTH then Wrong(TooDeep)
        else
          match Scan(kind, b[1..])
          case Need => Short
          case Whole(v, used) => Parsed(v, b[1..][used..])
          case Open(n, used) =>
            match ParseMany(b[1..][used..], n, depth + 1)
            case Parsed(vs, rest) => Parsed(Arr(vs), rest)
            case Short => Short
            case Wrong(e) => Wrong(e)
  }

  function ParseMany(b: seq<byte>, n: nat, depth: nat): (r: Parse<seq<Reply>>)
    ensures r.Parsed? ==> |r.rest| <= |b| && |r.value| == n
    decreases |b|, 1, n
  {
    if n == 0 then Parsed([], b)
    else
      match ParseReply(b, depth)
      case Short => Short
      case Wrong(e) => Wrong(e)
      case Parsed(v, rest) =>
        match ParseMany(rest, n - 1, depth)
        case Short => Short
        case Wrong(e) => Wrong(e)
        case Parsed(vs, rest') => Parsed([v] + vs, rest')
  }

  /** What reading a whole byte string amounts to: the replies, and the error that ended it. */
  datatype Transcript = Transcript(replies: seq<Reply>, error: Option<ReadError>)

  function Prefixed(v: Reply, t: Transcript): Transcript {
    Transcript([v] + t.replies, t.error)
  }

  function ParseStream(b: seq<byte>): Transcript
    decreases |b|
  {
    match ParseReply(b, 0)
    case Short => Transcript([], None)
    case Wrong(e) => Transcript([], Some(e))
    case Parsed(v, rest) => Prefixed(v, ParseStream(rest))
  }

  // ---------------------------------------------------------------- stack machine

  /** An array under construction: `done` holds the elements delivered so far. */
  datatype Frame = Frame(count: nat, done: seq<Reply>)

  /** `frames` are the tasks below the current one; `kind` is the current task's type if read. */
  datatype State = State(frames: seq<Frame>, kind: Option<Kind>)

  const START := State([], None)

  predicate Good(frames: seq<Frame>) {
    |frames| <= MAX_DEPTH &&
    forall i :: 0 <= i < |frames| ==> |frames[i].done| < frames[i].count
  }

  /** Hands a complete value to the innermost open array, closing every array this fills. */
  function Deliver(frames: seq<Frame>, v: Reply): (r: (seq<Frame>, Option<Reply>))
    ensures Good(frames) ==> Good(r.0)
    ensures r.1.Some? ==> r.0 == []
    ensures |r.0| <= |frames|
  {
    if frames == [] then ([], Some(v))
    else
      var rest, top := frames[..|frames| - 1], frames[|frames| - 1];
      var done := top.done + [v];
      if |done| == top.count then Deliver(rest, Arr(done))
      else (rest + [Frame(top.count, done)], None)
  }

  datatype Stepped =
    | Wait
    | Fail(error: ReadError)
    | Go(state: State, used: nat, emitted: Option<Reply>)

  function Step(st: State, b: seq<byte>): (r: Stepped)
    ensures r.Go? ==> 1 <= r.used <= |b|
    ensures r.Go? && Good(st.frames) ==> Good(r.state.frames)
    ensures r.Go? && r.emitted.Some? ==> r.state == START
  {
    match st.kind
    case None =>
      if b == [] then Wait
      else
        (match KindOf(b[0])
         case None => Fail(BadType(b[0]))
         case Some(k) => Go(State(st.frames, Some(k)), 1, None))
    case Some(kind) =>
      if kind == KArray && |st.frames| == MAX_DEPTH then Fail(TooDeep)
      else
        match Scan(kind, b)
        case Need => Wait
        case Whole(v, used) =>
          var (frames, emitted) := Deliver(st.frames, v);
          Go(State(frames, None), used, emitted)
        case Open(n, used) => Go(State(st.frames + [Frame(n, [])], None), used, None)
  }

  datatype Outcome =
    | Stuck(state: State, rest: seq<byte>, out: seq<Reply>)
    | Failed(error: ReadError, out: seq<Reply>)

  function Emit(e: Option<Reply>): seq<Reply> {
    if e.Some? then [e.value] else []
  }

  function After(out: seq<Reply>, r: Outcome): Outcome {
    match r
    case Stuck(st, rest, o) => Stuck(st, rest, out + o)
    case Failed(e, o) => Failed(e, out + o)
  }

  /** Runs the machine until it needs more bytes or fails. */
  function Run(st: State, b: seq<byte>): Outcome
    decreases |b|
  {
    match Step(st, b)
    case Wait => Stuck(st, b, [])
    case Fail(e) => Failed(e, [])
    case Go(st', used, emitted) => After(Emit(emitted), Run(st', b[used..]))
  }

  // ---------------------------------------------------------------- chunk independence

  lemma StepExtends(st: State, b: seq<byte>, t: seq<byte>)
    requires !Step(st, b).Wait?
    ensures Step(st, b + t) == Step(st, b)
  {
    match st.kind
    case None =>
      assert (b + t)[0] == b[0];
    case Some(kind) =>
      if !(kind == KArray && |st.frames| == MAX_DEPTH) {
        ScanExtends(kind, b, t);
      }
  }

  lemma AfterAfter(o1: seq<Reply>, o2: seq<Reply>, r: Outcome)
    ensures After(o1, After(o2, r)) == After(o1 + o2, r)
  {
    assert o1 + (o2 + r.out) == (o1 + o2) + r.out;
  }

  lemma AfterNothing(r: Outcome)
    ensures After([], r) == r
  {
    assert [] + r.out == r.out;
  }

  /** Continuing after more bytes have arrived. */
  function Resume(r: Outcome, t: seq<byte>): Outcome {
    match r
    case Failed(e, o) => Failed(e, o)
    case Stuck(st, rest, o) => After(o, Run(st, rest + t))
  }

  lemma ResumeAfter(out: seq<Reply>, r: Outcome, t: seq<byte>)
    ensures Resume(After(out, r), t) == After(out, Resume(r, t))
  {
    hide Run;
    if r.Stuck? {
      AfterAfter(out, r.out, Run(r.state, r.rest + t));
    }
  }

  lemma RunGoes(st: State, b: seq<byte>)
    requires Step(st, b).Go?
    ensures var r := Step(st, b);
            Run(st, b) == After(Emit(r.emitted), Run(r.state, b[r.used..]))
  {}

  /** Stopping for more bytes and resuming is the same as having had all the bytes. */
  lemma {:induction false} RunResumes(st: State, b: seq<byte>, t: seq<byte>)
    ensures Run(st, b + t) == Resume(Run(st, b), t)
    decreases |b|
  {
    hide Step;
    var r := Step(st, b);
    if r.Wait? {
      AfterNothing(Run(st, b + t));
    } else {
      StepExtends(st, b, t);
      if r.Go? {
        var rest := b[r.used..];
        RunResumes(r.state, rest, t);
        RunGoes(st, b);
        RunGoes(st, b + t);
        hide Run;
        assert (b + t)[r.used..] == rest + t;
        ResumeAfter(Emit(r.emitted), Run(r.state, rest), t);
      }
    }
  }

  function Concat(chunks: seq<seq<byte>>): seq<byte> {
    if chunks == [] then [] else Concat(chunks[..|chunks| - 1]) + chunks[|chunks| - 1]
  }

  /** Feeding chunk after chunk, draining every available reply after each. */
  function Feeds(chunks: seq<seq<byte>>): Outcome {
    if chunks == [] then Stuck(START, [], [])
    else Resume(Feeds(chunks[..|chunks| - 1]), chunks[|chunks| - 1])
  }

  lemma {:induction false} FeedsAreRun(chunks: seq<seq<byte>>)
    ensures Feeds(chunks) == Run(START, Concat(chunks))
  {
    if chunks != [] {
      FeedsAreRun(chunks[..|chunks| - 1]);
      RunResumes(START, Concat(chunks[..|chunks| - 1]), chunks[|chunks| - 1]);
    }
  }

  /** Any two ways of cutting the same bytes give the same replies and the same error. */
  lemma ChunkIndependence(c1: seq<seq<byte>>, c2: seq<seq<byte>>)
    requires Concat(c1) == Concat(c2)
    ensures Feeds(c1) == Feeds(c2)
  {
    FeedsAreRun(c1);
    FeedsAreRun(c2);
  }

  // ---------------------------------------------------------------- refinement

  function TranscriptOf(r: Outcome): Transcript {
    match r
    case Stuck(_, _, out) => Transcript(out, None)
    case Failed(e, out) => Transcript(out, Some(e))
  }

  /** What running the machine on `b` must do when the recursive parser says `p`. */
  ghost predicate Follows(frames: seq<Frame>, b: seq<byte>, p: Parse<Reply>, base: seq<Frame>) {
    var r := Run(State(frames, None), b);
    match p
    case Short => r.Stuck? && r.out == []
    case Wrong(e) => r == Failed(e, [])
    case Parsed(v, rest) =>
      var (left, emitted) := Deliver(base, v);
      r == After(Emit(emitted), Run(State(left, None), rest))
  }

  function Closed(done: seq<Reply>, p: Parse<seq<Reply>>): Parse<Reply> {
    match p
    case Short => Short
    case Wrong(e) => Wrong(e)
    case Parsed(vs, rest) => Parsed(Arr(done + vs), rest)
  }

  lemma TwoSteps(frames: seq<Frame>, b: seq<byte>)
    requires b != [] && KindOf(b[0]).Some?
    ensures Run(State(frames, None), b) == Run(State(frames, KindOf(b[0])), b[1..])
  {
    AfterNothing(Run(State(frames, KindOf(b[0])), b[1..]));
  }

  /** One value: the machine with `frames` open does what the parser does at that depth. */
  lemma {:induction false} RunFollowsReply(frames: seq<Frame>, b: seq<byte>)
    requires Good(frames)
    ensures Follows(frames, b, ParseReply(b, |frames|), frames)
    decreases |b|, 0
  {
    if b != [] && KindOf(b[0]).Some? {
      TwoSteps(frames, b);
      var kind := KindOf(b[0]).value;
      if !(kind == KArray && |frames| == MAX_DEPTH) {
        match Scan(kind, b[1..])
        case Need =>
        case Whole(v, used) =>
        case Open(n, used) =>
          var inner := frames + [Frame(n, [])];
          var b' := b[1..][used..];
          AfterNothing(Run(State(inner, None), b'));
          RunFollowsMany(frames, n, [], b');
          var p := ParseMany(b', n, |frames| + 1);
          if p.Parsed? {
            assert [] + p.value == p.value;
          }
      }
    }
  }

  /** The rest of an array: `done` is delivered, the remaining elements are read from `b`. */
  lemma {:induction false} RunFollowsMany(base: seq<Frame>, count: nat, done: seq<Reply>, b: seq<byte>)
    requires Good(base) && |base| < MAX_DEPTH && |done| < count
    ensures Follows(base + [Frame(count, done)], b,
                    Closed(done, ParseMany(b, count - |done|, |base| + 1)), base)
    decreases |b|, 1
  {
    var frames := base + [Frame(count, done)];
    RunFollowsReply(frames, b);
    var p := ParseReply(b, |frames|);
    if p.Parsed? {
      var v, rest := p.value, p.rest;
      assert frames[..|frames| - 1] == base;
      if |done| + 1 == count {
        assert ParseMany(rest, 0, |base| + 1) == Parsed([], rest);
        assert [v] + [] == [v];
      } else {
        AfterNothing(Run(State(base + [Frame(count, done + [v])], None), rest));
        RunFollowsMany(base, count, done + [v], rest);
        var q := ParseMany(rest, count - |done| - 1, |base| + 1);
        if q.Parsed? {
          assert done + [v] + q.value == done + ([v] + q.value);
        }
      }
    }
  }

  /** The stack machine and the recursive parser agree on every byte string. */
  lemma {:induction false} MachineRefinesParser(b: seq<byte>)
    ensures TranscriptOf(Run(START, b)) == ParseStream(b)
    decreases |b|
  {
    RunFollowsReply([], b);
    var p := ParseReply(b, 0);
    if p.Parsed? {
      MachineRefinesParser(p.rest);
    }
  }

  // ---------------------------------------------------------------- round trip

  /** Nested array levels of a reply. */
  function Height(v: Reply): nat {
    if v.Arr? then 1 + MaxHeight(v.elems) else 0
  }

  function MaxHeight(vs: seq<Reply>): nat {
    if vs == [] then 0
    else
      var h, m := Height(vs[0]), MaxHeight(vs[1..]);
      if h > m then h else m
  }

  /** Replies a server can send: no line break inside a line, no negative array. */
  predicate Sendable(v: Reply) {
    match v
    case Status(s) => Newline(s).None?
    case Error(s) => Newline(s).None?
    case Arr(elems) => forall e :: e in elems ==> Sendable(e)
    case NegArray(_) => false
    case _ => true
  }

  /** A line, its CR LF, and what comes after. */
  function Ended(line: seq<byte>, rest: seq<byte>): (b: seq<byte>)
    ensures |b| == |line| + 2 + |rest|
  {
    line + CRLF + rest
  }

  function Bulk(s: seq<byte>): seq<byte> {
    [DOLLAR] + Ended(Dec(|s|), Ended(s, []))
  }

  function Encode(v: Reply): (b: seq<byte>)
    requires Sendable(v)
    ensures b != []
  {
    match v
    case Str(s) => Bulk(s)
    case Status(s) => [PLUS] + Ended(s, [])
    case Error(s) => [MINUS] + Ended(s, [])
    case Integer(i) => [COLON] + Ended(SDec(i), [])
    case Nil => [DOLLAR] + Ended(SDec(-1), [])
    case Arr(elems) => [STAR] + Ended(Dec(|elems|), EncodeAll(elems))
  }

  function EncodeAll(vs: seq<Reply>): seq<byte>
    requires forall v :: v in vs ==> Sendable(v)
  {
    if vs == [] then [] else Encode(vs[0]) + EncodeAll(vs[1..])
  }

  lemma EndedAppend(line: seq<byte>, rest: seq<byte>, t: seq<byte>)
    ensures Ended(line, rest) + t == Ended(line, rest + t)
  {}

  lemma EndedParts(line: seq<byte>, t: seq<byte>)
    ensures Ended(line, t)[..|line|] == line
    ensures Ended(line, t)[..|line| + 1] == line + [CR]
    ensures Ended(line, t)[|line| + 2..] == t
  {}

  lemma SliceOfRest(b: seq<byte>, h: nat, n: nat)
    requires h + n <= |b|
    ensures b[h..h + n] == b[h..][..n] && b[h + n..] == b[h..][n..]
  {}

  lemma LineFound(line: seq<byte>, t: seq<byte>)
    requires Newline(line).None?
    ensures Newline(Ended(line, t)) == Some(|line|)
  {
    var b := Ended(line, t);
    forall j: nat | j < |line|
      ensures !BreakAt(b, j)
    {
      assert !BreakAt(line, j);
      if j < |line| - 1 {
        assert b[j] == line[j] && b[j + 1] == line[j + 1];
      } else {
        assert b[j + 1] == CR;
      }
    }
    NewlineUnique(b, |line|);
  }

  /** The accumulator after reading `pre` is its value, so reading on gives the value of all. */
  lemma {:induction false} DigitsFrom(pre: seq<byte>, s: seq<byte>, v: nat)
    requires AllDigits(pre) && AllDigits(s) && v == DecVal(pre)
    ensures AllDigits(pre + s) && Digits(s + [CR], v) == DecVal(pre + s)
    decreases |s|
  {
    if s == [] {
      assert pre + s == pre;
    } else {
      assert (s + [CR])[1..] == s[1..] + [CR];
      DecValSnoc(pre, s[0]);
      DigitsFrom(pre + [s[0]], s[1..], v * 10 + DigitVal(s[0]));
      assert pre + [s[0]] + s[1..] == pre + s;
    }
  }

  lemma LongLongReads(n: int)
    ensures LongLong(SDec(n) + [CR]) == n
  {
    if n < 0 {
      NaturalReads(-n);
      assert (SDec(n) + [CR])[1..] == Dec(-n) + [CR];
    } else {
      NaturalReads(n);
      assert (Dec(n) + [CR])[0] == Dec(n)[0];
      assert IsDigit(Dec(n)[0]);
    }
  }

  lemma NaturalReads(m: nat)
    ensures Digits(Dec(m) + [CR], 0) == m
  {
    DigitsFrom([], Dec(m), 0);
    assert [] + Dec(m) == Dec(m);
    DecRoundTrip(m);
  }

  lemma NumeralHasNoNewline(n: int)
    ensures Newline(SDec(n)).None?
  {
    var s := SDec(n);
    var d := Dec(if n < 0 then -n else n);
    forall j: nat
      ensures !BreakAt(s, j)
    {
      if j + 1 < |s| && n < 0 && j > 0 {
        assert s[j] == d[j - 1];
      }
    }
  }

  /** A line holding the numeral of `n`, read back. */
  lemma NumberLine(n: int, t: seq<byte>)
    ensures Newline(Ended(SDec(n), t)) == Some(|SDec(n)|)
    ensures Number(Ended(SDec(n), t), |SDec(n)|) == n
    ensures Ended(SDec(n), t)[|SDec(n)| + 2..] == t
  {
    NumeralHasNoNewline(n);
    LineFound(SDec(n), t);
    EndedParts(SDec(n), t);
    LongLongReads(n);
  }

  lemma ScanBulk(s: seq<byte>, t: seq<byte>)
    ensures var b := Ended(SDec(|s|), Ended(s, t));
            var used := |SDec(|s|)| + 2 + |s| + 2;
            Scan(KString, b) == Whole(Str(s), used) && b[used..] == t
  {
    var tail := Ended(s, t);
    var b := Ended(SDec(|s|), tail);
    var i := |SDec(|s|)|;
    NumberLine(|s|, tail);
    EndedParts(s, t);
    SliceOfRest(b, i + 2, |s|);
    SliceOfRest(b, i + 2, |s| + 2);
  }

  /** `b` starts with a type byte other than the array's, and the value it announces is `v`. */
  ghost predicate ReadsAs(b: seq<byte>, v: Reply, t: seq<byte>) {
    b != [] && KindOf(b[0]).Some? && KindOf(b[0]).value != KArray &&
    var r := Scan(KindOf(b[0]).value, b[1..]);
    r.Whole? && r.reply == v && b[1..][r.used..] == t
  }

  lemma ReadScalar(v: Reply, t: seq<byte>)
    requires Sendable(v) && !v.Arr?
    ensures ReadsAs(Encode(v) + t, v, t)
  {
    match v
    case Str(s) => ReadBulk(s, t);
    case Status(s) => ReadLine(PLUS, s, t);
    case Error(s) => ReadLine(MINUS, s, t);
    case Integer(i) => ReadNumber(COLON, i, t);
    case Nil => ReadNumber(DOLLAR, -1, t);
  }

  lemma TypeByte(c: byte, body: seq<byte>, t: seq<byte>)
    ensures [c] + body + t == [c] + (body + t)
    ensures ([c] + body + t)[0] == c && ([c] + body + t)[1..] == body + t
  {}

  lemma ReadBulk(s: seq<byte>, t: seq<byte>)
    ensures ReadsAs(Bulk(s) + t, Str(s), t)
  {
    var body := Ended(Dec(|s|), Ended(s, []));
    TypeByte(DOLLAR, body, t);
    EndedAppend(Dec(|s|), Ended(s, []), t);
    EndedAppend(s, [], t);
    assert [] + t == t;
    ScanBulk(s, t);
  }

  lemma ScanHeader(n: nat, body: seq<byte>)
    ensures var b := Ended(SDec(n), body);
            var used := |SDec(n)| + 2;
            Scan(KArray, b) == (if n == 0 then Whole(Arr([]), used) else Open(n, used)) && b[used..] == body
  {
    NumberLine(n, body);
  }

  /** The header of an array opens it, or completes it when it has no elements. */
  lemma ReadHeader(vs: seq<Reply>, t: seq<byte>)
    requires forall w :: w in vs ==> Sendable(w)
    ensures var b := Encode(Arr(vs)) + t;
            var used := |SDec(|vs|)| + 2;
            b != [] && KindOf(b[0]) == Some(KArray) &&
            Scan(KArray, b[1..]) == (if vs == [] then Whole(Arr([]), used) else Open(|vs|, used)) &&
            b[1..][used..] == EncodeAll(vs) + t
  {
    TypeByte(STAR, Ended(Dec(|vs|), EncodeAll(vs)), t);
    EndedAppend(Dec(|vs|), EncodeAll(vs), t);
    ScanHeader(|vs|, EncodeAll(vs) + t);
  }

  lemma ReadLine(c: byte, s: seq<byte>, t: seq<byte>)
    requires (c == PLUS || c == MINUS) && Newline(s).None?
    ensures ReadsAs([c] + Ended(s, []) + t, if c == PLUS then Status(s) else Error(s), t)
  {
    EndedAppend(s, [], t);
    assert [] + t == t;
    assert ([c] + Ended(s, []) + t)[1..] == Ended(s, t);
    LineFound(s, t);
    EndedParts(s, t);
  }

  lemma ReadNumber(c: byte, n: int, t: seq<byte>)
    requires c == COLON || (c == DOLLAR && n < 0)
    ensures ReadsAs([c] + Ended(SDec(n), []) + t, if c == COLON then Integer(n) else Nil, t)
  {
    EndedAppend(SDec(n), [], t);
    assert [] + t == t;
    assert ([c] + Ended(SDec(n), []) + t)[1..] == Ended(SDec(n), t);
    NumberLine(n, t);
  }

  /**
   Decoding an encoded reply: it comes back, with the following bytes untouched,
   exactly when its arrays fit on the stack; otherwise the depth error is raised.
   */
  lemma {:induction false} ParseEncoded(v: Reply, t: seq<byte>, depth: nat)
    requires Sendable(v) && depth <= MAX_DEPTH
    ensures ParseReply(Encode(v) + t, depth) ==
            if Height(v) + depth <= MAX_DEPTH then Parsed(v, t) else Wrong(TooDeep)
    decreases v, 1
  {
    if v.Arr? {
      ParseArray(v.elems, t, depth);
      if depth < MAX_DEPTH {
        ParseManyEncoded(v.elems, t, depth + 1);
        assert [] + v.elems == v.elems;
      }
    } else {
      ParseScalar(v, t, depth);
    }
  }

  lemma ParseScalar(v: Reply, t: seq<byte>, depth: nat)
    requires Sendable(v) && !v.Arr?
    ensures ParseReply(Encode(v) + t, depth) == Parsed(v, t)
  {
    ReadScalar(v, t);
    ReadsAsParses(Encode(v) + t, v, t, depth);
  }

  lemma ReadsAsParses(b: seq<byte>, v: Reply, t: seq<byte>, depth: nat)
    requires ReadsAs(b, v, t)
    ensures ParseReply(b, depth) == Parsed(v, t)
  {}

  lemma ParseArray(vs: seq<Reply>, t: seq<byte>, depth: nat)
    requires forall w :: w in vs ==> Sendable(w)
    ensures ParseReply(Encode(Arr(vs)) + t, depth) ==
            if depth == MAX_DEPTH then Wrong(TooDeep)
            else Closed([], ParseMany(EncodeAll(vs) + t, |vs|, depth + 1))
  {
    ReadHeader(vs, t);
    ParseHeader(Encode(Arr(vs)) + t, depth, |vs|, EncodeAll(vs) + t);
  }

  lemma ParseHeader(b: seq<byte>, depth: nat, n: nat, body: seq<byte>)
    requires b != [] && KindOf(b[0]) == Some(KArray) && !Scan(KArray, b[1..]).Need?
    requires var r := Scan(KArray, b[1..]);
             b[1..][r.used..] == body && r == if n == 0 then Whole(Arr([]), r.used) else Open(n, r.used)
    ensures ParseReply(b, depth) ==
            if depth == MAX_DEPTH then Wrong(TooDeep)
            else Closed([], ParseMany(body, n, depth + 1))
  {
    var p := ParseMany(body, n, depth + 1);
    if p.Parsed? {
      assert [] + p.value == p.value;
    }
  }

  lemma {:induction false} ParseManyEncoded(vs: seq<Reply>, t: seq<byte>, depth: nat)
    requires (forall w :: w in vs ==> Sendable(w)) && depth <= MAX_DEPTH
    ensures ParseMany(EncodeAll(vs) + t, |vs|, depth) ==
            if MaxHeight(vs) + depth <= MAX_DEPTH then Parsed(vs, t) else Wrong(TooDeep)
    decreases vs, 0
  {
    hide Encode;
    hide ParseReply;
    hide Height;
    hide Sendable;
    if vs == [] {
      assert EncodeAll(vs) + t == t;
    } else {
      assert EncodeAll(vs) + t == Encode(vs[0]) + (EncodeAll(vs[1..]) + t);
      ParseEncoded(vs[0], EncodeAll(vs[1..]) + t, depth);
      ParseManyEncoded(vs[1..], t, depth);
      assert [vs[0]] + vs[1..] == vs;
    }
  }

  /** Whatever way the encodings of a list of replies arrive, exactly those replies come out. */
  lemma FedRepliesComeBack(vs: seq<Reply>, chunks: seq<seq<byte>>)
    requires forall v :: v in vs ==> Sendable(v) && Height(v) <= MAX_DEPTH
    requires Concat(chunks) == EncodeAll(vs)
    ensures TranscriptOf(Feeds(chunks)) == Transcript(vs, None)
  {
    FeedsAreRun(chunks);
    MachineRefinesParser(EncodeAll(vs));
    StreamEncoded(vs);
  }

  lemma {:induction false} StreamEncoded(vs: seq<Reply>)
    requires forall v :: v in vs ==> Sendable(v) && Height(v) <= MAX_DEPTH
    ensures ParseStream(EncodeAll(vs)) == Transcript(vs, None)
  {
    if vs != [] {
      ParseEncoded(vs[0], EncodeAll(vs[1..]), 0);
      StreamEncoded(vs[1..]);
      assert [vs[0]] + vs[1..] == vs;
    }
  }
}
