/**
 The reply protocol byte by byte (sections "Simple strings", "Errors", "Integers", "Bulk
 strings", "Arrays" and "Null arrays" of the RESP specification, and what read.cpp does with
 other lines): what the parser makes of every kind of line, said with the byte values.
 */
module RespBytes {
  import opened Bytes
  import opened Resp

  /** No line break inside the line. */
  predicate Unbroken(line: seq<byte>) {
    forall j :: 0 <= j < |line| - 1 ==> !(line[j] == 13 && line[j + 1] == 10)
  }

  predicate Decimal(s: seq<byte>) {
    forall i :: 0 <= i < |s| ==> 48 <= s[i] <= 57
  }

  function Value(s: seq<byte>): nat
    requires Decimal(s)
  {
    if s == [] then 0 else 10 * Value(s[..|s| - 1]) + (s[|s| - 1] as int - 48)
  }

  /** A line as a number line: a sign, digits, and what is not read as part of the number. */
  datatype Line = Line(sign: seq<byte>, digits: seq<byte>, tail: seq<byte>)

  function Text(l: Line): seq<byte> {
    l.sign + l.digits + l.tail
  }

  predicate Cut(l: Line) {
    (l.sign == [] || l.sign == [45] || l.sign == [43]) && Decimal(l.digits) && Unbroken(Text(l)) &&
    (l.tail != [] ==> !(48 <= l.tail[0] <= 57)) &&
    (l.sign == [] && l.digits == [] && l.tail != [] ==> l.tail[0] != 45 && l.tail[0] != 43)
  }

  /** The number on the line: -1 when something other than a CR follows the digits. */
  function NumberOn(l: Line): int
    requires Cut(l)
  {
    if l.tail != [] && l.tail[0] != 13 then -1
    else if l.sign == [45] then 0 - Value(l.digits)
    else Value(l.digits)
  }

  // ------------------------------------------------------------ lines

  lemma LineEnds(line: seq<byte>, rest: seq<byte>)
    requires Unbroken(line)
    ensures Newline(line + [13, 10] + rest) == Some(|line|)
    ensures (line + [13, 10] + rest)[..|line|] == line && (line + [13, 10] + rest)[|line| + 2..] == rest
    ensures (line + [13, 10] + rest)[..|line| + 1] == line + [13]
  {
    var b := line + [13, 10] + rest;
    assert b[|line|] == 13 && b[|line| + 1] == 10;
    forall j: nat | j < |line|
      ensures !BreakAt(b, j)
    {
      assert b[j] == line[j];
      if j < |line| - 1 {
        assert b[j + 1] == line[j + 1];
      }
    }
    NewlineUnique(b, |line|);
  }

  lemma FirstByte(c: byte, line: seq<byte>, rest: seq<byte>)
    ensures var b := [c] + line + [13, 10] + rest; b[0] == c && b[1..] == line + [13, 10] + rest
  {
    assert [c] + line + [13, 10] + rest == [c] + (line + [13, 10] + rest);
  }

  /** Digits are read up to the first CR, and make no number when another byte comes before it. */
  lemma {:induction false} DigitsRead(digits: seq<byte>, tail: seq<byte>, v: nat, done: seq<byte>)
    requires Decimal(digits) && Decimal(done) && v == Value(done) && tail != [] && !(48 <= tail[0] <= 57) && EndsInCr(tail)
    ensures EndsInCr(digits + tail) && Decimal(done + digits)
    ensures Digits(digits + tail, v) == if tail[0] == 13 then Value(done + digits) else -1
    decreases |digits|
  {
    if digits == [] {
      assert digits + tail == tail && done + digits == done;
    } else {
      var c := digits[0];
      assert (digits + tail)[1..] == digits[1..] + tail;
      assert (done + [c])[..|done|] == done;
      assert done + [c] + digits[1..] == done + digits;
      DigitsRead(digits[1..], tail, 10 * v + (c as int - 48), done + [c]);
    }
  }

  lemma TailEnds(tail: seq<byte>)
    ensures EndsInCr(tail + [13]) && (tail + [13])[0] == if tail == [] then 13 else tail[0]
  {}

  lemma UnsignedRead(digits: seq<byte>, tail: seq<byte>)
    requires Decimal(digits) && (tail != [] ==> !(48 <= tail[0] <= 57))
    ensures var body := digits + (tail + [13]);
            EndsInCr(body) && Digits(body, 0) == if tail != [] && tail[0] != 13 then -1 else Value(digits)
  {
    TailEnds(tail);
    DigitsRead(digits, tail + [13], 0, []);
    assert [] + digits == digits;
  }

  lemma NumberRead(l: Line)
    requires Cut(l)
    ensures EndsInCr(Text(l) + [13]) && LongLong(Text(l) + [13]) == NumberOn(l)
  {
    hide Digits;
    hide Unbroken;
    hide Value;
    var body := l.digits + (l.tail + [13]);
    UnsignedRead(l.digits, l.tail);
    assert Text(l) + [13] == l.sign + body;
    if l.sign == [] {
      assert l.sign + body == body;
      assert body[0] == if l.digits != [] then l.digits[0] else if l.tail != [] then l.tail[0] else 13;
    } else {
      assert (l.sign + body)[0] == l.sign[0] && (l.sign + body)[1..] == body;
    }
  }

  lemma NumberLineRead(l: Line, rest: seq<byte>)
    requires Cut(l)
    ensures var b := Text(l) + [13, 10] + rest;
            Newline(b) == Some(|Text(l)|) && Number(b, |Text(l)|) == NumberOn(l) && b[|Text(l)| + 2..] == rest
  {
    LineEnds(Text(l), rest);
    NumberRead(l);
  }

  // ------------------------------------------------------------ what each type byte announces

  lemma NothingYet(depth: nat)
    ensures ParseReply([], depth) == Short
  {}

  /** `+`, a line: a status. */
  lemma StatusBytes(line: seq<byte>, rest: seq<byte>, depth: nat)
    requires Unbroken(line)
    ensures ParseReply([43] + line + [13, 10] + rest, depth) == Parsed(Status(line), rest)
  {
    FirstByte(43, line, rest);
    LineEnds(line, rest);
  }

  /** `-`, a line: an error. */
  lemma ErrorBytes(line: seq<byte>, rest: seq<byte>, depth: nat)
    requires Unbroken(line)
    ensures ParseReply([45] + line + [13, 10] + rest, depth) == Parsed(Error(line), rest)
  {
    FirstByte(45, line, rest);
    LineEnds(line, rest);
  }

  /** `:`, a number line: an integer, whatever is on the line. */
  lemma IntegerBytes(l: Line, rest: seq<byte>, depth: nat)
    requires Cut(l)
    ensures ParseReply([58] + Text(l) + [13, 10] + rest, depth) == Parsed(Integer(NumberOn(l)), rest)
  {
    FirstByte(58, Text(l), rest);
    NumberLineRead(l, rest);
  }

  /** `$`, a length and that many bytes, then two more, which are not looked at: a string. */
  lemma BulkBytes(l: Line, payload: seq<byte>, x: byte, y: byte, rest: seq<byte>, depth: nat)
    requires Cut(l) && NumberOn(l) == |payload|
    ensures ParseReply([36] + Text(l) + [13, 10] + (payload + [x, y] + rest), depth) == Parsed(Str(payload), rest)
  {
    var body := payload + [x, y] + rest;
    var b := Text(l) + [13, 10] + body;
    FirstByte(36, Text(l), body);
    NumberLineRead(l, body);
    var at := |Text(l)| + 2;
    SliceOfRest(b, at, |payload|);
    SliceOfRest(b, at, |payload| + 2);
    assert body[..|payload|] == payload && body[|payload| + 2..] == rest;
  }

  /** `$` and a negative length: nil, and nothing more belongs to it. */
  lemma NilBytes(l: Line, rest: seq<byte>, depth: nat)
    requires Cut(l) && NumberOn(l) < 0
    ensures ParseReply([36] + Text(l) + [13, 10] + rest, depth) == Parsed(Nil, rest)
  {
    FirstByte(36, Text(l), rest);
    NumberLineRead(l, rest);
  }

  /** A string that is not all there. */
  lemma BulkTooShort(l: Line, rest: seq<byte>, depth: nat)
    requires Cut(l) && 0 <= NumberOn(l) && |rest| < NumberOn(l) + 2
    ensures ParseReply([36] + Text(l) + [13, 10] + rest, depth) == Short
  {
    FirstByte(36, Text(l), rest);
    NumberLineRead(l, rest);
  }

  /** `*` and a count that is not positive: nil for -1, the empty array for 0. */
  lemma EmptyArrayBytes(l: Line, rest: seq<byte>, depth: nat)
    requires Cut(l) && NumberOn(l) <= 0 && depth < 8
    ensures var n := NumberOn(l);
            ParseReply([42] + Text(l) + [13, 10] + rest, depth) ==
            Parsed(if n == -1 then Nil else if n == 0 then Arr([]) else NegArray(n), rest)
  {
    FirstByte(42, Text(l), rest);
    NumberLineRead(l, rest);
  }

  /** The replies `vs`, read one after the other at the start of `b`; `rest` comes after them. */
  ghost predicate InTurn(b: seq<byte>, vs: seq<Reply>, depth: nat, rest: seq<byte>)
    decreases |vs|
  {
    if vs == [] then b == rest
    else
      var p := ParseReply(b, depth);
      p.Parsed? && p.value == vs[0] && InTurn(p.rest, vs[1..], depth, rest)
  }

  lemma {:induction false} ManyInTurn(b: seq<byte>, vs: seq<Reply>, depth: nat, mid: seq<byte>, n: nat)
    requires InTurn(b, vs, depth, mid) && |vs| <= n
    ensures |vs| == n ==> ParseMany(b, n, depth) == Parsed(vs, mid)
    ensures |vs| < n && ParseReply(mid, depth).Short? ==> ParseMany(b, n, depth) == Short
    ensures |vs| < n && ParseReply(mid, depth).Wrong? ==> ParseMany(b, n, depth) == Wrong(ParseReply(mid, depth).error)
    decreases |vs|
  {
    hide ParseReply;
    if vs != [] {
      ManyInTurn(ParseReply(b, depth).rest, vs[1..], depth, mid, n - 1);
      assert [vs[0]] + vs[1..] == vs;
    }
  }

  lemma OpenArray(l: Line, body: seq<byte>, depth: nat)
    requires Cut(l) && depth < 8 && 0 < NumberOn(l)
    ensures var q := ParseMany(body, NumberOn(l), depth + 1);
            ParseReply([42] + Text(l) + [13, 10] + body, depth) ==
            if q.Parsed? then Parsed(Arr(q.value), q.rest) else if q.Short? then Short else Wrong(q.error)
  {
    hide ParseMany;
    hide Number;
    hide Newline;
    FirstByte(42, Text(l), body);
    NumberLineRead(l, body);
  }

  /** `*` and a positive count: an array of that many replies, each in whatever form it comes. */
  lemma ArrayBytes(l: Line, body: seq<byte>, vs: seq<Reply>, rest: seq<byte>, depth: nat)
    requires Cut(l) && depth < 8 && 0 < NumberOn(l) == |vs| && InTurn(body, vs, depth + 1, rest)
    ensures ParseReply([42] + Text(l) + [13, 10] + body, depth) == Parsed(Arr(vs), rest)
  {
    hide ParseReply;
    hide ParseMany;
    hide InTurn;
    hide Cut;
    OpenArray(l, body, depth);
    ManyInTurn(body, vs, depth + 1, rest, |vs|);
  }

  /** An array that stops at an element which is not all there, or is wrong. */
  lemma ArrayStops(l: Line, body: seq<byte>, vs: seq<Reply>, rest: seq<byte>, depth: nat)
    requires Cut(l) && depth < 8 && |vs| < NumberOn(l) && InTurn(body, vs, depth + 1, rest)
    ensures ParseReply(rest, depth + 1).Short? ==> ParseReply([42] + Text(l) + [13, 10] + body, depth) == Short
    ensures ParseReply(rest, depth + 1).Wrong? ==>
              ParseReply([42] + Text(l) + [13, 10] + body, depth) == Wrong(ParseReply(rest, depth + 1).error)
  {
    hide ParseReply;
    hide ParseMany;
    hide InTurn;
    hide Cut;
    OpenArray(l, body, depth);
    ManyInTurn(body, vs, depth + 1, rest, NumberOn(l));
  }

  /** `*` inside eight open arrays: refused before its line is read. */
  lemma NinthArray(rest: seq<byte>)
    ensures ParseReply([42] + rest, 8) == Wrong(TooDeep)
  {}

  /** A type byte without a whole line after it. */
  lemma NoLineYet(c: byte, rest: seq<byte>, depth: nat)
    requires c == 43 || c == 45 || c == 58 || c == 36 || (c == 42 && depth < 8)
    requires Unbroken(rest)
    ensures ParseReply([c] + rest, depth) == Short
  {
    assert ([c] + rest)[1..] == rest;
    forall j: nat
      ensures !BreakAt(rest, j)
    {
    }
  }

  /** Any other first byte. */
  lemma OtherTypeByte(c: byte, rest: seq<byte>, depth: nat)
    requires c != 43 && c != 45 && c != 58 && c != 36 && c != 42
    ensures ParseReply([c] + rest, depth) == Wrong(BadType(c))
  {}

  // ------------------------------------------------------------ nil arrays, and how deep arrays go

  /** The nil array: `*-1` is nil, at the top and inside an array. */
  lemma NilArray(rest: seq<byte>, depth: nat)
    requires depth < 8
    ensures ParseReply([42, 45, 49, 13, 10] + rest, depth) == Parsed(Nil, rest)
    ensures depth < 7 ==> ParseReply([42, 49, 13, 10] + ([42, 45, 49, 13, 10] + rest), depth) == Parsed(Arr([Nil]), rest)
  {
    var l := Line([45], [49], []);
    assert Text(l) == [45, 49];
    assert [49][..0] == [] && Value([49]) == 1;
    EmptyArrayBytes(l, rest, depth);
    assert [42] + Text(l) + [13, 10] + rest == [42, 45, 49, 13, 10] + rest;
    if depth < 7 {
      EmptyArrayBytes(l, rest, depth + 1);
      var body := [42, 45, 49, 13, 10] + rest;
      assert [Nil][1..] == [];
      assert InTurn(body, [Nil], depth + 1, rest);
      OneElement(body, [Nil], rest, depth);
    }
  }

  const ONE: Line := Line([], [49], [])

  lemma OneCut()
    ensures Cut(ONE) && NumberOn(ONE) == 1 && Text(ONE) == [49]
  {
    assert Text(ONE) == [49];
    assert [49][..0] == [] && Value([49]) == 1;
  }

  lemma OneElement(body: seq<byte>, vs: seq<Reply>, rest: seq<byte>, depth: nat)
    requires depth < 8 && |vs| == 1 && InTurn(body, vs, depth + 1, rest)
    ensures ParseReply([42, 49, 13, 10] + body, depth) == Parsed(Arr(vs), rest)
  {
    hide ParseReply;
    hide InTurn;
    hide Cut;
    hide NumberOn;
    OneCut();
    var l := ONE;
    ArrayBytes(l, body, vs, rest, depth);
    assert [42] + Text(l) + [13, 10] + body == [42, 49, 13, 10] + body;
  }

  /** `k` arrays of one element around the integer 1. */
  function Nested(k: nat): seq<byte> {
    if k == 0 then [58, 49, 13, 10] else [42, 49, 13, 10] + Nested(k - 1)
  }

  function NestedReply(k: nat): Reply {
    if k == 0 then Integer(1) else Arr([NestedReply(k - 1)])
  }

  /** Eight levels of arrays are read, nine are refused. */
  lemma {:induction false} EightLevels(k: nat, rest: seq<byte>, depth: nat)
    requires depth <= 8
    ensures ParseReply(Nested(k) + rest, depth) == if k + depth <= 8 then Parsed(NestedReply(k), rest) else Wrong(TooDeep)
    decreases k
  {
    hide ParseReply;
    hide Cut;
    if k == 0 {
      OneCut();
      var l := ONE;
      IntegerBytes(l, rest, depth);
      assert [58] + Text(l) + [13, 10] + rest == Nested(0) + rest;
    } else {
      var body := Nested(k - 1) + rest;
      assert Nested(k) + rest == [42, 49, 13, 10] + body;
      hide NumberOn;
      if depth == 8 {
        NinthArray([49, 13, 10] + body);
        assert [42] + ([49, 13, 10] + body) == [42, 49, 13, 10] + body;
      } else {
        EightLevels(k - 1, rest, depth + 1);
        OneLevel(body, NestedReply(k - 1), rest, depth);
      }
    }
  }

  lemma OneLevel(body: seq<byte>, v: Reply, rest: seq<byte>, depth: nat)
    requires depth < 8
    ensures ParseReply(body, depth + 1) == Parsed(v, rest) ==>
              ParseReply([42, 49, 13, 10] + body, depth) == Parsed(Arr([v]), rest)
    ensures ParseReply(body, depth + 1).Wrong? ==>
              ParseReply([42, 49, 13, 10] + body, depth) == Wrong(ParseReply(body, depth + 1).error)
  {
    hide ParseReply;
    hide Cut;
    hide NumberOn;
    if ParseReply(body, depth + 1) == Parsed(v, rest) {
      assert [v][1..] == [];
      OneElement(body, [v], rest, depth);
    }
    OneCut();
    var l := ONE;
    ArrayStops(l, body, [], body, depth);
    assert [42] + Text(l) + [13, 10] + body == [42, 49, 13, 10] + body;
  }
}
