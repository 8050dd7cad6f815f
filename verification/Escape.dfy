/**
 Quoting and splitting (sds.cpp sdscatrepr and sdssplitargs): a list of byte strings,
 each quoted and joined by spaces, is split back into the same list.
 */
module Escape {
  import opened Bytes
  import opened Resp
  import Sds

  const QUOTE: byte := 34
  const SINGLE: byte := 39
  const BACKSLASH: byte := 92
  const SPACE: byte := 32
  const LOWER_X: byte := 120

  // ------------------------------------------------------------ quoting

  /** isprint in the C locale. */
  predicate Printable(c: byte) {
    32 <= c < 127
  }

  function HexDigit(n: nat): (c: byte)
    requires n < 16
  {
    if n < 10 then (48 + n) as byte else (87 + n) as byte
  }

  /** The text of one byte inside the quotes. */
  function Escaped(c: byte): (t: seq<byte>)
    ensures t != []
  {
    if c == BACKSLASH || c == QUOTE then [BACKSLASH, c]
    else if c == 10 then [BACKSLASH, 110]
    else if c == 13 then [BACKSLASH, 114]
    else if c == 9 then [BACKSLASH, 116]
    else if c == 7 then [BACKSLASH, 97]
    else if c == 8 then [BACKSLASH, 98]
    else if Printable(c) then [c]
    else [BACKSLASH, LOWER_X, HexDigit(c as nat / 16), HexDigit(c as nat % 16)]
  }

  function Body(s: seq<byte>): seq<byte> {
    if s == [] then [] else Body(s[..|s| - 1]) + Escaped(s[|s| - 1])
  }

  function Quoted(s: seq<byte>): seq<byte> {
    [QUOTE] + Body(s) + [QUOTE]
  }

  lemma {:induction false} BodyFront(s: seq<byte>)
    requires s != []
    ensures Body(s) == Escaped(s[0]) + Body(s[1..])
  {
    hide Escaped;
    var n := |s| - 1;
    if n == 0 {
      assert s[..0] == [] && s[1..] == [];
    } else {
      BodyFront(s[..n]);
      assert s[..n][1..] == s[1..][..n - 1];
      Associates(Escaped(s[0]), Body(s[1..][..n - 1]), Escaped(s[n]));
    }
  }

  /** One byte of the loop of sdscatrepr. */
  method CatEscaped(s: Sds.Sds, c: byte)
    requires s.Valid()
    modifies s, s.buf
    ensures s.Valid() && (s.buf == old(s.buf) || fresh(s.buf)) && s.Contents() == old(s.Contents()) + Escaped(c)
  {
    if c == BACKSLASH || c == QUOTE {
      s.CatLen([BACKSLASH, c]);
    } else if c == 10 {
      s.CatLen([BACKSLASH, 110]);
    } else if c == 13 {
      s.CatLen([BACKSLASH, 114]);
    } else if c == 9 {
      s.CatLen([BACKSLASH, 116]);
    } else if c == 7 {
      s.CatLen([BACKSLASH, 97]);
    } else if c == 8 {
      s.CatLen([BACKSLASH, 98]);
    } else if Printable(c) {
      s.CatLen([c]);
    } else {
      s.CatLen([BACKSLASH, LOWER_X, HexDigit(c as nat / 16), HexDigit(c as nat % 16)]);
    }
  }

  /** sdscatrepr. */
  method CatRepr(s: Sds.Sds, p: seq<byte>)
    requires s.Valid()
    modifies s, s.buf
    ensures s.Valid() && (s.buf == old(s.buf) || fresh(s.buf)) && s.Contents() == old(s.Contents()) + Quoted(p)
  {
    ghost var before := s.Contents();
    s.CatLen([QUOTE]);
    var i := 0;
    while i < |p|
      invariant 0 <= i <= |p| && s.Valid() && (s.buf == old(s.buf) || fresh(s.buf))
      invariant s.Contents() == before + ([QUOTE] + Body(p[..i]))
    {
      assert p[..i + 1][..i] == p[..i];
      Associates(before, [QUOTE] + Body(p[..i]), Escaped(p[i]));
      CatEscaped(s, p[i]);
      Associates([QUOTE], Body(p[..i]), Escaped(p[i]));
      i := i + 1;
    }
    assert p[..i] == p;
    s.CatLen([QUOTE]);
  }

  // ------------------------------------------------------------ splitting

  /** isspace in the C locale. */
  predicate IsSpace(c: byte) {
    c == 32 || 9 <= c <= 13
  }

  predicate IsHexDigit(c: byte) {
    48 <= c <= 57 || 97 <= c <= 102 || 65 <= c <= 70
  }

  function HexValue(c: byte): (n: nat)
    requires IsHexDigit(c)
    ensures n < 16
  {
    if c <= 57 then c as nat - 48 else if c <= 70 then c as nat - 55 else c as nat - 87
  }

  /** The byte at `i`; the line is followed by a NUL. */
  function At(b: seq<byte>, i: nat): byte {
    if i < |b| then b[i] else NUL
  }

  function Unescaped(c: byte): byte {
    if c == 110 then 10 else if c == 114 then 13 else if c == 116 then 9 else if c == 98 then 8 else if c == 97 then 7 else c
  }

  datatype Mode = Plain | InQuotes | InSingle

  datatype Token = Token(text: seq<byte>, rest: seq<byte>) | Unbalanced

  predicate HexEscape(b: seq<byte>) {
    At(b, 0) == BACKSLASH && At(b, 1) == LOWER_X && IsHexDigit(At(b, 2)) && IsHexDigit(At(b, 3))
  }

  /** A closing quote must be followed by a space or by nothing. */
  function Closed(b: seq<byte>, current: seq<byte>): Token
    requires b != []
  {
    if At(b, 1) != NUL && !IsSpace(At(b, 1)) then Unbalanced else Token(current, b[1..])
  }

  /** The token at the start of `b`, of which `current` has been read. */
  function ReadToken(b: seq<byte>, mode: Mode, current: seq<byte>): (t: Token)
    ensures t.Token? ==> |t.rest| <= |b|
    ensures t.Token? && (mode != Plain || (b != [] && b[0] != NUL)) ==> |t.rest| < |b|
    decreases |b|
  {
    var c := At(b, 0);
    match mode
    case InQuotes =>
      if HexEscape(b) then
        ReadToken(b[4..], InQuotes, current + [(HexValue(b[2]) * 16 + HexValue(b[3])) as byte])
      else if c == BACKSLASH && At(b, 1) != NUL then ReadToken(b[2..], InQuotes, current + [Unescaped(b[1])])
      else if c == QUOTE then Closed(b, current)
      else if c == NUL then Unbalanced
      else ReadToken(b[1..], InQuotes, current + [c])
    case InSingle =>
      if c == BACKSLASH && At(b, 1) == SINGLE then ReadToken(b[2..], InSingle, current + [SINGLE])
      else if c == SINGLE then Closed(b, current)
      else if c == NUL then Unbalanced
      else ReadToken(b[1..], InSingle, current + [c])
    case Plain =>
      if c == NUL then Token(current, b)
      else if c == 32 || c == 10 || c == 13 || c == 9 then Token(current, b[1..])
      else if c == QUOTE then ReadToken(b[1..], InQuotes, current)
      else if c == SINGLE then ReadToken(b[1..], InSingle, current)
      else ReadToken(b[1..], Plain, current + [c])
  }

  function SkipBlanks(b: seq<byte>): (r: seq<byte>)
    ensures |r| <= |b| && (r != [] ==> !IsSpace(r[0]))
  {
    if b != [] && IsSpace(b[0]) then SkipBlanks(b[1..]) else b
  }

  /** The arguments of a line; None for unbalanced quotes. */
  function Split(b: seq<byte>): Option<seq<seq<byte>>>
    decreases |b|
  {
    var s := SkipBlanks(b);
    if At(s, 0) == NUL then Some([])
    else
      match ReadToken(s, Plain, [])
      case Unbalanced => None
      case Token(text, rest) =>
        var more := Split(rest);
        if more.None? then None else Some([text] + more.value)
  }

  lemma AtAfter(line: seq<byte>, p: nat, i: nat)
    requires p <= |line|
    ensures At(line[p..], i) == At(line, p + i)
  {}

  /** How far one turn of the inner loop gets: on, to the end of the token, or to an error. */
  datatype Turn = Goes(p: nat, mode: Mode, current: seq<byte>) | Ends(p: nat) | Fails

  /** What a turn must mean for the token that starts at `p`. */
  ghost predicate TurnIs(line: seq<byte>, p: nat, mode: Mode, current: seq<byte>, t: Turn)
    requires p <= |line|
  {
    var whole := ReadToken(line[p..], mode, current);
    match t
    case Goes(q, m, cur) => p < q <= |line| && whole == ReadToken(line[q..], m, cur)
    case Ends(q) => p <= q <= |line| && whole == Token(current, line[q..])
    case Fails => whole == Unbalanced
  }

  /** A turn inside double quotes, with the `p++` at the end of the loop. */
  method TurnInQuotes(line: seq<byte>, p: nat, current: seq<byte>) returns (t: Turn)
    requires p <= |line|
    ensures TurnIs(line, p, InQuotes, current, t)
  {
    AtAfter(line, p, 0);
    AtAfter(line, p, 1);
    AtAfter(line, p, 2);
    AtAfter(line, p, 3);
    ghost var b := line[p..];
    if At(line, p) == BACKSLASH && At(line, p + 1) == LOWER_X && IsHexDigit(At(line, p + 2)) && IsHexDigit(At(line, p + 3)) {
      assert b[4..] == line[p + 4..];
      return Goes(p + 4, InQuotes, current + [(HexValue(line[p + 2]) * 16 + HexValue(line[p + 3])) as byte]);
    }
    if At(line, p) == BACKSLASH && At(line, p + 1) != NUL {
      assert b[2..] == line[p + 2..];
      return Goes(p + 2, InQuotes, current + [Unescaped(line[p + 1])]);
    }
    if At(line, p) == QUOTE {
      assert b[1..] == line[p + 1..];
      return if At(line, p + 1) != NUL && !IsSpace(At(line, p + 1)) then Fails else Ends(p + 1);
    }
    if At(line, p) == NUL {
      return Fails;
    }
    assert b[1..] == line[p + 1..];
    return Goes(p + 1, InQuotes, current + [line[p]]);
  }

  /** A turn inside single quotes. */
  method TurnInSingle(line: seq<byte>, p: nat, current: seq<byte>) returns (t: Turn)
    requires p <= |line|
    ensures TurnIs(line, p, InSingle, current, t)
  {
    AtAfter(line, p, 0);
    AtAfter(line, p, 1);
    ghost var b := line[p..];
    if At(line, p) == BACKSLASH && At(line, p + 1) == SINGLE {
      assert b[2..] == line[p + 2..];
      return Goes(p + 2, InSingle, current + [SINGLE]);
    }
    if At(line, p) == SINGLE {
      assert b[1..] == line[p + 1..];
      return if At(line, p + 1) != NUL && !IsSpace(At(line, p + 1)) then Fails else Ends(p + 1);
    }
    if At(line, p) == NUL {
      return Fails;
    }
    assert b[1..] == line[p + 1..];
    return Goes(p + 1, InSingle, current + [line[p]]);
  }

  /** A turn outside quotes. */
  method TurnPlain(line: seq<byte>, p: nat, current: seq<byte>) returns (t: Turn)
    requires p <= |line|
    ensures TurnIs(line, p, Plain, current, t)
  {
    AtAfter(line, p, 0);
    var c := At(line, p);
    if c == NUL {
      return Ends(p);
    }
    assert line[p..][1..] == line[p + 1..];
    if c == 32 || c == 10 || c == 13 || c == 9 {
      return Ends(p + 1);
    }
    if c == QUOTE {
      return Goes(p + 1, InQuotes, current);
    }
    if c == SINGLE {
      return Goes(p + 1, InSingle, current);
    }
    return Goes(p + 1, Plain, current + [c]);
  }

  /** The inner loop of sdssplitargs: one token. */
  method NextToken(line: seq<byte>, start: nat) returns (ok: bool, current: seq<byte>, p: nat)
    requires start <= |line|
    ensures var t := ReadToken(line[start..], Plain, []);
            if ok then p <= |line| && t == Token(current, line[p..]) else t == Unbalanced
  {
    hide ReadToken;
    p, current := start, [];
    var mode := Plain;
    while true
      invariant p <= |line| && ReadToken(line[p..], mode, current) == ReadToken(line[start..], Plain, [])
      decreases |line| - p
    {
      var t;
      match mode {
        case InQuotes => t := TurnInQuotes(line, p, current);
        case InSingle => t := TurnInSingle(line, p, current);
        case Plain => t := TurnPlain(line, p, current);
      }
      match t {
        case Goes(q, m, cur) => p, mode, current := q, m, cur;
        case Ends(q) => return true, current, q;
        case Fails => return false, [], p;
      }
    }
  }

  lemma SkipStep(line: seq<byte>, p: nat)
    requires p < |line| && IsSpace(line[p])
    ensures SkipBlanks(line[p..]) == SkipBlanks(line[p + 1..])
  {
    assert line[p..][1..] == line[p + 1..];
  }

  /** What has been split so far, and what is still to be split. */
  ghost predicate Splitting(whole: Option<seq<seq<byte>>>, vector: seq<seq<byte>>, more: Option<seq<seq<byte>>>) {
    whole == if more.None? then None else Some(vector + more.value)
  }

  lemma NothingSplit(whole: Option<seq<seq<byte>>>)
    ensures Splitting(whole, [], whole)
  {
    assert whole.Some? ==> [] + whole.value == whole.value;
  }

  /** sdssplitargs, on the bytes of the line without its terminator. */
  method SplitArgs(line: seq<byte>) returns (r: Option<seq<seq<byte>>>)
    ensures r == Split(line)
  {
    hide ReadToken;
    var p: nat := 0;
    var vector: seq<seq<byte>> := [];
    assert line[0..] == line;
    NothingSplit(Split(line));
    while true
      invariant p <= |line| && Splitting(Split(line), vector, Split(line[p..]))
      decreases |line| - p
    {
      var q := p;
      while q < |line| && IsSpace(line[q])
        invariant p <= q <= |line| && SkipBlanks(line[p..]) == SkipBlanks(line[q..])
      {
        SkipStep(line, q);
        q := q + 1;
      }
      assert SkipBlanks(line[q..]) == line[q..];
      AtAfter(line, q, 0);
      if At(line, q) == NUL {
        assert vector + [] == vector;
        return Some(vector);
      }
      var ok, current, next := NextToken(line, q);
      if !ok {
        return None;
      }
      assert Splitting(Split(line[p..]), [current], Split(line[next..]));
      assert forall more: seq<seq<byte>> :: vector + ([current] + more) == vector + [current] + more;
      vector := vector + [current];
      p := next;
    }
  }

  // ------------------------------------------------------------ there and back

  lemma UnescapesHex(c: byte, rest: seq<byte>, current: seq<byte>)
    ensures var t := [BACKSLASH, LOWER_X, HexDigit(c as nat / 16), HexDigit(c as nat % 16)];
            ReadToken(t + rest, InQuotes, current) == ReadToken(rest, InQuotes, current + [c])
  {
    var t := [BACKSLASH, LOWER_X, HexDigit(c as nat / 16), HexDigit(c as nat % 16)];
    assert (t + rest)[4..] == rest;
    assert HexEscape(t + rest);
  }

  lemma UnescapesTwo(e: byte, c: byte, rest: seq<byte>, current: seq<byte>)
    requires e != NUL && e != LOWER_X && Unescaped(e) == c
    ensures ReadToken([BACKSLASH, e] + rest, InQuotes, current) == ReadToken(rest, InQuotes, current + [c])
  {
    assert ([BACKSLASH, e] + rest)[2..] == rest;
  }

  lemma UnescapesOne(c: byte, rest: seq<byte>, current: seq<byte>)
    ensures ReadToken(Escaped(c) + rest, InQuotes, current) == ReadToken(rest, InQuotes, current + [c])
  {
    hide ReadToken;
    if c == BACKSLASH || c == QUOTE {
      UnescapesTwo(c, c, rest, current);
    } else if c == 10 {
      UnescapesTwo(110, c, rest, current);
    } else if c == 13 {
      UnescapesTwo(114, c, rest, current);
    } else if c == 9 {
      UnescapesTwo(116, c, rest, current);
    } else if c == 7 {
      UnescapesTwo(97, c, rest, current);
    } else if c == 8 {
      UnescapesTwo(98, c, rest, current);
    } else if Printable(c) {
      ReadsItself(c, rest, current);
    } else {
      UnescapesHex(c, rest, current);
    }
  }

  lemma ReadsItself(c: byte, rest: seq<byte>, current: seq<byte>)
    requires c != BACKSLASH && c != QUOTE && c != NUL
    ensures ReadToken([c] + rest, InQuotes, current) == ReadToken(rest, InQuotes, current + [c])
  {
    assert ([c] + rest)[1..] == rest;
  }

  lemma {:induction false} ReadsBody(s: seq<byte>, rest: seq<byte>, current: seq<byte>)
    ensures ReadToken(Body(s) + rest, InQuotes, current) == ReadToken(rest, InQuotes, current + s)
    decreases |s|
  {
    hide ReadToken;
    hide Escaped;
    if s == [] {
      assert Body(s) + rest == rest && current + s == current;
    } else {
      BodyFront(s);
      Associates(Escaped(s[0]), Body(s[1..]), rest);
      UnescapesOne(s[0], Body(s[1..]) + rest, current);
      ReadsBody(s[1..], rest, current + [s[0]]);
      assert current + [s[0]] + s[1..] == current + s;
    }
  }

  /** A quoted string, followed by a space or by nothing, is one token. */
  lemma ReadsQuoted(s: seq<byte>, rest: seq<byte>)
    requires rest == [] || IsSpace(rest[0])
    ensures ReadToken(Quoted(s) + rest, Plain, []) == Token(s, rest)
  {
    hide ReadToken;
    hide Body;
    var inner := Body(s) + ([QUOTE] + rest);
    assert Quoted(s) + rest == [QUOTE] + inner;
    OpensQuotes(inner);
    ReadsBody(s, [QUOTE] + rest, []);
    assert [] + s == s;
    ClosesQuotes(rest, s);
  }

  lemma OpensQuotes(b: seq<byte>)
    ensures ReadToken([QUOTE] + b, Plain, []) == ReadToken(b, InQuotes, [])
  {
    assert ([QUOTE] + b)[1..] == b;
  }

  lemma ClosesQuotes(rest: seq<byte>, current: seq<byte>)
    requires rest == [] || IsSpace(rest[0])
    ensures ReadToken([QUOTE] + rest, InQuotes, current) == Token(current, rest)
  {
    assert ([QUOTE] + rest)[1..] == rest;
  }

  /** The strings, each quoted, with a space between them. */
  function Joined(args: seq<seq<byte>>): seq<byte> {
    if args == [] then []
    else if |args| == 1 then Quoted(args[0])
    else Quoted(args[0]) + ([SPACE] + Joined(args[1..]))
  }

  lemma SplitSkipsSpace(b: seq<byte>)
    ensures Split([SPACE] + b) == Split(b)
  {
    assert ([SPACE] + b)[1..] == b;
  }

  lemma SplitFirst(s: seq<byte>, rest: seq<byte>)
    requires rest == [] || IsSpace(rest[0])
    ensures Split(Quoted(s) + rest) == if Split(rest).None? then None else Some([s] + Split(rest).value)
  {
    hide ReadToken;
    ReadsQuoted(s, rest);
  }

  /** Quoting and joining, then splitting, gives back the same list, whatever bytes the strings hold. */
  lemma {:induction false} SplitOfJoined(args: seq<seq<byte>>)
    ensures Split(Joined(args)) == Some(args)
  {
    hide Split;
    hide Quoted;
    if args == [] {
      SplitNothing();
    } else if |args| == 1 {
      SplitFirst(args[0], []);
      SplitNothing();
      assert Quoted(args[0]) + [] == Quoted(args[0]);
      assert [args[0]] + [] == args;
    } else {
      SplitOfJoined(args[1..]);
      SplitSkipsSpace(Joined(args[1..]));
      SplitFirst(args[0], [SPACE] + Joined(args[1..]));
      assert [args[0]] + args[1..] == args;
    }
  }

  lemma SplitNothing()
    ensures Split([]) == Some([])
  {}

  lemma {:induction false} JoinedSnoc(args: seq<seq<byte>>, a: seq<byte>)
    requires args != []
    ensures Joined(args + [a]) == Joined(args) + ([SPACE] + Quoted(a))
  {
    hide Quoted;
    if |args| == 1 {
      assert (args + [a])[1..] == [a];
    } else {
      JoinedSnoc(args[1..], a);
      assert (args + [a])[1..] == args[1..] + [a];
      Associates([SPACE], Joined(args[1..]), [SPACE] + Quoted(a));
      Associates(Quoted(args[0]), [SPACE] + Joined(args[1..]), [SPACE] + Quoted(a));
    }
  }

  /** One more string behind the ones that are already in the line. */
  method AppendQuoted(s: Sds.Sds, a: seq<byte>, ghost done: seq<seq<byte>>)
    requires s.Valid() && s.Contents() == Joined(done)
    modifies s, s.buf
    ensures s.Valid() && (s.buf == old(s.buf) || fresh(s.buf)) && s.Contents() == Joined(done + [a])
  {
    hide Quoted;
    ghost var before := s.Contents();
    if s.len > 0 {
      JoinedNotEmpty(done);
      JoinedSnoc(done, a);
      Associates(before, [SPACE], Quoted(a));
      s.CatLen([SPACE]);
    } else {
      JoinedNotEmpty(done);
      assert Joined([a]) == Quoted(a) && done + [a] == [a];
    }
    CatRepr(s, a);
  }

  lemma JoinedNotEmpty(args: seq<seq<byte>>)
    ensures Joined(args) == [] <==> args == []
  {}

  /** Writes the strings into one line with sdscatrepr and takes the line apart with sdssplitargs. */
  method WriteAndSplit(args: seq<seq<byte>>) returns (line: Sds.Sds, r: Option<seq<seq<byte>>>)
    ensures line.Valid() && line.Contents() == Joined(args) && r == Some(args)
  {
    hide Joined;
    hide Split;
    JoinedNotEmpty([]);
    line := new Sds.Sds([]);
    var i := 0;
    while i < |args|
      invariant 0 <= i <= |args| && fresh(line) && fresh(line.buf) && line.Valid()
      invariant line.Contents() == Joined(args[..i])
    {
      AppendQuoted(line, args[i], args[..i]);
      assert args[..i] + [args[i]] == args[..i + 1];
      i := i + 1;
    }
    assert args[..i] == args;
    SplitOfJoined(args);
    r := SplitArgs(line.buf[..line.len]);
  }
}
