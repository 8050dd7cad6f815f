/**
 Quoting and splitting byte by byte (sds.cpp sdscatrepr and sdssplitargs): what every byte is
 written as, and what the splitter makes of plain words, of both kinds of quotes and of every
 escape, said with the byte values.
 */
module EscapeBytes {
  import opened Bytes
  import opened Resp
  import opened Escape

  // ------------------------------------------------------------ writing

  function Hex(n: nat): byte
    requires n < 16
  {
    if n < 10 then (48 + n) as byte else (97 + n - 10) as byte
  }

  /** What each byte is written as inside the quotes. */
  lemma WrittenAs(c: byte)
    ensures Escaped(c) ==
            if c == 34 then [92, 34]
            else if c == 92 then [92, 92]
            else if c == 10 then [92, 110]
            else if c == 13 then [92, 114]
            else if c == 9 then [92, 116]
            else if c == 7 then [92, 97]
            else if c == 8 then [92, 98]
            else if 32 <= c <= 126 then [c]
            else [92, 120, Hex(c as nat / 16), Hex(c as nat % 16)]
  {}

  lemma WrittenQuoted(s: seq<byte>, c: byte)
    ensures Quoted([]) == [34, 34]
    ensures |Quoted(s)| >= 2
    ensures Quoted(s + [c]) == Quoted(s)[..|Quoted(s)| - 1] + Escaped(c) + [34]
  {
    hide Escaped;
    assert (s + [c])[..|s|] == s;
    assert Body([]) == [];
  }

  // ------------------------------------------------------------ blanks and plain words

  predicate Blank(c: byte) {
    c == 32 || c == 9 || c == 10 || c == 11 || c == 12 || c == 13
  }

  /** A byte that stands for itself outside quotes. */
  predicate WordByte(c: byte) {
    c != 0 && c != 32 && c != 10 && c != 13 && c != 9 && c != 34 && c != 39
  }

  predicate Word(w: seq<byte>) {
    w != [] && !Blank(w[0]) && forall i :: 0 <= i < |w| ==> WordByte(w[i])
  }

  /** The end of a word: nothing more, or a separator. */
  predicate WordEnds(rest: seq<byte>) {
    rest == [] || rest[0] == 0 || rest[0] == 32 || rest[0] == 10 || rest[0] == 13 || rest[0] == 9
  }

  lemma NothingLeft(rest: seq<byte>)
    ensures Split([]) == Some([]) && Split([0] + rest) == Some([])
  {
    assert SkipBlanks([0] + rest) == [0] + rest;
  }

  lemma BlankSkipped(c: byte, b: seq<byte>)
    requires Blank(c)
    ensures Split([c] + b) == Split(b)
  {
    assert ([c] + b)[1..] == b;
    assert SkipBlanks([c] + b) == SkipBlanks(b);
  }

  lemma {:induction false} ReadsWord(w: seq<byte>, rest: seq<byte>, current: seq<byte>)
    requires forall i :: 0 <= i < |w| ==> WordByte(w[i])
    ensures ReadToken(w + rest, Plain, current) == ReadToken(rest, Plain, current + w)
    decreases |w|
  {
    if w == [] {
      assert w + rest == rest && current + w == current;
    } else {
      var tail := w[1..];
      assert (w + rest)[1..] == tail + rest && (w + rest)[0] == w[0];
      assert current + [w[0]] + tail == current + w;
      ReadsWord(tail, rest, current + [w[0]]);
    }
  }

  /** What ends a word: a separator belongs to it and is passed over. */
  lemma EndsWord(rest: seq<byte>, current: seq<byte>)
    requires WordEnds(rest)
    ensures ReadToken(rest, Plain, current) ==
            Token(current, if rest == [] || rest[0] == 0 then rest else rest[1..])
  {}

  function Then(first: seq<byte>, more: Option<seq<seq<byte>>>): Option<seq<seq<byte>>> {
    if more.None? then None else Some([first] + more.value)
  }

  lemma FirstToken(b: seq<byte>, text: seq<byte>, rest: seq<byte>)
    requires b != [] && b[0] != 0 && !Blank(b[0]) && ReadToken(b, Plain, []) == Token(text, rest)
    ensures Split(b) == Then(text, Split(rest))
  {
    hide ReadToken;
    assert SkipBlanks(b) == b;
  }

  lemma SeparatorSkipped(rest: seq<byte>)
    requires WordEnds(rest)
    ensures Split(if rest == [] || rest[0] == 0 then rest else rest[1..]) == Split(rest)
  {
    if rest != [] && rest[0] != 0 {
      assert [rest[0]] + rest[1..] == rest;
      BlankSkipped(rest[0], rest[1..]);
    }
  }

  /** A plain word is itself. */
  lemma SplitWord(w: seq<byte>, rest: seq<byte>)
    requires Word(w) && WordEnds(rest)
    ensures Split(w + rest) == Then(w, Split(rest))
  {
    hide Split;
    hide ReadToken;
    ReadsWord(w, rest, []);
    assert [] + w == w;
    EndsWord(rest, w);
    SeparatorSkipped(rest);
    FirstToken(w + rest, w, if rest == [] || rest[0] == 0 then rest else rest[1..]);
  }

  /** Words with one space between them. */
  function Spaced(ws: seq<seq<byte>>): seq<byte> {
    if ws == [] then [] else if |ws| == 1 then ws[0] else ws[0] + ([32] + Spaced(ws[1..]))
  }

  /** Plain words joined by spaces come back. */
  lemma {:induction false} SplitWords(ws: seq<seq<byte>>)
    requires forall w :: w in ws ==> Word(w)
    ensures Split(Spaced(ws)) == Some(ws)
    decreases |ws|
  {
    hide Split;
    hide Word;
    NothingLeft([]);
    if |ws| == 1 {
      assert ws[0] + [] == ws[0];
      SplitWord(ws[0], []);
      assert [ws[0]] + [] == ws;
    } else if |ws| > 1 {
      var more := Spaced(ws[1..]);
      SplitWords(ws[1..]);
      BlankSkipped(32, more);
      SplitWord(ws[0], [32] + more);
      assert [ws[0]] + ws[1..] == ws;
    }
  }

  // ------------------------------------------------------------ quotes

  /** A closing quote must be followed by a blank, or by nothing. */
  predicate QuoteEnds(rest: seq<byte>) {
    rest == [] || rest[0] == 0 || Blank(rest[0])
  }

  /** The text between single quotes: only the single quote itself is escaped. */
  function SingleText(s: seq<byte>): seq<byte> {
    if s == [] then [] else (if s[0] == 39 then [92, 39] else [s[0]]) + SingleText(s[1..])
  }

  lemma StartOfSingle(s: seq<byte>)
    ensures SingleText(s) != [] ==> SingleText(s)[0] != 39
    ensures s != [] ==> SingleText(s) != []
  {}

  lemma {:induction false} ReadsSingle(s: seq<byte>, rest: seq<byte>, current: seq<byte>)
    requires 0 !in s && (s != [] ==> s[|s| - 1] != 92) && QuoteEnds(rest)
    ensures ReadToken(SingleText(s) + ([39] + rest), InSingle, current) == Token(current + s, rest)
    decreases |s|
  {
    hide ReadToken;
    var close := [39] + rest;
    if s == [] {
      ClosingQuote(rest, current);
      assert SingleText(s) + close == close && current + s == current;
    } else {
      var tail := SingleText(s[1..]) + close;
      assert s[0] in s;
      assert current + [s[0]] + s[1..] == current + s;
      if s[0] == 39 {
        assert SingleText(s) + close == [92, 39] + tail;
        EscapedSingle(tail, current);
      } else {
        assert SingleText(s) + close == [s[0]] + tail;
        StartOfSingle(s[1..]);
        PlainInSingle(s[0], tail, current);
      }
      ReadsSingle(s[1..], rest, current + [s[0]]);
    }
  }

  lemma EscapedSingle(b: seq<byte>, current: seq<byte>)
    ensures ReadToken([92, 39] + b, InSingle, current) == ReadToken(b, InSingle, current + [39])
  {
    assert ([92, 39] + b)[2..] == b;
  }

  lemma PlainInSingle(c: byte, b: seq<byte>, current: seq<byte>)
    requires c != 0 && c != 39 && (c == 92 ==> b == [] || b[0] != 39)
    ensures ReadToken([c] + b, InSingle, current) == ReadToken(b, InSingle, current + [c])
  {
    assert ([c] + b)[1..] == b;
  }

  lemma OpensSingle(b: seq<byte>, current: seq<byte>)
    ensures ReadToken([39] + b, Plain, current) == ReadToken(b, InSingle, current)
    ensures ReadToken([34] + b, Plain, current) == ReadToken(b, InQuotes, current)
  {
    assert ([39] + b)[1..] == b && ([34] + b)[1..] == b;
  }

  /** A string in single quotes is itself, its single quotes having a backslash before them. */
  lemma SplitSingle(s: seq<byte>, rest: seq<byte>)
    requires 0 !in s && (s != [] ==> s[|s| - 1] != 92) && QuoteEnds(rest)
    ensures Split([39] + (SingleText(s) + ([39] + rest))) == Then(s, Split(rest))
  {
    hide ReadToken;
    hide Split;
    var body := SingleText(s) + ([39] + rest);
    OpensSingle(body, []);
    ReadsSingle(s, rest, []);
    assert [] + s == s;
    FirstToken([39] + body, s, rest);
  }

  /** A word that goes on in double quotes is one string. */
  lemma SplitWordAndQuotes(w: seq<byte>, s: seq<byte>, rest: seq<byte>)
    requires Word(w) && (rest == [] || Blank(rest[0]))
    ensures Split(w + (Quoted(s) + rest)) == Then(w + s, Split(rest))
  {
    hide ReadToken;
    hide Split;
    hide Body;
    ReadsWord(w, Quoted(s) + rest, []);
    assert [] + w == w;
    var inner := Body(s) + ([34] + rest);
    assert Quoted(s) + rest == [34] + inner;
    OpensSingle(inner, w);
    ReadsBody(s, [34] + rest, w);
    ClosesQuotes(rest, w + s);
    FirstToken(w + (Quoted(s) + rest), w + s, rest);
  }

  // ------------------------------------------------------------ escapes in double quotes

  /** A backslash and a letter. */
  lemma LetterEscapes(c: byte, b: seq<byte>, current: seq<byte>)
    requires c != 0 && !(c == 120 && |b| >= 2 && IsHex(b[0]) && IsHex(b[1]))
    ensures ReadToken([92, c] + b, InQuotes, current) ==
            ReadToken(b, InQuotes, current + [if c == 110 then 10 else if c == 114 then 13 else if c == 116 then 9
                                              else if c == 98 then 8 else if c == 97 then 7 else c])
  {
    assert ([92, c] + b)[2..] == b;
  }

  predicate IsHex(c: byte) {
    48 <= c <= 57 || 97 <= c <= 102 || 65 <= c <= 70
  }

  function HexOf(c: byte): nat
    requires IsHex(c)
  {
    if c <= 57 then c as nat - 48 else if c <= 70 then c as nat - 65 + 10 else c as nat - 97 + 10
  }

  /** A backslash, x and two hexadecimal digits, in either case. */
  lemma HexEscapes(h: byte, l: byte, b: seq<byte>, current: seq<byte>)
    requires IsHex(h) && IsHex(l)
    ensures 0 <= HexOf(h) * 16 + HexOf(l) < 256
    ensures ReadToken([92, 120, h, l] + b, InQuotes, current) ==
            ReadToken(b, InQuotes, current + [(HexOf(h) * 16 + HexOf(l)) as byte])
  {
    assert ([92, 120, h, l] + b)[4..] == b;
    assert HexEscape([92, 120, h, l] + b);
  }

  /** Any other byte, and the closing quote. */
  lemma PlainInQuotes(c: byte, b: seq<byte>, current: seq<byte>)
    requires c != 0 && c != 34 && c != 92
    ensures ReadToken([c] + b, InQuotes, current) == ReadToken(b, InQuotes, current + [c])
  {
    assert ([c] + b)[1..] == b;
  }

  lemma ClosingQuote(b: seq<byte>, current: seq<byte>)
    ensures ReadToken([34] + b, InQuotes, current) == if QuoteEnds(b) then Token(current, b) else Unbalanced
    ensures ReadToken([39] + b, InSingle, current) == if QuoteEnds(b) then Token(current, b) else Unbalanced
  {
    assert ([34] + b)[1..] == b && ([39] + b)[1..] == b;
  }

  // ------------------------------------------------------------ what is refused

  lemma {:induction false} NeverClosed(t: seq<byte>, current: seq<byte>)
    requires 0 !in t && 34 !in t && 39 !in t && 92 !in t
    ensures ReadToken(t, InQuotes, current) == Unbalanced && ReadToken(t, InSingle, current) == Unbalanced
    decreases |t|
  {
    if t != [] {
      var c := t[0];
      assert c in t;
      assert [c] + t[1..] == t;
      PlainInQuotes(c, t[1..], current);
      PlainInSingle(c, t[1..], current);
      NeverClosed(t[1..], current + [c]);
    }
  }

  lemma Refused(b: seq<byte>)
    requires b != [] && b[0] != 0 && !Blank(b[0]) && ReadToken(b, Plain, []) == Unbalanced
    ensures Split(b) == None
  {
    hide ReadToken;
    assert SkipBlanks(b) == b;
  }

  /** An opened quote that is never closed, and a closed one that is followed by more of a word. */
  lemma Unfinished(t: seq<byte>, c: byte, rest: seq<byte>)
    requires 0 !in t && 34 !in t && 39 !in t && 92 !in t && c != 0 && !Blank(c)
    ensures Split([34] + t) == None && Split([39] + t) == None
    ensures Split([34, 34, c] + rest) == None && Split([39, 39, c] + rest) == None
  {
    hide Split;
    hide ReadToken;
    OpensSingle(t, []);
    NeverClosed(t, []);
    Refused([34] + t);
    Refused([39] + t);
    assert [34, 34, c] + rest == [34] + ([34] + ([c] + rest));
    assert [39, 39, c] + rest == [39] + ([39] + ([c] + rest));
    OpensSingle([34] + ([c] + rest), []);
    OpensSingle([39] + ([c] + rest), []);
    ClosingQuote([c] + rest, []);
    Refused([34, 34, c] + rest);
    Refused([39, 39, c] + rest);
  }
}
