/**
 The two argv formatters of hiredis.cpp: one fills a buffer whose size it computed
 beforehand, the other appends to a dynamic string. Both write `Wire(argv)`.
 */
module Format {
  import opened Bytes
  import opened Resp
  import Sds

  /** The bulk strings of the arguments, one after the other. */
  function Bulks(argv: seq<seq<byte>>): seq<byte> {
    if argv == [] then [] else Bulks(argv[..|argv| - 1]) + Bulk(argv[|argv| - 1])
  }

  /** A command as it is sent: the argument count, then every argument as a bulk string. */
  function Wire(argv: seq<seq<byte>>): seq<byte> {
    [STAR] + Ended(Dec(|argv|), Bulks(argv))
  }

  function Strs(argv: seq<seq<byte>>): (vs: seq<Reply>)
    ensures |vs| == |argv|
    ensures forall i :: 0 <= i < |argv| ==> vs[i] == Str(argv[i])
    ensures forall v :: v in vs ==> Sendable(v) && Height(v) == 0
  {
    seq(|argv|, i requires 0 <= i < |argv| => Str(argv[i]))
  }

  lemma {:induction false} EncodeAllSnoc(vs: seq<Reply>, v: Reply)
    requires Sendable(v) && forall w :: w in vs ==> Sendable(w)
    ensures EncodeAll(vs + [v]) == EncodeAll(vs) + Encode(v)
  {
    if vs == [] {
      assert vs + [v] == [v];
      assert EncodeAll([v]) == Encode(v) + EncodeAll([]);
    } else {
      assert (vs + [v])[1..] == vs[1..] + [v];
      EncodeAllSnoc(vs[1..], v);
    }
  }

  lemma {:induction false} BulksAreEncoded(argv: seq<seq<byte>>)
    ensures EncodeAll(Strs(argv)) == Bulks(argv)
  {
    if argv != [] {
      var n := |argv| - 1;
      BulksAreEncoded(argv[..n]);
      assert Strs(argv) == Strs(argv[..n]) + [Str(argv[n])];
      EncodeAllSnoc(Strs(argv[..n]), Str(argv[n]));
    }
  }

  lemma {:induction false} FlatHeight(vs: seq<Reply>)
    requires forall v :: v in vs ==> Height(v) == 0
    ensures MaxHeight(vs) == 0
  {
    if vs != [] {
      FlatHeight(vs[1..]);
    }
  }

  /** The reply reader takes a formatted command for the array of its arguments. */
  lemma WireReadsBack(argv: seq<seq<byte>>, rest: seq<byte>)
    ensures ParseReply(Wire(argv) + rest, 0) == Parsed(Arr(Strs(argv)), rest)
  {
    BulksAreEncoded(argv);
    FlatHeight(Strs(argv));
    ParseEncoded(Arr(Strs(argv)), rest, 0);
  }

  /** So different argument lists have different wire forms. */
  lemma WireInjective(argv1: seq<seq<byte>>, argv2: seq<seq<byte>>)
    requires Wire(argv1) == Wire(argv2)
    ensures argv1 == argv2
  {
    WireReadsBack(argv1, []);
    WireReadsBack(argv2, []);
    forall i | 0 <= i < |argv1|
      ensures |argv1| == |argv2| && argv1[i] == argv2[i]
    {
      assert Strs(argv1)[i] == Str(argv1[i]);
    }
    assert |Strs(argv1)| == |Strs(argv2)|;
  }

  /** hiredis.cpp bulklen. */
  method BulkLen(arg: seq<byte>) returns (n: nat)
    ensures n == |Bulk(arg)|
  {
    var digits := CountDigits(|arg|);
    n := 1 + digits + 2 + |arg| + 2;
  }

  /** The size both formatters compute before they write anything. */
  method TotalLength(argv: seq<seq<byte>>) returns (totlen: nat)
    ensures totlen == |Wire(argv)|
  {
    var digits := CountDigits(|argv|);
    totlen := 1 + digits + 2;
    var j := 0;
    while j < |argv|
      invariant 0 <= j <= |argv|
      invariant totlen == 1 + |Dec(|argv|)| + 2 + |Bulks(argv[..j])|
    {
      var n := BulkLen(argv[j]);
      assert argv[..j + 1][..j] == argv[..j];
      totlen := totlen + n;
      j := j + 1;
    }
    assert argv[..j] == argv;
  }

  /** sprintf: the text and its terminator. */
  method Print(a: array<byte>, at: nat, text: seq<byte>) returns (n: nat)
    requires at + |text| < a.Length
    modifies a
    ensures n == |text| && a[..at + n] == old(a[..at]) + text
  {
    n := |text|;
    Sds.Store(a, at, text + [NUL]);
    assert a[..at + n] == a[..at + n + 1][..at + n];
  }

  function BulkHead(n: nat): seq<byte> {
    [DOLLAR] + Dec(n) + CRLF
  }

  lemma BulkSplit(arg: seq<byte>)
    ensures Bulk(arg) == BulkHead(|arg|) + (arg + CRLF)
  {
    assert Ended(arg, []) == arg + CRLF;
  }

  lemma BulkPieces(done: seq<byte>, arg: seq<byte>)
    ensures done + BulkHead(|arg|) + (arg + CRLF) == done + Bulk(arg)
  {
    BulkSplit(arg);
    Associates(done, BulkHead(|arg|), arg + CRLF);
  }

  lemma BulksStep(argv: seq<seq<byte>>, j: nat, head: seq<byte>)
    requires j < |argv|
    ensures head + Bulks(argv[..j]) + Bulk(argv[j]) == head + Bulks(argv[..j + 1])
    ensures |head + Bulks(argv[..j + 1])| <= |head + Bulks(argv)|
  {
    assert argv[..j + 1][..j] == argv[..j];
    BulksMonotone(argv, j + 1);
  }

  lemma {:induction false} BulksMonotone(argv: seq<seq<byte>>, j: nat)
    requires j <= |argv|
    ensures |Bulks(argv[..j])| <= |Bulks(argv)|
  {
    if j == |argv| {
      assert argv[..j] == argv;
    } else {
      BulksMonotone(argv[..|argv| - 1], j);
      assert argv[..|argv| - 1][..j] == argv[..j];
    }
  }

  function Head(n: nat): seq<byte> {
    [STAR] + Dec(n) + CRLF
  }

  lemma WireIsHeadAndBulks(argv: seq<seq<byte>>)
    ensures Wire(argv) == Head(|argv|) + Bulks(argv)
  {
    hide Dec;
    hide Bulks;
    var d, b := Dec(|argv|), Bulks(argv);
    Associates([STAR], d + CRLF, b);
    Associates([STAR], d, CRLF);
  }

  /** redisFormatCommandArgv: the predicted length is exactly what is written. */
  method FormatCommandArgv(argv: seq<seq<byte>>) returns (cmd: array<byte>, totlen: nat)
    ensures fresh(cmd) && cmd.Length == totlen + 1
    ensures cmd[..totlen] == Wire(argv) && cmd[totlen] == NUL
  {
    totlen := TotalLength(argv);
    WireIsHeadAndBulks(argv);
    cmd := new byte[totlen + 1];
    var pos := Print(cmd, 0, Head(|argv|));
    assert cmd[..pos] == Head(|argv|) + Bulks(argv[..0]);
    var j := 0;
    while j < |argv|
      invariant 0 <= j <= |argv| && 0 <= pos <= totlen
      invariant cmd[..pos] == Head(|argv|) + Bulks(argv[..j])
    {
      ghost var done := cmd[..pos];
      BulkPieces(done, argv[j]);
      BulksStep(argv, j, Head(|argv|));
      pos := PutBulk(cmd, pos, argv[j]);
      j := j + 1;
    }
    assert argv[..j] == argv;
    cmd[pos] := NUL;
    assert cmd[..pos] == Wire(argv);
  }

  /** One turn of the loop: header line, bytes, CR LF. */
  method PutBulk(cmd: array<byte>, pos0: nat, arg: seq<byte>) returns (pos: nat)
    requires pos0 + |Bulk(arg)| < cmd.Length
    modifies cmd
    ensures pos == pos0 + |Bulk(arg)| && cmd[..pos] == old(cmd[..pos0]) + Bulk(arg)
  {
    ghost var done := cmd[..pos0];
    BulkPieces(done, arg);
    var n := Print(cmd, pos0, BulkHead(|arg|));
    pos := pos0 + n;
    Sds.Store(cmd, pos, arg + CRLF);
    pos := pos + |arg| + 2;
  }

  const STAR_FORMAT: seq<byte> := [42, 37, 105, 13, 10]    // "*%i\r\n"
  const DOLLAR_FORMAT: seq<byte> := [36, 37, 84, 13, 10]   // "$%T\r\n"

  lemma HeaderFormats(n: nat)
    ensures Sds.Matches(STAR_FORMAT, [Sds.IntArg(n)])
    ensures Sds.Formatted(STAR_FORMAT, [Sds.IntArg(n)]) == Head(n)
    ensures Sds.Matches(DOLLAR_FORMAT, [Sds.UintArg(n)])
    ensures Sds.Formatted(DOLLAR_FORMAT, [Sds.UintArg(n)]) == BulkHead(n)
  {
    var i, u := [Sds.IntArg(n)], [Sds.UintArg(n)];
    assert STAR_FORMAT[1..] == [37, 105, 13, 10] && STAR_FORMAT[1..][2..] == CRLF;
    assert DOLLAR_FORMAT[1..] == [37, 84, 13, 10] && DOLLAR_FORMAT[1..][2..] == CRLF;
    PlainTail(i[1..]);
    PlainTail(u[1..]);
  }

  lemma PlainTail(args: seq<Sds.Arg>)
    requires args == []
    ensures Sds.Matches(CRLF, args) && Sds.Formatted(CRLF, args) == CRLF
  {
    assert CRLF[1..] == [LF] && CRLF[1..][1..] == [];
    assert Sds.Formatted(CRLF[1..], args) == [LF];
  }

  /** redisFormatSdsCommandArgv: the same bytes, and its length assertion holds. */
  method FormatSdsCommandArgv(argv: seq<seq<byte>>) returns (cmd: Sds.Sds, totlen: nat)
    ensures fresh(cmd) && cmd.Valid() && cmd.Contents() == Wire(argv) && cmd.len == totlen
  {
    totlen := TotalLength(argv);
    WireIsHeadAndBulks(argv);
    cmd := new Sds.Sds([]);
    cmd.MakeRoomFor(totlen);
    HeaderFormats(|argv|);
    cmd.CatFmt(STAR_FORMAT, [Sds.IntArg(|argv|)]);
    assert cmd.Contents() == Head(|argv|) + Bulks(argv[..0]);
    var j := 0;
    while j < |argv|
      invariant 0 <= j <= |argv| && cmd.Valid() && fresh(cmd) && fresh(cmd.buf)
      invariant cmd.Contents() == Head(|argv|) + Bulks(argv[..j])
    {
      BulksStep(argv, j, Head(|argv|));
      CatBulk(cmd, argv[j]);
      j := j + 1;
    }
    assert argv[..j] == argv;
  }

  /** One turn of the loop: header line, bytes, CR LF. */
  method CatBulk(cmd: Sds.Sds, arg: seq<byte>)
    requires cmd.Valid()
    modifies cmd, cmd.buf
    ensures cmd.Valid() && (cmd.buf == old(cmd.buf) || fresh(cmd.buf))
    ensures cmd.Contents() == old(cmd.Contents()) + Bulk(arg)
  {
    ghost var done := cmd.Contents();
    HeaderFormats(|arg|);
    cmd.CatFmt(DOLLAR_FORMAT, [Sds.UintArg(|arg|)]);
    cmd.CatLen(arg);
    cmd.CatLen(CRLF);
    BulkPieces(done, arg);
    Associates(done + BulkHead(|arg|), arg, CRLF);
  }
}
