/**
 The dynamic strings of sds.cpp: a buffer with a length, some free space after it
 and a NUL terminator, grown in place by the appending operations.
 */
module Sds {
  import opened Bytes

  const MAX_PREALLOC: nat := 1024 * 1024

  /** One value consumed by a conversion of `CatFmt`. */
  datatype Arg = IntArg(n: int) | UintArg(u: nat) | StrArg(s: seq<byte>)

  /** memcpy of `t` to position `at`. */
  method Store(a: array<byte>, at: nat, t: seq<byte>)
    requires at + |t| <= a.Length
    modifies a
    ensures a[..at + |t|] == old(a[..at]) + t
    ensures a[at + |t|..] == old(a[at + |t|..])
  {
    forall i | 0 <= i < |t| {
      a[at + i] := t[i];
    }
  }

  /** memmove of the `n` bytes at `from` to the front. */
  method MoveDown(a: array<byte>, from: nat, n: nat)
    requires from + n <= a.Length
    modifies a
    ensures a[..n] == old(a[from..from + n])
  {
    forall i | 0 <= i < n {
      a[i] := a[from + i];
    }
  }

  /** sdsrange: the bytes kept by an inclusive range whose negative ends count from the back. */
  function Kept(s: seq<byte>, start: int, end: int): seq<byte> {
    var n := |s|;
    var i := if start < 0 then (if n + start < 0 then 0 else n + start) else start;
    var e := if end < 0 then (if n + end < 0 then 0 else n + end) else end;
    var j := if e >= n then n else e + 1;
    if i >= j then [] else s[i..j]
  }

  lemma NothingKept(start: int, end: int)
    ensures Kept([], start, end) == []
  {}

  lemma KeptSuffix(s: seq<byte>, pos: nat)
    requires pos <= |s|
    ensures Kept(s, pos, -1) == s[pos..]
  {}

  /** The normalization of the range in sdsrange: where to start and how many bytes to keep. */
  method KeptBounds(len: nat, start0: int, end0: int, ghost s: seq<byte>) returns (start: nat, newlen: nat)
    requires 0 < len == |s|
    ensures newlen <= len && (newlen > 0 ==> start + newlen <= len)
    ensures Kept(s, start0, end0) == if newlen == 0 then [] else s[start..start + newlen]
  {
    start := if start0 >= 0 then start0 else if len + start0 < 0 then 0 else len + start0;
    var end := if end0 >= 0 then end0 else if len + end0 < 0 then 0 else len + end0;
    newlen := if start > end then 0 else end - start + 1;
    if newlen != 0 {
      if start >= len {
        newlen := 0;
      } else if end >= len {
        end := len - 1;
        newlen := end - start + 1;
      }
    } else {
      start := 0;
    }
  }

  // ------------------------------------------------------------ format strings

  const PERCENT: byte := 37
  const LOWER_S: byte := 115
  const UPPER_S: byte := 83
  const LOWER_I: byte := 105
  const UPPER_I: byte := 73
  const LOWER_U: byte := 117
  const UPPER_U: byte := 85
  const UPPER_T: byte := 84

  predicate TakesStr(c: byte) { c == LOWER_S || c == UPPER_S }
  predicate TakesInt(c: byte) { c == LOWER_I || c == UPPER_I }
  predicate TakesUint(c: byte) { c == LOWER_U || c == UPPER_U || c == UPPER_T }

  /** The conversions of `fmt` are complete and `args` supplies a value of the right type for each. */
  predicate Matches(fmt: seq<byte>, args: seq<Arg>)
    decreases |fmt|
  {
    if fmt == [] then true
    else if fmt[0] != PERCENT then Matches(fmt[1..], args)
    else if |fmt| == 1 then false
    else if TakesStr(fmt[1]) then args != [] && args[0].StrArg? && Matches(fmt[2..], args[1..])
    else if TakesInt(fmt[1]) then args != [] && args[0].IntArg? && Matches(fmt[2..], args[1..])
    else if TakesUint(fmt[1]) then args != [] && args[0].UintArg? && Matches(fmt[2..], args[1..])
    else Matches(fmt[2..], args)
  }

  function Formatted(fmt: seq<byte>, args: seq<Arg>): seq<byte>
    requires Matches(fmt, args)
    decreases |fmt|
  {
    if fmt == [] then []
    else if fmt[0] != PERCENT then [fmt[0]] + Formatted(fmt[1..], args)
    else if TakesStr(fmt[1]) then
      (if fmt[1] == LOWER_S then CStr(args[0].s) else args[0].s) + Formatted(fmt[2..], args[1..])
    else if TakesInt(fmt[1]) then SDec(args[0].n) + Formatted(fmt[2..], args[1..])
    else if TakesUint(fmt[1]) then Dec(args[0].u) + Formatted(fmt[2..], args[1..])
    else [fmt[1]] + Formatted(fmt[2..], args)
  }

  /**
   What each byte of a format string gives, in byte values: after a percent sign s and S take a
   string, s up to its first zero byte; i and I a signed number; u, U and T an unsigned one; any
   other byte after a percent sign, and every byte without one, is itself.
   */
  lemma Conversion(c: byte, fmt: seq<byte>, arg: Arg, args: seq<Arg>)
    requires Matches(fmt, args)
    ensures (c == 115 || c == 83) && arg.StrArg? ==>
              Matches([37, c] + fmt, [arg] + args) &&
              Formatted([37, c] + fmt, [arg] + args) == (if c == 115 then CStr(arg.s) else arg.s) + Formatted(fmt, args)
    ensures (c == 105 || c == 73) && arg.IntArg? ==>
              Matches([37, c] + fmt, [arg] + args) && Formatted([37, c] + fmt, [arg] + args) == SDec(arg.n) + Formatted(fmt, args)
    ensures (c == 117 || c == 85 || c == 84) && arg.UintArg? ==>
              Matches([37, c] + fmt, [arg] + args) && Formatted([37, c] + fmt, [arg] + args) == Dec(arg.u) + Formatted(fmt, args)
    ensures c != 115 && c != 83 && c != 105 && c != 73 && c != 117 && c != 85 && c != 84 ==>
              Matches([37, c] + fmt, args) && Formatted([37, c] + fmt, args) == [c] + Formatted(fmt, args)
    ensures c != 37 ==> Matches([c] + fmt, args) && Formatted([c] + fmt, args) == [c] + Formatted(fmt, args)
  {
    assert ([37, c] + fmt)[2..] == fmt && ([c] + fmt)[1..] == fmt && ([arg] + args)[1..] == args;
  }

  class Sds {
    var buf: array<byte>
    var len: nat
    var free: nat

    /** The bookkeeping fields agree; the terminator may be missing while a string is being built. */
    ghost predicate Sized()
      reads this
    {
      buf.Length == len + free + 1
    }

    ghost predicate Valid()
      reads this, buf
    {
      Sized() && buf[len] == NUL
    }

    ghost function Contents(): (s: seq<byte>)
      reads this, buf
      requires Sized()
      ensures |s| == len
    {
      buf[..len]
    }

    constructor (init: seq<byte>)
      ensures Valid() && fresh(buf) && Contents() == init && free == 0
    {
      len := |init|;
      free := 0;
      buf := new byte[|init| + 1];
      new;
      Store(buf, 0, init);
      buf[|init|] := NUL;
      assert buf[..len] == init;
    }

    /** sdsMakeRoomFor: the contents stay, and `addlen` more bytes are sure to fit. */
    method MakeRoomFor(addlen: nat)
      requires Sized()
      modifies this
      ensures Sized() && (buf == old(buf) || fresh(buf))
      ensures len == old(len) && free >= addlen && Contents() == old(Contents())
      ensures old(free) >= addlen ==> buf == old(buf) && free == old(free)
      ensures old(free) < addlen ==>
                len + free == old(len) + addlen + if old(len) + addlen < 1048576 then old(len) + addlen else 1048576
      ensures old(free) >= addlen ==> buf == old(buf) && free == old(free)
      ensures buf[len] == old(buf[len])
    {
      if free >= addlen { return; }
      var newlen := len + addlen;
      if newlen < MAX_PREALLOC {
        newlen := newlen * 2;
      } else {
        newlen := newlen + MAX_PREALLOC;
      }
      var newbuf := new byte[newlen + 1];
      Store(newbuf, 0, buf[..len + 1]);
      assert newbuf[..len + 1] == buf[..len + 1];
      assert newbuf[len] == buf[..len + 1][len];
      assert newbuf[..len] == newbuf[..len + 1][..len];
      assert buf[..len] == buf[..len + 1][..len];
      buf := newbuf;
      free := newlen - len;
    }

    /** Appends without a terminator, which the caller stores when it is done. */
    method Put(t: seq<byte>)
      requires Sized()
      modifies this, buf
      ensures Sized() && (buf == old(buf) || fresh(buf))
      ensures Contents() == old(Contents()) + t
    {
      if free < |t| {
        MakeRoomFor(|t|);
      }
      Store(buf, len, t);
      assert buf[..len] == old(buf[..len]);
      len := len + |t|;
      free := free - |t|;
    }

    /** sdscatlen. */
    method CatLen(t: seq<byte>)
      requires Valid()
      modifies this, buf
      ensures Valid() && (buf == old(buf) || fresh(buf))
      ensures Contents() == old(Contents()) + t
      ensures old(free) >= |t| ==> buf == old(buf) && free == old(free) - |t|
    {
      var curlen := len;
      MakeRoomFor(|t|);
      Store(buf, curlen, t);
      assert buf[..curlen + |t|] == old(buf[..len]) + t;
      len := curlen + |t|;
      free := free - |t|;
      buf[len] := NUL;
      assert buf[..len] == old(buf[..len]) + t;
    }

    /** sdsrange. */
    method Range(start0: int, end0: int)
      requires Valid()
      modifies this, buf
      ensures Valid() && buf == old(buf)
      ensures Contents() == Kept(old(Contents()), start0, end0)
      ensures len + free == old(len + free)
    {
      hide Kept;
      NothingKept(start0, end0);
      if len == 0 { return; }
      var start, newlen := KeptBounds(len, start0, end0, buf[..len]);
      ghost var kept := Kept(buf[..len], start0, end0);
      assert newlen > 0 ==> kept == buf[..len][start..start + newlen] == buf[start..start + newlen];
      if start != 0 && newlen != 0 {
        MoveDown(buf, start, newlen);
      }
      assert buf[..newlen] == kept;
      buf[newlen] := NUL;
      free := free + (len - newlen);
      len := newlen;
      assert buf[..newlen] == kept;
    }

    /** sdscatfmt. */
    method CatFmt(fmt: seq<byte>, args0: seq<Arg>)
      requires Valid() && Matches(fmt, args0)
      modifies this, buf
      ensures Valid() && (buf == old(buf) || fresh(buf))
      ensures Contents() == old(Contents()) + Formatted(fmt, args0)
    {
      hide Formatted;
      hide Matches;
      ghost var all := old(Contents());
      var f := 0;
      var args := args0;
      assert fmt[0..] == fmt;
      while f < |fmt|
        invariant 0 <= f <= |fmt| && Sized() && (buf == old(buf) || fresh(buf))
        invariant Matches(fmt[f..], args)
        invariant Contents() + Formatted(fmt[f..], args) == all + Formatted(fmt, args0)
        decreases |fmt| - f
      {
        if free == 0 {
          MakeRoomFor(1);
        }
        ghost var before := Contents();
        var piece;
        piece, f, args := NextPiece(fmt, f, args);
        Put(piece);
        Associates(before, piece, Formatted(fmt[f..], args));
      }
      assert fmt[f..] == [];
      NothingFormatted(args);
      ghost var done := Contents();
      assert done + [] == done;
      buf[len] := NUL;
    }
  }

  lemma NothingFormatted(args: seq<Arg>)
    requires Matches([], args)
    ensures Formatted([], args) == []
  {}

  /** The text of the next conversion or plain character of a format string. */
  method NextPiece(fmt: seq<byte>, f0: nat, args0: seq<Arg>)
    returns (piece: seq<byte>, f: nat, args: seq<Arg>)
    requires f0 < |fmt| && Matches(fmt[f0..], args0)
    ensures f0 < f <= |fmt| && Matches(fmt[f..], args)
    ensures Formatted(fmt[f0..], args0) == piece + Formatted(fmt[f..], args)
  {
    args := args0;
    var c := fmt[f0];
    assert fmt[f0..][0] == c;
    if c != PERCENT {
      assert fmt[f0..][1..] == fmt[f0 + 1..];
      return [c], f0 + 1, args;
    }
    assert fmt[f0..][1] == fmt[f0 + 1];
    assert fmt[f0..][2..] == fmt[f0 + 2..];
    var next := fmt[f0 + 1];
    f := f0 + 2;
    if TakesStr(next) {
      piece := if next == LOWER_S then CStr(args[0].s) else args[0].s;
      args := args[1..];
    } else if TakesInt(next) {
      piece := Numeral(args[0].n);
      args := args[1..];
    } else if TakesUint(next) {
      piece := Numeral(args[0].u);
      args := args[1..];
    } else {
      piece := [next];
    }
  }

  method Numeral(n: int) returns (s: seq<byte>)
    ensures s == SDec(n)
  {
    var digits := new byte[|SDec(n)| + 1];
    var l := SdsLl2Str(digits, n);
    s := digits[..l];
  }
}
