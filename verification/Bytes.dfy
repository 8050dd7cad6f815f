/**
 Bytes, and the decimal numerals that every other module writes or reads.
 The conversion loops are those of hiutil.cpp, sds.cpp and hiredis.cpp; each is
 proved against `Dec`, the canonical numeral.
 */
module Bytes {
  newtype byte = x: int | 0 <= x < 256

  const NUL: byte := 0
  const LF: byte := 10
  const CR: byte := 13
  const DOLLAR: byte := 36
  const STAR: byte := 42
  const PLUS: byte := 43
  const MINUS: byte := 45
  const COLON: byte := 58
  const ZERO: byte := 48
  const CRLF: seq<byte> := [13, 10]

  lemma Associates(a: seq<byte>, b: seq<byte>, c: seq<byte>)
    ensures a + b + c == a + (b + c)
  {}

  function Pow2(k: nat): (p: nat)
    ensures p > 0
  {
    if k == 0 then 1 else 2 * Pow2(k - 1)
  }

  predicate IsDigit(c: byte) {
    48 <= c <= 57
  }

  predicate AllDigits(s: seq<byte>) {
    forall i :: 0 <= i < |s| ==> IsDigit(s[i])
  }

  function DigitVal(c: byte): nat
    requires IsDigit(c)
  {
    c as int - 48
  }

  function DigitOf(d: nat): (c: byte)
    requires d < 10
    ensures IsDigit(c) && DigitVal(c) == d
  {
    (48 + d) as byte
  }

  /** The canonical decimal numeral of a natural number. */
  function Dec(n: nat): (s: seq<byte>)
    ensures |s| >= 1 && AllDigits(s)
  {
    if n < 10 then [DigitOf(n)] else Dec(n / 10) + [DigitOf(n % 10)]
  }

  /** The canonical decimal numeral of an integer. */
  function SDec(n: int): seq<byte> {
    if n < 0 then [MINUS] + Dec(-n) else Dec(n)
  }

  /** The value of a digit string, most significant digit first; leading zeros allowed. */
  function DecVal(s: seq<byte>): nat
    requires AllDigits(s)
  {
    if s == [] then 0 else DecVal(s[..|s| - 1]) * 10 + DigitVal(s[|s| - 1])
  }

  lemma {:induction false} DecRoundTrip(n: nat)
    ensures DecVal(Dec(n)) == n
  {
    if n >= 10 {
      DecRoundTrip(n / 10);
      var s := Dec(n);
      assert s[..|s| - 1] == Dec(n / 10);
    } else {
      assert Dec(n)[..0] == [];
    }
  }

  lemma DecValSnoc(s: seq<byte>, c: byte)
    requires AllDigits(s) && IsDigit(c)
    ensures AllDigits(s + [c]) && DecVal(s + [c]) == DecVal(s) * 10 + DigitVal(c)
  {
    assert (s + [c])[..|s|] == s;
  }

  /** A numeral of two or more digits does not start with zero. */
  lemma {:induction false} DecLeading(n: nat)
    ensures n > 0 ==> Dec(n)[0] != ZERO
    ensures |Dec(n)| == 1 <==> n < 10
  {
    if n >= 10 {
      DecLeading(n / 10);
    }
  }

  /** Four digits at a time, as `countDigits` peels them. */
  lemma DecLength4(n: nat)
    ensures n < 10 ==> |Dec(n)| == 1
    ensures 10 <= n < 100 ==> |Dec(n)| == 2
    ensures 100 <= n < 1000 ==> |Dec(n)| == 3
    ensures 1000 <= n < 10000 ==> |Dec(n)| == 4
    ensures n >= 10000 ==> |Dec(n)| == 4 + |Dec(n / 10000)|
  {
    if n >= 10000 {
      assert n / 10 / 10 / 10 / 10 == n / 10000;
      assert |Dec(n)| == 1 + |Dec(n / 10)|;
      assert |Dec(n / 10)| == 1 + |Dec(n / 10 / 10)|;
      assert |Dec(n / 10 / 10)| == 1 + |Dec(n / 10 / 10 / 10)|;
    } else if n >= 10 {
      assert |Dec(n)| == 1 + |Dec(n / 10)|;
      if n >= 100 {
        assert |Dec(n / 10)| == 1 + |Dec(n / 10 / 10)|;
      }
    }
  }

  /** hiredis.cpp countDigits: the width of the numeral without printing it. */
  method CountDigits(v0: nat) returns (result: nat)
    ensures result == |Dec(v0)|
  {
    var v := v0;
    result := 1;
    while true
      invariant result + |Dec(v)| == 1 + |Dec(v0)|
      decreases v
    {
      DecLength4(v);
      if v < 10 { return result; }
      if v < 100 { return result + 1; }
      if v < 1000 { return result + 2; }
      if v < 10000 { return result + 3; }
      v := v / 10000;
      result := result + 4;
    }
  }

  /** hiutil.cpp _uint_len. */
  method UintLen(num0: nat) returns (n: nat)
    ensures n == |Dec(num0)|
  {
    var num := num0;
    n := 0;
    if num == 0 { return 1; }
    while num != 0
      invariant n + (if num == 0 then 0 else |Dec(num)|) == |Dec(num0)|
      decreases num
    {
      n := n + 1;
      num := num / 10;
    }
  }

  /** hiutil.cpp _hi_atoi, without the 32-bit wrap of its accumulator. */
  method HiAtoi(line: seq<byte>) returns (value: int)
    ensures value == if line != [] && AllDigits(line) then DecVal(line) else -1
  {
    if |line| == 0 { return -1; }
    value := 0;
    var i := 0;
    while i < |line|
      invariant 0 <= i <= |line|
      invariant AllDigits(line[..i]) && value == DecVal(line[..i])
    {
      if line[i] < 48 || line[i] > 57 {
        return -1;
      }
      DecValSnoc(line[..i], line[i]);
      assert line[..i + 1] == line[..i] + [line[i]];
      value := value * 10 + (line[i] as int - 48);
      i := i + 1;
    }
    assert line[..i] == line;
  }

  function Reversed<T>(s: seq<T>): (r: seq<T>)
    ensures |r| == |s|
    ensures forall i :: 0 <= i < |s| ==> r[i] == s[|s| - 1 - i]
  {
    if s == [] then [] else Reversed(s[1..]) + [s[0]]
  }

  /** The numeral as the conversion loops emit it, least significant digit first. */
  function DecLE(n: nat): seq<byte> {
    if n < 10 then [DigitOf(n)] else [DigitOf(n % 10)] + DecLE(n / 10)
  }

  lemma {:induction false} DecIsReversed(n: nat)
    ensures Reversed(DecLE(n)) == Dec(n)
  {
    if n >= 10 {
      DecIsReversed(n / 10);
      assert DecLE(n)[1..] == DecLE(n / 10);
    } else {
      assert Reversed([DigitOf(n)]) == [DigitOf(n)];
    }
  }

  lemma ReversedSnoc(s: seq<byte>, c: byte)
    ensures Reversed(s + [c]) == [c] + Reversed(s)
  {}

  /** Reverses the first `len` cells of `s`, the closing loop of the conversions. */
  method ReversePrefix(s: array<byte>, len: nat)
    requires len <= s.Length
    modifies s
    ensures s[..len] == Reversed(old(s[..len]))
    ensures s[len..] == old(s[len..])
  {
    var i := 0;
    while i < len / 2
      invariant 0 <= i <= len / 2
      invariant forall k :: 0 <= k < i ==> s[k] == old(s[len - 1 - k]) && s[len - 1 - k] == old(s[k])
      invariant forall k :: i <= k < len - i ==> s[k] == old(s[k])
      invariant forall k :: len <= k < s.Length ==> s[k] == old(s[k])
    {
      var c := s[i];
      s[i] := s[len - i - 1];
      s[len - i - 1] := c;
      i := i + 1;
    }
  }

  /** What is left to emit after `len` digits of `le`, while the loops divide `v` down. */
  ghost predicate Emitting(le: seq<byte>, len: nat, v: nat) {
    len <= |le| && (if v == 0 then len == |le| else le[len..] == DecLE(v))
  }

  lemma EmitStep(le: seq<byte>, len: nat, v: nat)
    requires Emitting(le, len, v) && v != 0
    ensures len < |le| && le[len] == DigitOf(v % 10) && Emitting(le, len + 1, v / 10)
  {
    assert le[len] == le[len..][0];
    assert le[len + 1..] == le[len..][1..];
  }

  /** One turn of the loop of _hi_itoa: the old cell moves up before the digit is stored. */
  method StoreDigit(s: array<byte>, len: nat, c: byte) returns (len': nat)
    requires len + 1 < s.Length
    modifies s
    ensures len' == len + 1 && s[..len'] == old(s[..len]) + [c]
  {
    s[len + 1] := s[len];
    s[len] := c;
    len' := len + 1;
    assert s[..len'] == s[..len] + [c];
  }

  /** The digit loop of _hi_itoa. */
  method EmitShifting(s: array<byte>, num0: nat) returns (len: nat)
    requires 0 < num0 && |DecLE(num0)| < s.Length
    modifies s
    ensures len == |DecLE(num0)| && s[..len] == DecLE(num0)
  {
    var num := num0;
    ghost var le := DecLE(num);
    len := 0;
    while num % 10 != 0 || num / 10 != 0
      invariant Emitting(le, len, num)
      invariant s[..len] == le[..len]
      decreases num
    {
      EmitStep(le, len, num);
      assert le[..len + 1] == le[..len] + [le[len]];
      var c := DigitOf(num % 10);
      num := num / 10;
      len := StoreDigit(s, len, c);
    }
    assert s[..len] == le;
  }

  /** Sign, terminator and reversal: the common tail of the conversions. */
  method FinishNumeral(s: array<byte>, digits: nat, negative: bool) returns (len: nat)
    requires digits + (if negative then 1 else 0) < s.Length
    modifies s
    ensures len == digits + (if negative then 1 else 0)
    ensures s[..len] == Reversed(old(s[..digits]) + (if negative then [MINUS] else []))
    ensures s[len] == NUL
  {
    ghost var body := s[..digits];
    len := digits;
    if negative {
      s[len] := MINUS;
      len := len + 1;
    }
    s[len] := NUL;
    assert s[..len] == body + (if negative then [MINUS] else []);
    assert s[len..][0] == NUL;
    ReversePrefix(s, len);
    assert s[len] == s[len..][0];
  }

  lemma SignedNumeral(value: int)
    ensures var mag := if value < 0 then -value else value;
            Reversed(DecLE(mag) + (if value < 0 then [MINUS] else [])) == SDec(value)
            && |DecLE(mag)| == |Dec(mag)|
  {
    hide DecLE;
    hide Dec;
    hide Reversed;
    var mag := if value < 0 then -value else value;
    DecIsReversed(mag);
    ReversedSnoc(DecLE(mag), MINUS);
    assert DecLE(mag) + [] == DecLE(mag);
  }

  /** The C string held by a buffer: everything before the first NUL. */
  function CStr(s: seq<byte>): seq<byte> {
    if s == [] || s[0] == NUL then [] else [s[0]] + CStr(s[1..])
  }

  lemma {:induction false} CStrPrefix(s: seq<byte>, k: nat)
    requires k < |s| && s[k] == NUL && NUL !in s[..k]
    ensures CStr(s) == s[..k]
  {
    if k > 0 {
      assert s[..k][0] == s[0];
      assert s[1..][..k - 1] == s[..k][1..];
      CStrPrefix(s[1..], k - 1);
      assert s[..k] == [s[0]] + s[1..][..k - 1];
    }
  }

  lemma NumeralHasNoNul(num: int)
    ensures NUL !in SDec(num)
  {
    var d := Dec(if num < 0 then -num else num);
    forall c | c in d
      ensures c != NUL
    {
      var i :| 0 <= i < |d| && d[i] == c;
    }
  }

  /** The text that follows a call of _hi_itoa, given the text that was there before. */
  function ItoaText(before: seq<byte>, num: int): seq<byte> {
    if num == 0 then [ZERO] + (if before == [] then [] else before[1..]) else SDec(num)
  }

  /**
   hiutil.cpp _hi_itoa, writing into the caller's buffer. Zero takes the early
   return: the digit is stored but no terminator is, so the rest of a longer
   number that was there before stays part of the string.
   */
  method HiItoa(s: array<byte>, num: int)
    requires s.Length > |SDec(num)|
    requires num == 0 ==> CStr(s[..]) != []
    modifies s
    ensures CStr(s[..]) == ItoaText(old(CStr(s[..])), num)
  {
    if num == 0 {
      s[0] := ZERO;
      assert s[..][1..] == old(s[..][1..]);
      return;
    }
    SignedNumeral(num);
    var len := EmitShifting(s, if num < 0 then -num else num);
    len := FinishNumeral(s, len, num < 0);
    NumeralHasNoNul(num);
    assert s[..][..len] == s[..len];
    CStrPrefix(s[..], len);
  }

  /** sds.cpp sdsll2str: like HiItoa but zero is not special, and the length is returned. */
  method SdsLl2Str(s: array<byte>, value: int) returns (l: nat)
    requires s.Length > |SDec(value)|
    modifies s
    ensures l == |SDec(value)| && s[..l] == SDec(value) && s[l] == NUL
  {
    SignedNumeral(value);
    var v := if value < 0 then -value else value;
    l := EmitPlain(s, v);
    l := FinishNumeral(s, l, value < 0);
  }

  /** The digit loop of sdsll2str, which runs at least once. */
  method EmitPlain(s: array<byte>, v0: nat) returns (l: nat)
    requires |DecLE(v0)| < s.Length
    modifies s
    ensures l == |DecLE(v0)| && s[..l] == DecLE(v0)
  {
    var v := v0;
    ghost var le := DecLE(v);
    if v != 0 {
      EmitStep(le, 0, v);
    }
    s[0] := DigitOf(v % 10);
    v := v / 10;
    l := 1;
    assert s[..1] == le[..1];
    hide DecLE;
    while v != 0
      invariant 0 <= v && Emitting(le, l, v) && |le| < s.Length
      invariant s[..l] == le[..l]
      decreases v
    {
      EmitStep(le, l, v);
      s[l] := DigitOf(v % 10);
      assert s[..l + 1] == s[..l] + [s[l]];
      assert le[..l + 1] == le[..l] + [le[l]];
      v := v / 10;
      l := l + 1;
    }
    assert s[..l] == le;
  }
}
