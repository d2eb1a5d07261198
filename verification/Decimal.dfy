/** Decimal numbers as `fmt` prints them with %d and scans them back. */
module Decimal {
  import opened Text

  predicate IsDigit(c: char)
  {
    '0' <= c <= '9'
  }

  function DigitChar(d: nat): (c: char)
    requires d < 10
    ensures IsDigit(c) && DigitValue(c) == d
  {
    ('0' as int + d) as char
  }

  function DigitValue(c: char): (d: nat)
    requires IsDigit(c)
    ensures d < 10
  {
    c as int - '0' as int
  }

  function Print(n: nat): (s: string)
    ensures s != "" && AllDigits(s)
  {
    if n < 10 then [DigitChar(n)] else Print(n / 10) + [DigitChar(n % 10)]
  }

  predicate AllDigits(s: string)
  {
    forall i :: 0 <= i < |s| ==> IsDigit(s[i])
  }

  function Value(s: string): nat
    requires AllDigits(s)
  {
    if s == "" then 0 else 10 * Value(s[..|s| - 1]) + DigitValue(s[|s| - 1])
  }

  lemma {:induction false} PrintValue(n: nat)
    ensures Value(Print(n)) == n
  {
    var s := Print(n);
    if n < 10 {
      assert s[..0] == "";
    } else {
      assert s[..|s| - 1] == Print(n / 10);
      PrintValue(n / 10);
    }
  }

  /** What `fmt` counts as a space. */
  predicate IsSpace(c: char)
  {
    var u := c as int;
    0x09 <= u <= 0x0d || u == 0x20 || u == 0x85 || u == 0xa0 || u == 0x1680 || 0x2000 <= u <= 0x200a
    || u == 0x2028 || u == 0x2029 || u == 0x202f || u == 0x205f || u == 0x3000
  }

  datatype Scanned = Scanned(value: int, rest: string)

  /** Skipping blanks before a verb; a newline among them is an error. */
  function SkipSpace(s: string): Option<string>
  {
    if s == "" then Some(s)
    else if |s| >= 2 && s[0] == '\r' && s[1] == '\n' then SkipSpace(s[1..])
    else if s[0] == '\n' then None
    else if IsSpace(s[0]) then SkipSpace(s[1..])
    else Some(s)
  }

  function DigitRun(s: string): (n: nat)
    ensures n <= |s| && AllDigits(s[..n]) && (n < |s| ==> !IsDigit(s[n]))
  {
    if s != "" && IsDigit(s[0]) then
      var n := 1 + DigitRun(s[1..]);
      assert forall i :: 1 <= i < n ==> s[..n][i] == s[1..][..n - 1][i - 1];
      n
    else 0
  }

  /** %d into an unsigned variable of the given size. Input after the digits is left for what follows. */
  function ScanUint(s: string, bound: nat): Option<Scanned>
  {
    var skipped := SkipSpace(s);
    if skipped.None? then None
    else
      var n := DigitRun(skipped.value);
      if n == 0 || Value(skipped.value[..n]) >= bound then None
      else Some(Scanned(Value(skipped.value[..n]), skipped.value[n..]))
  }

  /** %d into a signed 64-bit variable. */
  function ScanInt(s: string): Option<Scanned>
  {
    var skipped := SkipSpace(s);
    if skipped.None? then None
    else
      var negative := skipped.value != "" && skipped.value[0] == '-';
      var signed := skipped.value != "" && (skipped.value[0] == '-' || skipped.value[0] == '+');
      var t := if signed then skipped.value[1..] else skipped.value;
      var n := DigitRun(t);
      var v: int := if negative then -(Value(t[..n]) as int) else Value(t[..n]);
      if n == 0 || !(-0x8000_0000_0000_0000 <= v < 0x8000_0000_0000_0000) then None
      else Some(Scanned(v, t[n..]))
  }

  /** A literal in the scan format must be matched character for character. */
  function ScanLiteral(s: string, literal: string): Option<string>
  {
    if literal <= s then Some(s[|literal|..]) else None
  }

  lemma {:induction false} DigitRunIs(s: string, rest: string)
    requires AllDigits(s) && (rest == "" || !IsDigit(rest[0]))
    ensures DigitRun(s + rest) == |s|
  {
    if s == "" {
      assert s + rest == rest;
    } else {
      assert (s + rest)[1..] == s[1..] + rest;
      DigitRunIs(s[1..], rest);
    }
  }

  lemma PrintedDigits(n: nat, rest: string)
    requires rest == "" || !IsDigit(rest[0])
    ensures var s := Print(n) + rest;
      && SkipSpace(s) == Some(s) && DigitRun(s) == |Print(n)|
      && s[..|Print(n)|] == Print(n) && s[|Print(n)|..] == rest && IsDigit(s[0])
  {
    DigitRunIs(Print(n), rest);
    assert (Print(n) + rest)[0] == Print(n)[0];
  }

  lemma ScanPrintedUint(n: nat, bound: nat, rest: string)
    requires n < bound && (rest == "" || !IsDigit(rest[0]))
    ensures ScanUint(Print(n) + rest, bound) == Some(Scanned(n, rest))
  {
    hide Print;
    PrintedDigits(n, rest);
    PrintValue(n);
  }

  lemma ScanPrintedInt(n: nat, rest: string)
    requires n < 0x8000_0000_0000_0000 && (rest == "" || !IsDigit(rest[0]))
    ensures ScanInt(Print(n) + rest) == Some(Scanned(n, rest))
  {
    hide Print;
    PrintedDigits(n, rest);
    PrintValue(n);
  }

  lemma ScanLiteralIs(literal: string, rest: string)
    ensures ScanLiteral(literal + rest, literal) == Some(rest)
  {
  }
}
