/** Decimal rendering of integers as Python's `str(n)` and `format(n, ",")`
    produce it, and a parser that reads such text back. */
module Decimal {
  import opened Wrappers

  predicate IsDigit(c: char) {
    '0' <= c <= '9'
  }

  predicate AllDigits(s: seq<char>) {
    forall i :: 0 <= i < |s| ==> IsDigit(s[i])
  }

  function DigitChar(d: nat): (c: char)
    requires d < 10
    ensures IsDigit(c)
  {
    (('0' as int) + d) as char
  }

  function DigitValue(c: char): (d: nat)
    requires IsDigit(c)
    ensures d < 10
  {
    (c as int) - ('0' as int)
  }

  /** Value of a string of decimal digits (the empty string reads as 0). */
  function Value(s: seq<char>): nat
    requires AllDigits(s)
  {
    if s == [] then 0 else Value(s[..|s| - 1]) * 10 + DigitValue(s[|s| - 1])
  }

  /** The shortest decimal digit string of `n`, as `str(n)` gives it for n >= 0. */
  function Digits(n: nat): (s: seq<char>)
    ensures |s| >= 1 && AllDigits(s)
    ensures s[0] == '0' ==> n == 0
    decreases n
  {
    if n < 10 then [DigitChar(n)] else Digits(n / 10) + [DigitChar(n % 10)]
  }

  /** Reading back the digits of `n` gives `n`. */
  lemma {:induction false} DigitsValue(n: nat)
    ensures Value(Digits(n)) == n
    decreases n
  {
    if n >= 10 {
      var s := Digits(n);
      assert s[..|s| - 1] == Digits(n / 10);
      DigitsValue(n / 10);
    }
  }

  /** Exactly three digits of `m`, with leading zeros. */
  function Digits3(m: nat): (s: seq<char>)
    requires m < 1000
    ensures |s| == 3 && AllDigits(s)
  {
    [DigitChar(m / 100), DigitChar((m / 10) % 10), DigitChar(m % 10)]
  }

  /** The text with every comma deleted. */
  function RemoveCommas(s: seq<char>): (r: seq<char>)
    ensures |r| <= |s|
    ensures forall i :: 0 <= i < |r| ==> r[i] != ','
  {
    if s == [] then []
    else if s[0] == ',' then RemoveCommas(s[1..])
    else [s[0]] + RemoveCommas(s[1..])
  }

  lemma {:induction false} RemoveCommasAppend(a: seq<char>, b: seq<char>)
    ensures RemoveCommas(a + b) == RemoveCommas(a) + RemoveCommas(b)
    decreases |a|
  {
    if a == [] {
      assert a + b == b;
    } else {
      assert (a + b)[1..] == a[1..] + b;
      RemoveCommasAppend(a[1..], b);
    }
  }

  lemma {:induction false} RemoveCommasDigits(s: seq<char>)
    requires AllDigits(s)
    ensures RemoveCommas(s) == s
    decreases |s|
  {
    if s != [] {
      RemoveCommasDigits(s[1..]);
    }
  }

  /** Three decimal places peeled off the end: the digits of `n` (n >= 1000) are
      the digits of `n / 1000` followed by the three low digits. */
  lemma DigitsSplit3(n: nat)
    requires n >= 1000
    ensures Digits(n) == Digits(n / 1000) + Digits3(n % 1000)
  {
    var m := n % 1000;
    assert (n / 10) / 10 == n / 100;
    assert (n / 100) / 10 == n / 1000;
    assert m / 100 == (n / 100) % 10;
    assert (m / 10) % 10 == (n / 10) % 10;
    assert m % 10 == n % 10;
    calc {
      Digits(n);
      Digits(n / 10) + [DigitChar(n % 10)];
      Digits(n / 100) + [DigitChar((n / 10) % 10)] + [DigitChar(n % 10)];
      Digits(n / 1000) + [DigitChar((n / 100) % 10)] + [DigitChar((n / 10) % 10)] + [DigitChar(n % 10)];
    }
  }

  /** The shape of Python's grouped output: digits, with a comma exactly at every
      fourth position counted from the right end (never the first), and a first
      group of one to three digits. So every group after the first has exactly
      three digits. */
  predicate WellGrouped(s: seq<char>) {
    && |s| >= 1
    && |s| % 4 != 0
    && forall i :: 0 <= i < |s| ==>
         (s[i] == ',' <==> (i > 0 && (|s| - i) % 4 == 0)) && (s[i] != ',' ==> IsDigit(s[i]))
  }

  /** Thousands grouping with commas, as Python's `format(n, ",")` for n >= 0:
      the text has the grouping shape and deleting its commas gives the digits
      of `n`. */
  function Group(n: nat): (s: seq<char>)
    ensures WellGrouped(s)
    ensures RemoveCommas(s) == Digits(n)
    decreases n
  {
    if n < 1000 then
      DigitsLength(n);
      RemoveCommasDigits(Digits(n));
      Digits(n)
    else
      var g := Group(n / 1000);
      var d := Digits3(n % 1000);
      GroupedAppend(g, d);
      RemoveCommasAppend(g + [','], d);
      RemoveCommasAppend(g, [',']);
      RemoveCommasDigits(d);
      DigitsSplit3(n);
      g + [','] + d
  }

  /** Appending a comma and a three-digit group keeps the grouping shape. */
  lemma GroupedAppend(g: seq<char>, d: seq<char>)
    requires WellGrouped(g)
    requires |d| == 3 && AllDigits(d)
    ensures WellGrouped(g + [','] + d)
  {
    var s := g + [','] + d;
    assert |s| == |g| + 4;
    forall i | 0 <= i < |s|
      ensures (s[i] == ',' <==> (i > 0 && (|s| - i) % 4 == 0)) && (s[i] != ',' ==> IsDigit(s[i]))
    {
      if i < |g| {
        assert s[i] == g[i];
        assert (|s| - i) % 4 == (|g| - i) % 4;
      } else if i == |g| {
        assert s[i] == ',';
      } else {
        assert s[i] == d[i - |g| - 1];
      }
    }
  }

  lemma {:induction false} DigitsLength(n: nat)
    requires n < 1000
    ensures |Digits(n)| <= 3
  {
    if n >= 10 {
      DigitsLength(n / 10);
    }
  }

  /** `str(x)` for any integer: a leading '-' then the digits of |x|. */
  function IntStr(x: int): (s: seq<char>)
    ensures |s| >= 1 && s[0] != ' '
    ensures s[0] == '-' <==> x < 0
    ensures var u := if x < 0 then s[1..] else s;
      |u| >= 1 && AllDigits(u) && Value(u) == (if x < 0 then -x else x) && (u[0] == '0' ==> x == 0)
  {
    DigitsValue(if x < 0 then -x else x);
    if x < 0 then
      var s := ['-'] + Digits(-x);
      assert s[1..] == Digits(-x);
      s
    else
      assert IsDigit(Digits(x)[0]);
      Digits(x)
  }

  /** `format(x, ",")` for any integer: a leading '-' then the grouped |x|. */
  function Commas(x: int): (s: seq<char>)
    ensures |s| >= 1 && s[0] != ' '
    ensures s[0] == '-' <==> x < 0
    ensures var u := if x < 0 then s[1..] else s;
      WellGrouped(u) && RemoveCommas(u) == Digits(if x < 0 then -x else x)
  {
    if x < 0 then
      var s := ['-'] + Group(-x);
      assert s[1..] == Group(-x);
      s
    else
      assert IsDigit(Group(x)[0]);
      Group(x)
  }

  /** Reads an optionally negative decimal number, ignoring commas. Text without
      digits, or with any other character, does not parse. */
  function ParseInt(s: seq<char>): Option<int> {
    var negative := |s| > 0 && s[0] == '-';
    var body := RemoveCommas(if negative then s[1..] else s);
    if body == [] || !AllDigits(body) then None
    else
      var v: int := Value(body);
      if negative then Some(-v) else Some(v)
  }

  /** `str(x)` reads back as `x`. */
  lemma IntStrParses(x: int)
    ensures ParseInt(IntStr(x)) == Some(x)
  {
    var m := if x < 0 then -x else x;
    RemoveCommasDigits(Digits(m));
    DigitsValue(m);
    if x < 0 {
      assert IntStr(x)[1..] == Digits(m);
    } else {
      assert Digits(m)[0] != '-';
    }
  }

  /** The comma-grouped `x` reads back as `x`. */
  lemma CommasParses(x: int)
    ensures ParseInt(Commas(x)) == Some(x)
  {
    var m := if x < 0 then -x else x;
    DigitsValue(m);
    if x < 0 {
      assert Commas(x)[1..] == Group(m);
    } else {
      assert Group(m)[0] != '-' by { assert IsDigit(Group(m)[0]); }
    }
  }

  /** Characters that can occur in `IntStr` or `Commas` output. */
  predicate NumChar(c: char) {
    IsDigit(c) || c == ',' || c == '-'
  }

  lemma IntStrChars(x: int)
    ensures forall i :: 0 <= i < |IntStr(x)| ==> NumChar(IntStr(x)[i])
  {
  }

  lemma CommasChars(x: int)
    ensures forall i :: 0 <= i < |Commas(x)| ==> NumChar(Commas(x)[i])
  {
    var g := Group(if x < 0 then -x else x);
    assert forall i :: 0 <= i < |g| ==> NumChar(g[i]);
  }
}
