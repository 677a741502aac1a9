/**
  Decimal text of an unsigned integer, as Rust's `{}` formatting writes the
  `u8` adjacent-mine count of a cell (src/grid.rs:53): the shortest string of
  ASCII digits, most significant first, with no sign and no leading zero.

  `Value` reads such a string back; `ValueOfDecimal` is the round trip that
  makes the written digits a faithful record of the number.
 */
module Decimal {

  /** The unsigned 8-bit integer type of `Cell::adjacent_mines`. */
  type U8 = x: int | 0 <= x < 256

  predicate IsDigit(c: char) {
    '0' <= c <= '9'
  }

  /** The character of one decimal digit. */
  function DigitChar(d: nat): (c: char)
    requires d < 10
    ensures IsDigit(c)
    ensures DigitValue(c) == d
  {
    ('0' as int + d) as char
  }

  /** The numeric value of a digit character. */
  function DigitValue(c: char): (d: nat)
    requires IsDigit(c)
    ensures d < 10
  {
    c as int - '0' as int
  }

  /** The decimal representation of `n`. */
  function ToDecimal(n: nat): (s: string)
    ensures 1 <= |s|
    ensures forall i :: 0 <= i < |s| ==> IsDigit(s[i])
    ensures |s| == 1 <==> n < 10
    ensures |s| > 1 ==> s[0] != '0'
    decreases n
  {
    if n < 10 then [DigitChar(n)] else ToDecimal(n / 10) + [DigitChar(n % 10)]
  }

  /** The number a string of digits denotes, most significant digit first. */
  function Value(s: string): nat
    requires forall i :: 0 <= i < |s| ==> IsDigit(s[i])
  {
    if |s| == 0 then 0 else 10 * Value(s[..|s| - 1]) + DigitValue(s[|s| - 1])
  }

  /** Reading back the decimal text of `n` gives `n`. */
  lemma {:induction false} ValueOfDecimal(n: nat)
    ensures Value(ToDecimal(n)) == n
    decreases n
  {
    if n >= 10 {
      var s := ToDecimal(n);
      assert s[..|s| - 1] == ToDecimal(n / 10);
      ValueOfDecimal(n / 10);
    }
  }

  /** Decimal text is injective: distinct numbers are written differently. */
  lemma DecimalInjective(m: nat, n: nat)
    requires ToDecimal(m) == ToDecimal(n)
    ensures m == n
  {
    ValueOfDecimal(m);
    ValueOfDecimal(n);
  }

  /** The number of leading digit characters of `s`. */
  function DigitPrefix(s: string): (k: nat)
    ensures k <= |s|
    ensures forall i :: 0 <= i < k ==> IsDigit(s[i])
    ensures k < |s| ==> !IsDigit(s[k])
  {
    if |s| > 0 && IsDigit(s[0]) then 1 + DigitPrefix(s[1..]) else 0
  }

  /** A digit run followed by a non-digit (or nothing) is exactly the digit prefix. */
  lemma {:induction false} DigitPrefixOfRun(d: string, rest: string)
    requires forall i :: 0 <= i < |d| ==> IsDigit(d[i])
    requires |rest| > 0 ==> !IsDigit(rest[0])
    ensures DigitPrefix(d + rest) == |d|
  {
    if |d| > 0 {
      assert (d + rest)[1..] == d[1..] + rest;
      DigitPrefixOfRun(d[1..], rest);
    }
  }

  /** Digits with a nonzero leading digit denote a positive number. */
  lemma {:induction false} ValuePositive(d: string)
    requires 1 <= |d|
    requires forall i :: 0 <= i < |d| ==> IsDigit(d[i])
    requires d[0] != '0'
    ensures Value(d) >= 1
    decreases |d|
  {
    if |d| > 1 {
      ValuePositive(d[..|d| - 1]);
    }
  }

  /**
    Digits without a leading zero (a single `0` aside) are the decimal text
    of their value: each number has exactly one such spelling.
   */
  lemma {:induction false} CanonicalDecimal(d: string)
    requires 1 <= |d|
    requires forall i :: 0 <= i < |d| ==> IsDigit(d[i])
    requires |d| > 1 ==> d[0] != '0'
    ensures ToDecimal(Value(d)) == d
    decreases |d|
  {
    var last := d[|d| - 1];
    if |d| == 1 {
      assert DigitChar(DigitValue(last)) == last;
      assert d == [last];
    } else {
      var init := d[..|d| - 1];
      ValuePositive(init);
      CanonicalDecimal(init);
      var n := Value(d);
      assert n / 10 == Value(init) && n % 10 == DigitValue(last);
      assert DigitChar(DigitValue(last)) == last;
      assert d == init + [last];
    }
  }
}
