/**
  The terminal control sequences the frame engine writes, and the decimal
  rendering of integers used inside a cursor-position sequence, with the
  parser that reads them back.
 */
module Ansi {

  const ESC: char := '\U{1B}'

  /** Erase the whole screen, then move the cursor home. */
  const CLEAR_SCREEN: string := [ESC] + "[2J" + [ESC] + "[H"
  /** Select the white foreground colour. */
  const WHITE: string := [ESC] + "[37m"
  /** Reset all character attributes. */
  const RESET: string := [ESC] + "[0m"

  predicate IsDigit(c: char) {
    '0' <= c <= '9'
  }

  predicate AllDigits(s: string) {
    forall i :: 0 <= i < |s| ==> IsDigit(s[i])
  }

  function DigitChar(d: nat): (c: char)
    requires d < 10
    ensures IsDigit(c)
    ensures DigitValue(c) == d
  {
    ('0' as int + d) as char
  }

  function DigitValue(c: char): nat
    requires IsDigit(c)
  {
    (c as int - '0' as int) as nat
  }

  /** The shortest decimal numeral of `n`, most significant digit first. */
  function NatToDecimal(n: nat): (s: string)
    ensures 1 <= |s|
    ensures AllDigits(s)
    ensures |s| > 1 ==> s[0] != '0'
    decreases n
  {
    if n < 10 then [DigitChar(n)] else NatToDecimal(n / 10) + [DigitChar(n % 10)]
  }

  /** Decimal numeral of an integer, with a leading minus sign when negative. */
  function IntToDecimal(i: int): (s: string)
    ensures 1 <= |s|
    ensures i >= 0 ==> AllDigits(s)
    ensures i < 0 <==> s[0] == '-'
  {
    if i < 0 then "-" + NatToDecimal(-i) else NatToDecimal(i)
  }

  /** The cursor-position sequence `ESC [ row ; col H`. */
  function MoveCursor(row: int, col: int): string
  {
    [ESC, '['] + IntToDecimal(row) + [';'] + IntToDecimal(col) + ['H']
  }

  /** The value of a numeral, read most significant digit first. */
  function DecimalValue(s: string): nat
    requires AllDigits(s)
  {
    if |s| == 0 then 0 else DecimalValue(s[..|s| - 1]) * 10 + DigitValue(s[|s| - 1])
  }

  /** The length of the longest all-digit prefix of `s`. */
  function DigitPrefixLength(s: string): (k: nat)
    ensures k <= |s|
    ensures AllDigits(s[..k])
    ensures k < |s| ==> !IsDigit(s[k])
  {
    if |s| == 0 || !IsDigit(s[0]) then 0
    else
      var k := 1 + DigitPrefixLength(s[1..]);
      assert s[..k] == [s[0]] + s[1..][..k - 1];
      k
  }

  /** Reads a numeral at the head of `s`; fails when `s` does not start with a digit. */
  function ParseNat(s: string): (r: Option<(nat, string)>)
    ensures r.Some? ==> |r.value.1| < |s|
  {
    var k := DigitPrefixLength(s);
    if k == 0 then None else Some((DecimalValue(s[..k]), s[k..]))
  }

  /** Reads an optionally negative numeral at the head of `s`. */
  function ParseInt(s: string): (r: Option<(int, string)>)
    ensures r.Some? ==> |r.value.1| < |s|
  {
    if |s| > 0 && s[0] == '-' then
      match ParseNat(s[1..])
      case None => None
      case Some((n, rest)) => Some((-(n as int), rest))
    else
      match ParseNat(s)
      case None => None
      case Some((n, rest)) => Some((n as int, rest))
  }

  datatype Option<+T> = None | Some(value: T)

  lemma {:induction false} DecimalValueOfNumeral(n: nat)
    ensures DecimalValue(NatToDecimal(n)) == n
    decreases n
  {
    var s := NatToDecimal(n);
    if n >= 10 {
      assert s[..|s| - 1] == NatToDecimal(n / 10);
      DecimalValueOfNumeral(n / 10);
    }
  }

  lemma {:induction false} DigitPrefixOfNumeral(d: string, t: string)
    requires AllDigits(d)
    requires |t| == 0 || !IsDigit(t[0])
    ensures DigitPrefixLength(d + t) == |d|
    decreases |d|
  {
    if |d| > 0 {
      assert (d + t)[1..] == d[1..] + t;
      DigitPrefixOfNumeral(d[1..], t);
    }
  }

  /** Reading back a rendered integer returns it, and leaves the text after it. */
  lemma ParseIntRoundTrip(i: int, t: string)
    requires |t| == 0 || !IsDigit(t[0])
    ensures ParseInt(IntToDecimal(i) + t) == Some((i, t))
  {
    var n: nat := if i < 0 then -i else i;
    var d := NatToDecimal(n);
    DigitPrefixOfNumeral(d, t);
    DecimalValueOfNumeral(n);
    assert (d + t)[..|d|] == d;
    assert (d + t)[|d|..] == t;
    if i < 0 {
      assert (IntToDecimal(i) + t)[1..] == d + t;
    } else {
      assert d[0] != '-';
    }
  }
}
