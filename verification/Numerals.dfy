/** Numbers in decimal and hexadecimal digits, as std::to_string, atoi, strtoll and std::hex have them. */
module Numerals {

  type Base = b: nat | b == 10 || b == 16 witness 10

  /** The value of a hexadecimal digit; 16 where there is none. */
  function DigitValue(c: char): nat {
    if '0' <= c <= '9' then c as int - '0' as int
    else if 'a' <= c <= 'f' then c as int - 'a' as int + 10
    else if 'A' <= c <= 'F' then c as int - 'A' as int + 10
    else 16
  }

  predicate IsDigit(c: char, base: Base) { DigitValue(c) < base }

  function Digit(d: nat): (c: char)
    requires d < 16
    ensures DigitValue(c) == d
  {
    if d < 10 then '0' + d as char else 'a' + (d - 10) as char
  }

  /** A number without leading zeros, in lower case. */
  function Numeral(n: nat, base: Base): (s: string)
    ensures s != "" && forall i :: 0 <= i < |s| ==> IsDigit(s[i], base)
    decreases n
  {
    if n < base then [Digit(n)] else Numeral(n / base, base) + [Digit(n % base)]
  }

  /** The value of the digits at the front of a string, after those already read. */
  function Digits(s: string, base: Base, soFar: nat): nat {
    if s != "" && IsDigit(s[0], base) then Digits(s[1..], base, base * soFar + DigitValue(s[0])) else soFar
  }

  lemma {:induction false} DigitsAppend(a: string, b: string, base: Base, soFar: nat)
    requires forall i :: 0 <= i < |a| ==> IsDigit(a[i], base)
    ensures Digits(a + b, base, soFar) == Digits(b, base, Digits(a, base, soFar))
    decreases |a|
  {
    if a == "" {
      assert a + b == b;
    } else {
      assert (a + b)[1..] == a[1..] + b;
      DigitsAppend(a[1..], b, base, base * soFar + DigitValue(a[0]));
    }
  }

  /** Reading the digits of a number gives the number. */
  lemma {:induction false} DigitsOfNumeral(n: nat, base: Base)
    ensures Digits(Numeral(n, base), base, 0) == n
    decreases n
  {
    var last := [Digit(n % base)];
    assert last[1..] == "";
    if n >= base {
      DigitsOfNumeral(n / base, base);
      DigitsAppend(Numeral(n / base, base), last, base, 0);
    }
  }

  /** No leading zero, and no capital letter. */
  lemma {:induction false} PlainNumeral(n: nat, base: Base)
    ensures var s := Numeral(n, base); (n > 0 ==> s[0] != '0') && forall i :: 0 <= i < |s| ==> '0' <= s[i] <= '9' || 'a' <= s[i] <= 'f'
    decreases n
  {
    if n >= base {
      PlainNumeral(n / base, base);
    }
  }
}
