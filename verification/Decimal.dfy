/** Decimal numerals, as strconv.Itoa and %d print them and as a reader of addresses
    and ranges takes them apart again. */
module Decimal {

  predicate IsDigit(c: char) {
    '0' <= c <= '9'
  }

  function Digit(d: nat): (c: char)
    requires d < 10
    ensures IsDigit(c)
  {
    '0' + d as char
  }

  function DigitValue(c: char): (d: nat)
    requires IsDigit(c)
    ensures d < 10
  {
    (c - '0') as nat
  }

  predicate AllDigits(s: string) {
    forall i | 0 <= i < |s| :: IsDigit(s[i])
  }

  function Numeral(n: nat): (s: string)
    ensures s != [] && AllDigits(s)
  {
    if n < 10 then [Digit(n)] else Numeral(n / 10) + [Digit(n % 10)]
  }

  function Text(n: int): string {
    if n < 0 then "-" + Numeral(-n) else Numeral(n)
  }

  function Value(s: string): nat
    requires AllDigits(s)
  {
    if s == [] then 0 else 10 * Value(s[..|s| - 1]) + DigitValue(s[|s| - 1])
  }

  /** How many digits the text begins with. */
  function LeadingDigits(s: string): (k: nat)
    ensures k <= |s| && AllDigits(s[..k]) && (k < |s| ==> !IsDigit(s[k]))
  {
    if s == [] || !IsDigit(s[0]) then 0
    else
      var k := 1 + LeadingDigits(s[1..]);
      assert s[..k] == [s[0]] + s[1..][..k - 1];
      k
  }

  lemma {:induction false} ValueOfNumeral(n: nat)
    ensures Value(Numeral(n)) == n
  {
    var s := Numeral(n);
    if n >= 10 {
      ValueOfNumeral(n / 10);
      assert s[..|s| - 1] == Numeral(n / 10);
    }
  }

  /** A numeral ends where its digits end. */
  lemma {:induction false} LeadingDigitsOf(s: string, rest: string)
    requires AllDigits(s) && (rest != [] ==> !IsDigit(rest[0]))
    ensures LeadingDigits(s + rest) == |s|
  {
    if s == [] {
      assert s + rest == rest;
    } else {
      assert (s + rest)[1..] == s[1..] + rest;
      LeadingDigitsOf(s[1..], rest);
    }
  }

  /** Reading the numeral of n back from the front of a text gives n. */
  lemma ReadNumeral(n: nat, rest: string)
    requires rest != [] ==> !IsDigit(rest[0])
    ensures LeadingDigits(Numeral(n) + rest) == |Numeral(n)|
    ensures (Numeral(n) + rest)[..|Numeral(n)|] == Numeral(n)
    ensures (Numeral(n) + rest)[|Numeral(n)|..] == rest
    ensures Value(Numeral(n)) == n
  {
    LeadingDigitsOf(Numeral(n), rest);
    ValueOfNumeral(n);
  }

  /** Every further digit counts ten times less. */
  lemma DigitsAre(s: string, c: char)
    requires AllDigits(s) && '0' <= c <= '9'
    ensures AllDigits(s + [c]) && Value(s + [c]) == 10 * Value(s) + (c as int - '0' as int)
  {
    assert (s + [c])[..|s|] == s;
  }

  /** A numeral is the digits of its value: it reads back, and has no leading zero. */
  lemma {:induction false} NumeralIs(n: nat)
    ensures Value(Numeral(n)) == n && (n > 0 ==> Numeral(n)[0] != '0')
  {
    ValueOfNumeral(n);
    if n >= 10 {
      NumeralIs(n / 10);
      assert Numeral(n)[0] == Numeral(n / 10)[0];
    }
  }

  predicate AllZeros(s: string) {
    forall i | 0 <= i < |s| :: s[i] == '0'
  }

  lemma {:induction false} ZeroIff(s: string)
    requires AllDigits(s)
    ensures Value(s) == 0 <==> AllZeros(s)
  {
    if s != [] {
      var t := s[..|s| - 1];
      ZeroIff(t);
      assert forall i | 0 <= i < |t| :: s[i] == t[i];
    }
  }
}
