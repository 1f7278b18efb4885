/**
 Natural numbers written in decimal or in lower-case hexadecimal, without leading zeros.
 */
module Numerals {

  const DECIMAL: nat := 10
  const HEX: nat := 16

  predicate IsBase(base: nat) {
    base == DECIMAL || base == HEX
  }

  predicate IsDigit(base: nat, c: char) {
    '0' <= c <= '9' || (base == HEX && 'a' <= c <= 'f')
  }

  function DigitOf(base: nat, d: nat): (c: char)
    requires IsBase(base) && d < base
    ensures IsDigit(base, c)
  {
    if d < 10 then '0' + d as char else 'a' + (d - 10) as char
  }

  function ValueOfDigit(base: nat, c: char): (d: nat)
    requires IsBase(base) && IsDigit(base, c)
    ensures d < base
  {
    if '0' <= c <= '9' then (c - '0') as nat else 10 + (c - 'a') as nat
  }

  function Print(base: nat, n: nat): string
    requires IsBase(base)
  {
    if n < base then [DigitOf(base, n)] else Print(base, n / base) + [DigitOf(base, n % base)]
  }

  predicate AllDigits(base: nat, s: string) {
    forall i :: 0 <= i < |s| ==> IsDigit(base, s[i])
  }

  function Parse(base: nat, s: string): nat
    requires IsBase(base) && AllDigits(base, s)
  {
    if s == [] then 0
    else base * Parse(base, s[..|s| - 1]) + ValueOfDigit(base, s[|s| - 1])
  }

  /** A positive number as it is printed: digits, the first of them not zero. */
  predicate IsPositive(base: nat, s: string) {
    s != [] && s[0] != '0' && AllDigits(base, s)
  }

  lemma QuotientAndRest(base: nat, q: nat, d: nat)
    requires IsBase(base) && d < base
    ensures (base * q + d) / base == q && (base * q + d) % base == d
  {
  }

  lemma {:induction false} ParsePrint(base: nat, n: nat)
    requires IsBase(base)
    ensures AllDigits(base, Print(base, n)) && Parse(base, Print(base, n)) == n
    ensures n > 0 ==> IsPositive(base, Print(base, n))
    ensures Print(base, n) != []
  {
    if n < base {
      assert Print(base, n)[..0] == [];
    } else {
      ParsePrint(base, n / base);
      assert Print(base, n)[..|Print(base, n)| - 1] == Print(base, n / base);
    }
  }

  lemma {:induction false} PrintParse(base: nat, s: string)
    requires IsBase(base) && IsPositive(base, s)
    ensures Parse(base, s) > 0 && Print(base, Parse(base, s)) == s
  {
    var init, last := s[..|s| - 1], ValueOfDigit(base, s[|s| - 1]);
    if |s| == 1 {
      assert init == [] && s == [DigitOf(base, last)];
    } else {
      PrintParse(base, init);
      QuotientAndRest(base, Parse(base, init), last);
      assert s == init + [DigitOf(base, last)];
    }
  }

  lemma PrintIsInjective(base: nat, m: nat, n: nat)
    requires IsBase(base) && Print(base, m) == Print(base, n)
    ensures m == n
  {
    ParsePrint(base, m);
    ParsePrint(base, n);
  }
}
