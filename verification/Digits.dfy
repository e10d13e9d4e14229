/**
 Positional notation: digits in a base between 2 and 36, most significant first.
 */
module Digits {
  import opened Core

  const NO_DIGIT := 0xFF

  function Digit(value: nat, uppercase: bool): char
    requires value < 36
  {
    if value < 10 then '0' + value as char else (if uppercase then 'A' else 'a') + (value - 10) as char
  }

  function DigitValue(c: char): (value: nat)
    ensures value < 36 || value == NO_DIGIT
  {
    if '0' <= c <= '9' then (c - '0') as nat
    else if 'a' <= c <= 'z' then (c - 'a') as nat + 10
    else if 'A' <= c <= 'Z' then (c - 'A') as nat + 10
    else NO_DIGIT
  }

  lemma DigitValueOfDigit(value: nat, uppercase: bool)
    requires value < 36
    ensures DigitValue(Digit(value, uppercase)) == value
  {
  }

  predicate IsNumeral(text: string, base: nat) {
    forall i :: 0 <= i < |text| ==> DigitValue(text[i]) < base
  }

  /** The number a string of digits denotes. */
  function ValueOf(text: string, base: nat): nat {
    if text == [] then 0 else ValueOf(text[..|text| - 1], base) * base + DigitValue(text[|text| - 1])
  }

  /** The numeral of a number, without leading zeros. */
  function Numeral(value: nat, base: nat, uppercase: bool): (text: string)
    requires 2 <= base <= 36
    ensures text != []
    decreases value
  {
    if value < base then [Digit(value, uppercase)]
    else Numeral(Quotient(value, base), base, uppercase) + [Digit(Remainder(value, base), uppercase)]
  }

  function Quotient(value: nat, base: nat): (q: nat)
    requires 2 <= base
    ensures value > 0 ==> q < value
    ensures q * base + Remainder(value, base) == value
    ensures q == 0 <==> value < base
  {
    var q := value / base;
    QuotientFacts(value, base, q);
    q
  }

  function Remainder(value: nat, base: nat): (r: nat)
    requires 2 <= base
    ensures r < base
  {
    value % base
  }

  lemma QuotientFacts(value: nat, base: nat, q: nat)
    requires 2 <= base && q == value / base
    ensures value > 0 ==> q < value
    ensures q * base + value % base == value
    ensures q == 0 <==> value < base
  {
    if q > 0 {
      MulMono(q, 2, base);
      MulMono(base, 1, q);
    }
  }

  lemma ValueAppend(text: string, c: char, base: nat)
    ensures ValueOf(text + [c], base) == ValueOf(text, base) * base + DigitValue(c)
  {
    assert (text + [c])[..|text|] == text;
  }

  /** Reading a numeral gives the number back. */
  lemma {:induction false} ValueOfNumeral(value: nat, base: nat, uppercase: bool)
    requires 2 <= base <= 36
    ensures IsNumeral(Numeral(value, base, uppercase), base)
    ensures ValueOf(Numeral(value, base, uppercase), base) == value
    decreases value
  {
    hide Digit, DigitValue;
    if value < base {
      DigitValueOfDigit(value, uppercase);
      ValueAppend([], Digit(value, uppercase), base);
      assert [] + [Digit(value, uppercase)] == [Digit(value, uppercase)];
    } else {
      var q, r := Quotient(value, base), Remainder(value, base);
      ValueOfNumeral(q, base, uppercase);
      DigitValueOfDigit(r, uppercase);
      ValueAppend(Numeral(q, base, uppercase), Digit(r, uppercase), base);
    }
  }

  /** Leading zeros do not change the value. */
  lemma {:induction false} LeadingZeros(n: nat, text: string, base: nat)
    ensures ValueOf(Fill('0', n) + text, base) == ValueOf(text, base)
    decreases n + |text|
  {
    hide DigitValue;
    if text != [] {
      var front, last := text[..|text| - 1], text[|text| - 1];
      LeadingZeros(n, front, base);
      assert Fill('0', n) + text == Fill('0', n) + front + [last];
      ValueAppend(Fill('0', n) + front, last, base);
    } else if n > 0 {
      LeadingZeros(n - 1, [], base);
      assert Fill('0', n - 1) + [] == Fill('0', n - 1);
      assert Fill('0', n) + [] == Fill('0', n - 1) + ['0'];
      ValueAppend(Fill('0', n - 1), '0', base);
      assert DigitValue('0') == 0 by { ZeroDigit(); }
      assert ValueOf([], base) == 0;
    }
  }

  lemma ZeroDigit()
    ensures DigitValue('0') == 0
  {
  }

  /** Powers, for counting digits. */
  function Power(base: nat, n: nat): nat { if n == 0 then 1 else base * Power(base, n - 1) }

  lemma {:induction false} PowerPositive(base: nat, n: nat)
    requires base > 0
    ensures Power(base, n) > 0
  {
    if n > 0 {
      PowerPositive(base, n - 1);
    }
  }

  lemma {:induction false} PowerAdd(base: nat, m: nat, n: nat)
    ensures Power(base, m + n) == Power(base, m) * Power(base, n)
  {
    if m > 0 {
      PowerAdd(base, m - 1, n);
      MulGroups(base, Power(base, m - 1), Power(base, n));
    }
  }

  lemma MulGroups(x: nat, y: nat, z: nat)
    ensures x * (y * z) == x * y * z
  {
  }

  /** The value of a numeral put behind another. */
  lemma {:induction false} ValueConcat(a: string, b: string, base: nat)
    ensures ValueOf(a + b, base) == ValueOf(a, base) * Power(base, |b|) + ValueOf(b, base)
    decreases |b|
  {
    hide DigitValue;
    if b == [] {
      assert a + b == a;
    } else {
      var front, last := b[..|b| - 1], b[|b| - 1];
      ValueConcat(a, front, base);
      assert a + b == a + front + [last];
      ValueAppend(a + front, last, base);
      Regroup(ValueOf(a, base), Power(base, |front|), ValueOf(front, base), base, DigitValue(last));
    }
  }

  lemma Regroup(v: nat, p: nat, f: nat, base: nat, d: nat)
    ensures (v * p + f) * base + d == v * (base * p) + (f * base + d)
  {
  }

  /** The numeral of a number below base^n has at most n digits. */
  lemma {:induction false} NumeralLength(value: nat, base: nat, uppercase: bool, n: nat)
    requires 2 <= base <= 36 && value < Power(base, n) && n > 0
    ensures |Numeral(value, base, uppercase)| <= n
    decreases value
  {
    hide Digit;
    if value >= base {
      var q := Quotient(value, base);
      assert n > 1;
      if q >= Power(base, n - 1) {
        MulMono(base, Power(base, n - 1), q);
      }
      NumeralLength(q, base, uppercase, n - 1);
    }
  }
}
