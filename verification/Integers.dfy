/**
 Integers as text: the formatter, the parser, and what parsing makes of formatted text.
 */
module Integers {
  import opened Core
  import opened Digits
  import opened FormatSpecs

  // ------------------------------------------------------------ formatting: the specification

  function BaseOf(presentation: char): (base: nat)
    ensures base == 2 || base == 8 || base == 10 || base == 16
  {
    match presentation
    case 'b' => 2
    case 'B' => 2
    case 'o' => 8
    case 'x' => 16
    case 'X' => 16
    case 'p' => 16
    case _ => 10
  }

  predicate IsUpper(spec: FormatSpec) { spec.uppercase || spec.presentation == 'X' || spec.presentation == 'B' }

  function SignText(negative: bool, mode: Sign): string {
    if negative then "-" else match mode case NegativeOnly => "" case Always => "+" case Space => " "
  }

  function PrefixText(spec: FormatSpec): string {
    if !(spec.alternate || spec.presentation == 'p') then ""
    else match BaseOf(spec.presentation)
      case 2 => if IsUpper(spec) then "0B" else "0b"
      case 8 => "0"
      case 16 => if IsUpper(spec) then "0X" else "0x"
      case _ => ""
  }

  /** How much of the padding goes in front. */
  function LeftShare(align: Alignment, padding: nat): (left: nat)
    ensures left <= padding
  {
    match align
    case Default => padding
    case Right => padding
    case Left => 0
    case Center => padding / 2
  }

  function NumeralOf(value: nat, spec: FormatSpec): string { Numeral(value, BaseOf(spec.presentation), IsUpper(spec)) }

  function PaddingOf(value: nat, negative: bool, spec: FormatSpec): nat {
    var raw := |SignText(negative, spec.signMode)| + |PrefixText(spec)| + |NumeralOf(value, spec)|;
    if spec.width > raw then spec.width - raw else 0
  }

  function Formatted(value: nat, negative: bool, spec: FormatSpec): string {
    var prefix := SignText(negative, spec.signMode) + PrefixText(spec);
    var padding := PaddingOf(value, negative, spec);
    if spec.zeroPad && spec.align.Default? then prefix + Fill('0', padding) + NumeralOf(value, spec)
    else
      var left := LeftShare(spec.align, padding);
      Fill(spec.fill, left) + prefix + NumeralOf(value, spec) + Fill(spec.fill, padding - left)
  }

  // ------------------------------------------------------------ formatting: the program

  function Reversed(s: string): (r: string)
    ensures |r| == |s|
  {
    if s == [] then [] else [s[|s| - 1]] + Reversed(s[..|s| - 1])
  }

  /** The digit loop: least significant first into an array that 64 binary digits must fit. */
  method CollectDigits(value: nat, base: nat, uppercase: bool, digits: array<char>) returns (count: nat)
    requires value <= MAX_UINT64 && 2 <= base <= 36 && digits.Length == 65
    modifies digits
    ensures 1 <= count <= 64 && Reversed(digits[..count]) == Numeral(value, base, uppercase)
  {
    hide Numeral, Quotient, Remainder, Digit, Power;
    SixtyFourBits();
    var rest: nat := value;
    count := 0;
    ghost var numeral := Numeral(value, base, uppercase);
    while true
      invariant 0 <= count < 64 && rest * Power(2, count) <= value && (count > 0 ==> rest > 0)
      invariant Numeral(rest, base, uppercase) + Reversed(digits[..count]) == numeral
      decreases rest
    {
      NumeralStep(rest, base, uppercase);
      digits[count] := Digit(Remainder(rest, base), uppercase);
      ReversedAppend(digits[..count], digits[count]);
      assert digits[..count + 1] == digits[..count] + [digits[count]];
      RoomForMore(rest, base, count, value);
      rest := Quotient(rest, base);
      count := count + 1;
      if rest == 0 {
        break;
      }
    }
  }

  lemma ReversedAppend(s: string, c: char)
    ensures Reversed(s + [c]) == [c] + Reversed(s)
  {
    assert (s + [c])[..|s|] == s;
  }

  lemma NumeralStep(rest: nat, base: nat, uppercase: bool)
    requires 2 <= base <= 36
    ensures Quotient(rest, base) == 0 ==> Numeral(rest, base, uppercase) == [Digit(Remainder(rest, base), uppercase)]
    ensures Quotient(rest, base) != 0 ==>
      Numeral(rest, base, uppercase)
        == Numeral(Quotient(rest, base), base, uppercase) + [Digit(Remainder(rest, base), uppercase)]
    ensures rest > 0 ==> Quotient(rest, base) < rest
  {
  }

  /** While something is left, at most 63 digits have been written. */
  lemma RoomForMore(rest: nat, base: nat, count: nat, value: nat)
    requires 2 <= base && rest * Power(2, count) <= value <= MAX_UINT64 && count < 64
    ensures Quotient(rest, base) * Power(2, count + 1) <= value
    ensures Quotient(rest, base) > 0 ==> count + 1 < 64
  {
    var q, doubled := Quotient(rest, base), Power(2, count + 1);
    SixtyFourBits();
    HalfFits(q, base, rest, Power(2, count), value);
    assert doubled == 2 * Power(2, count);
    hide Power, Quotient, Remainder;
    MulMono(doubled, 1, q);
  }

  lemma HalfFits(q: nat, base: nat, rest: nat, p: nat, value: nat)
    requires q * base <= rest && 2 <= base && rest * p <= value
    ensures q * (2 * p) <= value
  {
    MulMono(q, 2, base);
    MulMono(p, q * 2, rest);
    assert q * (2 * p) == p * (q * 2);
  }

  lemma SixteenBits()
    ensures Power(2, 0) == 1 && Power(2, 16) == 0x1_0000
  {
    PowerAdd(2, 8, 8);
    assert Power(2, 8) == 256;
  }

  lemma SixtyFourBits()
    ensures Power(2, 0) == 1 && Power(2, 64) == MAX_UINT64 + 1
  {
    hide Power;
    SixteenBits();
    PowerAdd(2, 32, 32);
    PowerAdd(2, 16, 16);
  }

  /** Writes the collected digits, most significant first. */
  method WriteDigits(digits: array<char>, count: nat) returns (out: string)
    requires count <= digits.Length
    ensures out == Reversed(digits[..count])
  {
    var left := count;
    out := "";
    while left > 0
      invariant 0 <= left <= count
      invariant out + Reversed(digits[..left]) == Reversed(digits[..count])
    {
      left := left - 1;
      assert digits[..left + 1][..left] == digits[..left];
      out := out + [digits[left]];
    }
    assert digits[..0] == [];
  }

  method FormatUnsigned(value: nat, negative: bool, spec: FormatSpec) returns (out: string)
    requires value <= MAX_UINT64
    ensures out == Formatted(value, negative, spec)
  {
    hide Numeral, SignText, PrefixText, BaseOf, IsUpper, LeftShare;
    var base := BaseOf(spec.presentation);
    var uppercase := IsUpper(spec);
    var digits := new char[65](_ => '0');
    var digitCount := CollectDigits(value, base, uppercase, digits);
    var prefix := SignText(negative, spec.signMode) + PrefixText(spec);
    var rawLength := |prefix| + digitCount;
    var padding := if spec.width > rawLength then spec.width - rawLength else 0;
    var zeroPadded := spec.zeroPad && spec.align.Default?;
    if zeroPadded {
      out := prefix + Fill('0', padding);
    } else {
      out := Fill(spec.fill, LeftShare(spec.align, padding)) + prefix;
    }
    var written := WriteDigits(digits, digitCount);
    out := out + written;
    if !zeroPadded {
      out := out + Fill(spec.fill, padding - LeftShare(spec.align, padding));
    }
  }

  /** A fixed-width integer type. */
  datatype IntegerType = IntegerType(signed: bool, maximum: nat) {
    predicate Valid() {
      if signed then maximum in {0x7F, 0x7FFF, 0x7FFF_FFFF, 0x7FFF_FFFF_FFFF_FFFF}
      else maximum in {0xFF, 0xFFFF, 0xFFFF_FFFF, 0xFFFF_FFFF_FFFF_FFFF}
    }

    function Minimum(): int { var top: int := maximum; if signed then -top - 1 else 0 }

    predicate Holds(value: int) { Minimum() <= value <= maximum }
  }

  function Magnitude(value: int): nat { if value < 0 then -value else value }

  function IntegerText(value: int, spec: FormatSpec): Result<string> {
    if spec.presentation == NO_PRESENTATION || spec.presentation in "dbBoxX"
    then Ok(Formatted(Magnitude(value), value < 0, spec))
    else Err(InvalidFormat)
  }

  method FormatInteger(value: int, integer: IntegerType, spec: FormatSpec) returns (r: Result<string>)
    requires integer.Valid() && integer.Holds(value)
    ensures r == IntegerText(value, spec)
  {
    if !(spec.presentation == NO_PRESENTATION || spec.presentation in "dbBoxX") {
      return Err(InvalidFormat);
    }
    var negative := integer.signed && value < 0;
    var magnitude := if negative then -(value + 1) + 1 else value;
    var text := FormatUnsigned(magnitude, negative, spec);
    return Ok(text);
  }

  // ------------------------------------------------------------ parsing: the specification

  /** Base 0 detects `0x`, `0b` and `0o`. */
  datatype ParseOptions = ParseOptions(base: nat, allowSign: bool, allowSeparators: bool, requireEntireToken: bool)

  function SignLength(text: string, options: ParseOptions): (n: nat)
    ensures n <= |text|
  {
    if options.allowSign && text != [] && (text[0] == '+' || text[0] == '-') then 1 else 0
  }

  predicate IsMinus(text: string, options: ParseOptions) { SignLength(text, options) == 1 && text[0] == '-' }

  /** The base a letter behind a leading zero announces. */
  function LetterBase(c: char): nat {
    if c == 'x' || c == 'X' then 16 else if c == 'b' || c == 'B' then 2 else if c == 'o' || c == 'O' then 8 else 0
  }

  function PrefixLength(text: string, base: nat): (n: nat)
    ensures n <= |text|
  {
    if |text| > 1 && text[0] == '0' && LetterBase(text[1]) != 0 && (base == 0 || base == LetterBase(text[1])) then 2
    else 0
  }

  function EffectiveBase(text: string, base: nat): nat {
    if base != 0 then base else if PrefixLength(text, 0) == 2 then LetterBase(text[1]) else 10
  }

  /** How far digits and separators reach. */
  function Extent(text: string, base: nat, separators: bool): (n: nat)
    ensures n <= |text|
  {
    if text == [] || !IsDigitOrSeparator(text[0], base, separators) then 0
    else 1 + Extent(text[1..], base, separators)
  }

  predicate IsDigitOrSeparator(c: char, base: nat, separators: bool) {
    (separators && c == '_') || DigitValue(c) < base
  }

  /** Separators stand only between digits, one at a time. */
  predicate SeparatorsBehindDigits(run: string) {
    && (run != [] ==> run[0] != '_')
    && forall i {:trigger run[i]} :: 0 < i < |run| ==> !(run[i - 1] == '_' && run[i] == '_')
  }

  predicate WellSeparated(run: string) {
    run != [] && SeparatorsBehindDigits(run) && run[|run| - 1] != '_'
  }

  function WithoutSeparators(run: string): string {
    if run == [] then []
    else WithoutSeparators(run[..|run| - 1]) + if run[|run| - 1] == '_' then [] else [run[|run| - 1]]
  }

  /** The number a run of digits denotes, if it is well formed. */
  function RunValue(text: string, base: nat, options: ParseOptions): Option<nat> {
    var n := Extent(text, base, options.allowSeparators);
    if (n < |text| && options.requireEntireToken) || !WellSeparated(text[..n]) then None
    else Some(ValueOf(WithoutSeparators(text[..n]), base))
  }

  function Signed(magnitude: int, minus: bool): int { if minus then -magnitude else magnitude }

  /** The number a text without a sign denotes: perhaps a base prefix, and a run of digits. */
  function UnsignedOf(text: string, options: ParseOptions): Option<nat> {
    var base := EffectiveBase(text, options.base);
    if text == [] || !(2 <= base <= 36) then None
    else RunValue(text[PrefixLength(text, options.base)..], base, options)
  }

  /** The number a text denotes. */
  function NumberOf(text: string, options: ParseOptions): Option<int> {
    match UnsignedOf(text[SignLength(text, options)..], options)
    case None => None
    case Some(magnitude) => Some(Signed(magnitude, IsMinus(text, options)))
  }

  // ------------------------------------------------------------ parsing: the program

  lemma ExtentAt(text: string, i: nat, base: nat, separators: bool)
    requires i <= |text| && forall k :: 0 <= k < i ==> IsDigitOrSeparator(text[k], base, separators)
    ensures Extent(text, base, separators) == i + Extent(text[i..], base, separators)
  {
    if i == 0 {
      assert text[0..] == text;
    } else {
      assert text[1..][i - 1..] == text[i..];
      ExtentAt(text[1..], i - 1, base, separators);
    }
  }

  /** A longer run of digits never denotes a smaller number. */
  lemma {:induction false} ValueGrows(run: string, i: nat, base: nat)
    requires i <= |run| && base >= 1
    ensures ValueOf(WithoutSeparators(run[..i]), base) <= ValueOf(WithoutSeparators(run), base)
    decreases |run|
  {
    hide DigitValue;
    if i == |run| {
      assert run[..i] == run;
    } else {
      var front, last := run[..|run| - 1], run[|run| - 1];
      assert front[..i] == run[..i];
      ValueGrows(front, i, base);
      if last == '_' {
        assert WithoutSeparators(run) == WithoutSeparators(front) + [] == WithoutSeparators(front);
      } else {
        ValueAppend(WithoutSeparators(front), last, base);
        MulMono(ValueOf(WithoutSeparators(front), base), 1, base);
      }
    }
  }

  /** The overflow test of the digit loop, `m > (max - d) / b`, is exact. */
  lemma OverflowTest(m: nat, d: nat, base: nat)
    requires base >= 2 && d < base <= 36
    ensures m > (MAX_UINT64 - d) / base <==> m * base + d > MAX_UINT64
  {
    var q := (MAX_UINT64 - d) / base;
    assert q * base <= MAX_UINT64 - d < (q + 1) * base;
    if m > q {
      MulMono(base, q + 1, m);
    } else {
      MulMono(base, m, q);
    }
  }

  /** What is known when the digit loop has read `text[..i]`. */
  ghost predicate ReadSoFar(text: string, i: nat, base: nat, separators: bool, magnitude: nat) {
    && i <= |text|
    && (forall k :: 0 <= k < i ==> IsDigitOrSeparator(text[k], base, separators))
    && SeparatorsBehindDigits(text[..i])
    && magnitude == ValueOf(WithoutSeparators(text[..i]), base)
  }

  /** The run reaches at least as far as the loop has read. */
  lemma RunContains(text: string, i: nat, base: nat, separators: bool, magnitude: nat)
    requires ReadSoFar(text, i, base, separators, magnitude) && base >= 1
    ensures var n := Extent(text, base, separators);
            && i <= n && (i < |text| && IsDigitOrSeparator(text[i], base, separators) ==> i < n)
            && (i == |text| || !IsDigitOrSeparator(text[i], base, separators) ==> i == n)
            && magnitude <= ValueOf(WithoutSeparators(text[..n]), base)
  {
    ExtentAt(text, i, base, separators);
    var n := Extent(text, base, separators);
    assert text[..n][..i] == text[..i];
    ValueGrows(text[..n], i, base);
  }

  lemma ReadSeparator(text: string, i: nat, base: nat, magnitude: nat)
    requires ReadSoFar(text, i, base, true, magnitude) && i < |text| && text[i] == '_' && base >= 1
    ensures i > 0 && text[i - 1] != '_' ==> ReadSoFar(text, i + 1, base, true, magnitude)
    ensures i == 0 || text[i - 1] == '_' ==> !WellSeparated(text[..Extent(text, base, true)])
  {
    hide DigitValue, ValueOf;
    if i > 0 && text[i - 1] != '_' {
      assert text[..i + 1][..i] == text[..i];
      assert WithoutSeparators(text[..i + 1]) == WithoutSeparators(text[..i]) + [] == WithoutSeparators(text[..i]);
    } else {
      RunContains(text, i, base, true, magnitude);
      var run := text[..Extent(text, base, true)];
      assert run[i] == '_';
    }
  }

  lemma ReadDigit(text: string, i: nat, base: nat, separators: bool, magnitude: nat, next: nat)
    requires ReadSoFar(text, i, base, separators, magnitude) && i < |text| && base <= 36
    requires DigitValue(text[i]) < base && next == magnitude * base + DigitValue(text[i])
    ensures ReadSoFar(text, i + 1, base, separators, next)
  {
    hide ValueOf;
    assert text[i] != '_' by { SeparatorIsNoDigit(base); }
    assert text[..i + 1][..i] == text[..i];
    ValueAppend(WithoutSeparators(text[..i]), text[i], base);
  }

  lemma SeparatorIsNoDigit(base: nat)
    requires base <= 36
    ensures DigitValue('_') >= base
  {
  }

  lemma OnlySeparatorsEndBadly(text: string, i: nat, base: nat, separators: bool, magnitude: nat)
    requires ReadSoFar(text, i, base, separators, magnitude)
    ensures WellSeparated(text[..i]) <==> i > 0 && text[i - 1] != '_'
  {
  }

  method ScanDigits(text: string, base: nat, options: ParseOptions) returns (r: Result<nat>)
    requires 2 <= base <= 36
    ensures var run := RunValue(text, base, options);
            && (r.Ok? ==> run == Some(r.value) && r.value <= MAX_UINT64)
            && (r.Err? && run.Some? ==> run.value > MAX_UINT64 && r.code == Overflow)
            && (r.Err? ==> r.code == Overflow || r.code == InvalidFormat)
  {
    hide ReadSoFar, DigitValue, ValueOf, WithoutSeparators, WellSeparated;
    var separators := options.allowSeparators;
    var magnitude: nat, sawDigit, previousSeparator := 0, false, false;
    var position: nat := 0;
    NothingRead(text, base, separators);
    while position < |text|
      invariant ReadSoFar(text, position, base, separators, magnitude) && position <= |text|
      invariant magnitude <= MAX_UINT64
      invariant sawDigit == (position > 0) && previousSeparator == (position > 0 && text[position - 1] == '_')
    {
      RunContains(text, position, base, separators, magnitude);
      if separators && text[position] == '_' {
        ReadSeparator(text, position, base, magnitude);
        if !sawDigit || previousSeparator {
          return Err(InvalidFormat);
        }
        previousSeparator := true;
      } else {
        var digit := DigitValue(text[position]);
        if digit >= base {
          if options.requireEntireToken {
            return Err(InvalidFormat);
          }
          break;
        }
        SeparatorIsNoDigit(base);
        ghost var next := magnitude * base + digit;
        ReadDigit(text, position, base, separators, magnitude, next);
        sawDigit, previousSeparator := true, false;
        OverflowTest(magnitude, digit, base);
        if magnitude > (MAX_UINT64 - digit) / base {
          RunContains(text, position + 1, base, separators, next);
          return Err(Overflow);
        }
        magnitude := magnitude * base + digit;
      }
      position := position + 1;
    }
    RunContains(text, position, base, separators, magnitude);
    OnlySeparatorsEndBadly(text, position, base, separators, magnitude);
    if !sawDigit || previousSeparator {
      return Err(InvalidFormat);
    }
    ReadIs(text, position, base, separators, magnitude);
    return Ok(magnitude);
  }

  lemma NothingRead(text: string, base: nat, separators: bool)
    ensures ReadSoFar(text, 0, base, separators, 0)
  {
    assert text[..0] == [];
  }

  lemma ReadIs(text: string, i: nat, base: nat, separators: bool, magnitude: nat)
    requires ReadSoFar(text, i, base, separators, magnitude)
    ensures magnitude == ValueOf(WithoutSeparators(text[..i]), base)
  {
  }

  /** Which texts the parser is for: those that denote a number of the type; an unsigned one takes no minus sign. */
  predicate Denotes(text: string, integer: IntegerType, options: ParseOptions) {
    && NumberOf(text, options).Some? && integer.Holds(NumberOf(text, options).value)
    && (integer.signed || !IsMinus(text, options))
  }

  /**
   Main result for parsing: for every text and every option, the parser succeeds exactly when the text
   denotes a number that fits the type, and then returns that number; a well-formed number that does
   not fit is an overflow.
   */
  method ParseInteger(text: string, integer: IntegerType, options: ParseOptions) returns (r: Result<int>)
    requires integer.Valid()
    ensures r.Ok? <==> Denotes(text, integer, options)
    ensures r.Ok? ==> NumberOf(text, options) == Some(r.value)
    ensures r.Err? && NumberOf(text, options).Some? ==> r.code == Overflow
    ensures r.Err? ==> r.code == Overflow || r.code == InvalidFormat || r.code == InvalidArgument
  {
    hide RunValue, LetterBase;
    var position := SignLength(text, options);
    var negative := position == 1 && text[0] == '-';
    if position == |text| {
      return Err(InvalidFormat);
    }
    var unsigned := text[position..];
    var base := EffectiveBase(unsigned, options.base);
    if base < 2 || base > 36 {
      return Err(InvalidArgument);
    }
    var magnitude := ScanDigits(unsigned[PrefixLength(unsigned, options.base)..], base, options);
    if magnitude.Err? {
      return Err(magnitude.code);
    }
    if integer.signed {
      var limit := if negative then integer.maximum + 1 else integer.maximum;
      if magnitude.value > limit {
        return Err(Overflow);
      }
      if negative {
        return Ok(Signed(magnitude.value, true));
      }
    } else if negative || magnitude.value > integer.maximum {
      return Err(Overflow);
    }
    return Ok(magnitude.value);
  }

  // ------------------------------------------------------------ parsing undoes formatting

  /** A plain numeral reads as its value. */
  lemma {:induction false} NumeralExtent(body: string, base: nat, separators: bool)
    requires IsNumeral(body, base)
    ensures Extent(body, base, separators) == |body|
  {
    if body != [] {
      NumeralExtent(body[1..], base, separators);
    }
  }

  lemma {:induction false} NumeralHasNoSeparators(body: string, base: nat)
    requires IsNumeral(body, base) && base <= 36
    ensures '_' !in body && WithoutSeparators(body) == body
  {
    hide DigitValue;
    SeparatorIsNoDigit(base);
    if body != [] {
      NumeralHasNoSeparators(body[..|body| - 1], base);
    }
  }

  lemma NumeralReads(body: string, base: nat, options: ParseOptions)
    requires IsNumeral(body, base) && body != [] && base <= 36
    ensures RunValue(body, base, options) == Some(ValueOf(body, base))
  {
    hide DigitValue, ValueOf, WithoutSeparators, Extent;
    NumeralExtent(body, base, options.allowSeparators);
    NumeralHasNoSeparators(body, base);
    assert body[..|body|] == body;
  }

  /** No fill characters appear: zero padding, or nothing to pad. */
  predicate PlainlyPadded(value: nat, negative: bool, spec: FormatSpec) {
    (spec.zeroPad && spec.align.Default?) || PaddingOf(value, negative, spec) == 0
  }

  /** The zeros and digits of a formatted number. */
  function BodyOf(value: nat, negative: bool, spec: FormatSpec): string {
    Fill('0', PaddingOf(value, negative, spec)) + NumeralOf(value, spec)
  }

  lemma BodyReads(value: nat, negative: bool, spec: FormatSpec)
    ensures var base := BaseOf(spec.presentation);
            var body := BodyOf(value, negative, spec);
            body != [] && IsNumeral(body, base) && ValueOf(body, base) == value
  {
    hide Numeral, ValueOf, PaddingOf, IsUpper;
    var base := BaseOf(spec.presentation);
    ValueOfNumeral(value, base, IsUpper(spec));
    LeadingZeros(PaddingOf(value, negative, spec), NumeralOf(value, spec), base);
    assert DigitValue('0') < base by { ZeroDigit(); }
  }

  lemma FormattedPlainly(value: nat, negative: bool, spec: FormatSpec)
    requires PlainlyPadded(value, negative, spec)
    ensures Formatted(value, negative, spec)
         == SignText(negative, spec.signMode) + (PrefixText(spec) + BodyOf(value, negative, spec))
  {
    hide Numeral, SignText, PrefixText, IsUpper, BaseOf;
    var sign, prefix := SignText(negative, spec.signMode), PrefixText(spec);
    if spec.zeroPad && spec.align.Default? {
      assert sign + prefix + Fill('0', PaddingOf(value, negative, spec)) + NumeralOf(value, spec)
          == sign + (prefix + BodyOf(value, negative, spec));
    } else {
      assert Fill('0', 0) + NumeralOf(value, spec) == NumeralOf(value, spec);
      assert Fill(spec.fill, 0) + (sign + prefix) + NumeralOf(value, spec) + Fill(spec.fill, 0)
          == sign + (prefix + NumeralOf(value, spec));
    }
  }

  lemma OctalPrefix(body: string)
    requires body != [] && IsNumeral(body, 8)
    ensures IsNumeral("0" + body, 8) && ValueOf("0" + body, 8) == ValueOf(body, 8)
  {
    ZeroDigit();
    assert Fill('0', 1) == "0";
    LeadingZeros(1, body, 8);
  }

  // ------------------------------------------------------------ digits read in another base

  /** Read in a higher base, digits give a greater number unless only the last of them counts. */
  lemma {:induction false} HigherBase(body: string, base: nat, higher: nat)
    requires IsNumeral(body, base) && 1 <= base < higher
    ensures ValueOf(body, base) <= ValueOf(body, higher)
    ensures ValueOf(body, base) == ValueOf(body, higher) <==> ValueOf(body, base) < base
  {
    hide DigitValue;
    if body != [] {
      var front := body[..|body| - 1];
      HigherBase(front, base, higher);
      HigherStep(ValueOf(front, base), ValueOf(front, higher), DigitValue(body[|body| - 1]), base, higher);
    }
  }

  lemma HigherStep(low: nat, high: nat, d: nat, base: nat, higher: nat)
    requires d < base < higher && low <= high && (low == high <==> low < base)
    ensures low * base + d <= high * higher + d
    ensures low * base + d == high * higher + d <==> low * base + d < base
  {
    MulMono(low, base, higher);
    MulMono(higher, low, high);
    if low > 0 {
      MulMono(base, 1, low);
      assert low * base < low * (base + 1) <= low * higher by { MulMono(low, base + 1, higher); }
    } else {
      assert high == 0;
    }
  }

  /** Where a run of digits ends. */
  lemma {:induction false} ExtentEnds(text: string, base: nat, separators: bool)
    ensures var n := Extent(text, base, separators);
            && (forall i :: 0 <= i < n ==> IsDigitOrSeparator(text[i], base, separators))
            && (n < |text| ==> !IsDigitOrSeparator(text[n], base, separators))
  {
    hide IsDigitOrSeparator;
    if text != [] && IsDigitOrSeparator(text[0], base, separators) {
      ExtentEnds(text[1..], base, separators);
    }
  }

  /** Digits read in a lower base never give a greater number, and the same one only for a digit of that base. */
  lemma LowerBase(body: string, base: nat, lower: nat, options: ParseOptions)
    requires IsNumeral(body, base) && body != [] && 2 <= lower < base <= 36
    ensures RunValue(body, lower, options) == Some(ValueOf(body, base)) <==> ValueOf(body, base) < lower
    ensures RunValue(body, lower, options).Some? ==> RunValue(body, lower, options).value <= ValueOf(body, base)
  {
    hide DigitValue, Extent, WithoutSeparators, ValueOf;
    var n, separators := Extent(body, lower, options.allowSeparators), options.allowSeparators;
    var run := body[..n];
    ExtentEnds(body, lower, separators);
    NumeralHasNoSeparators(body, base);
    assert forall i :: 0 <= i < n ==> run[i] == body[i] && body[i] in body;
    NumeralHasNoSeparators(run, lower);
    HigherBase(run, lower, base);
    if n == |body| {
      assert run == body;
      NumeralReads(body, lower, options);
    } else {
      var d := DigitValue(body[n]);
      assert body == run + [body[n]] + body[n + 1..];
      ValueConcat(run + [body[n]], body[n + 1..], base);
      ValueAppend(run, body[n], base);
      PowerPositive(base, |body[n + 1..]|);
      MulMono(ValueOf(run + [body[n]], base), 1, Power(base, |body[n + 1..]|));
      MulMono(ValueOf(run, base), 1, base);
    }
  }

  /** Digits written in one base and read in another keep their value exactly when it is a digit of both. */
  lemma ReadInBase(body: string, base: nat, reading: nat, options: ParseOptions)
    requires IsNumeral(body, base) && body != [] && 2 <= base <= 36 && 2 <= reading <= 36
    ensures var value := ValueOf(body, base);
            RunValue(body, reading, options) == Some(value) <==> reading == base || (value < base && value < reading)
  {
    hide DigitValue, RunValue, ValueOf;
    if reading < base {
      LowerBase(body, base, reading, options);
    } else {
      NumeralReads(body, reading, options);
      if reading > base {
        HigherBase(body, base, reading);
      }
    }
  }

  // ------------------------------------------------------------ sign, prefix, digits and padding, read

  /** The text announces its base by a letter. */
  predicate Lettered(spec: FormatSpec) {
    spec.alternate && (BaseOf(spec.presentation) == 2 || BaseOf(spec.presentation) == 16)
  }

  /** The base the reader takes a formatted text for. */
  function ReadingBase(spec: FormatSpec, options: ParseOptions): nat {
    if options.base != 0 then options.base else if Lettered(spec) then BaseOf(spec.presentation) else 10
  }

  /**
   The reader takes the text for the base it was written in; or it does not, and still gets the number,
   because it is a digit of both bases, or because it is a zero and reading stops at the prefix letter.
   */
  predicate BaseReads(magnitude: nat, spec: FormatSpec, options: ParseOptions) {
    var base, reading := BaseOf(spec.presentation), ReadingBase(spec, options);
    && 2 <= reading <= 36
    && (reading == base
        || if Lettered(spec) then
             magnitude == 0 && !options.requireEntireToken && DigitValue(PrefixText(spec)[1]) >= reading
           else magnitude < base && magnitude < reading)
  }

  /** The sign is one the reader is asked to take; a blank in place of a plus sign never is. */
  predicate SignReads(negative: bool, spec: FormatSpec, options: ParseOptions) {
    var sign := SignText(negative, spec.signMode);
    sign == "" || (sign != " " && options.allowSign)
  }

  /** A character that is no part of a number. */
  predicate IsNeutral(c: char) { DigitValue(c) == NO_DIGIT && c != '+' && c != '-' && c != '_' }

  /** There are no fill characters, or all of them stand behind the number and the reader stops there. */
  predicate PaddingReads(value: nat, negative: bool, spec: FormatSpec, options: ParseOptions) {
    || PlainlyPadded(value, negative, spec)
    || (LeftShare(spec.align, PaddingOf(value, negative, spec)) == 0 && !options.requireEntireToken)
  }

  lemma PrefixLetters(spec: FormatSpec)
    requires spec.presentation == NO_PRESENTATION || spec.presentation in "dbBoxX"
    ensures var prefix := PrefixText(spec);
            if Lettered(spec)
            then |prefix| == 2 && prefix[0] == '0' && LetterBase(prefix[1]) == BaseOf(spec.presentation)
              && BaseOf(spec.presentation) <= DigitValue(prefix[1]) < 36
            else prefix == "" || (prefix == "0" && BaseOf(spec.presentation) == 8)
  {
  }

  /** The only digits taken for a base letter are hexadecimal. */
  lemma DigitAsLetter(c: char, base: nat)
    requires base == 2 || base == 8 || base == 10 || base == 16
    requires DigitValue(c) < base && LetterBase(c) != 0
    ensures base == 16 && DigitValue(c) == 11 && LetterBase(c) == 2
  {
  }

  /** Hexadecimal digits that start like a binary prefix denote more than what stands behind it, and at least eleven. */
  lemma BinaryLookalike(text: string)
    requires IsNumeral(text, 16) && |text| > 1 && text[0] == '0' && DigitValue(text[1]) == 11
    ensures ValueOf(text, 16) >= 11 && ValueOf(text, 16) > ValueOf(text[2..], 16)
  {
    hide DigitValue, ValueOf;
    ZeroDigit();
    var rest := text[2..];
    assert text == [text[0]] + [text[1]] + rest;
    assert ValueOf([], 16) == 0 by { EmptyValue(); }
    assert [] + [text[0]] == [text[0]];
    ValueAppend([], text[0], 16);
    ValueAppend([text[0]], text[1], 16);
    ValueConcat([text[0]] + [text[1]], rest, 16);
    PowerPositive(16, |rest|);
    MulMono(11, 1, Power(16, |rest|));
  }

  lemma EmptyValue()
    ensures forall base :: ValueOf([], base) == 0
  {
  }

  /** Digits without a base letter. */
  lemma PlainDigitsRead(text: string, base: nat, options: ParseOptions)
    requires text != [] && IsNumeral(text, base) && (base == 2 || base == 8 || base == 10 || base == 16)
    ensures var reading, value := if options.base != 0 then options.base else 10, ValueOf(text, base);
            UnsignedOf(text, options) == Some(value) <==>
              2 <= reading <= 36 && (reading == base || (value < base && value < reading))
  {
    hide DigitValue, LetterBase, RunValue, ValueOf;
    var reading := if options.base != 0 then options.base else 10;
    if PrefixLength(text, options.base) == 2 {
      DigitAsLetter(text[1], base);
      BinaryLookalike(text);
      var rest := text[2..];
      if rest == [] {
        NothingToRead(2, options);
      } else {
        LowerBase(rest, 16, 2, options);
      }
    } else {
      assert text[0..] == text;
      if options.base == 0 && PrefixLength(text, 0) != 2 {
        assert EffectiveBase(text, 0) == 10;
      }
      if 2 <= reading <= 36 {
        ReadInBase(text, base, reading, options);
      }
    }
  }

  lemma NothingToRead(base: nat, options: ParseOptions)
    ensures RunValue("", base, options) == None
  {
  }

  /** Digits behind a base letter. */
  lemma LetteredDigitsRead(prefix: string, body: string, base: nat, options: ParseOptions)
    requires |prefix| == 2 && prefix[0] == '0' && LetterBase(prefix[1]) == base <= DigitValue(prefix[1]) < 36
    requires base == 2 || base == 16
    requires body != [] && IsNumeral(body, base)
    ensures var reading, value := if options.base != 0 then options.base else base, ValueOf(body, base);
            UnsignedOf(prefix + body, options) == Some(value) <==>
              2 <= reading <= 36
                && (reading == base || (value == 0 && !options.requireEntireToken && DigitValue(prefix[1]) >= reading))
  {
    hide DigitValue, LetterBase, RunValue, ValueOf;
    var reading, text := if options.base != 0 then options.base else base, prefix + body;
    assert text[0] == prefix[0] && text[1] == prefix[1];
    if reading == base {
      assert text[2..] == body;
      NumeralReads(body, base, options);
    } else {
      assert PrefixLength(text, options.base) == 0 && text[0..] == text;
      if 2 <= reading <= 36 {
        if DigitValue(prefix[1]) >= reading {
          ZeroThenLetter(text, reading, options);
        } else {
          LetterAsDigit(prefix, body, base, reading, options);
        }
      }
    }
  }

  /** Reading stops at a letter that is no digit of the base. */
  lemma ZeroThenLetter(text: string, base: nat, options: ParseOptions)
    requires |text| > 1 && text[0] == '0' && base <= DigitValue(text[1]) < 36 && base > 0
    ensures RunValue(text, base, options) == if options.requireEntireToken then None else Some(0)
  {
    hide ValueOf;
    assert Extent(text[1..], base, options.allowSeparators) == 0;
    assert text[..1] == "0";
    assert IsNumeral("0", base);
    NumeralHasNoSeparators("0", base);
    assert ValueOf("0", base) == 0 by { ZeroValue(base); }
  }

  lemma ZeroValue(base: nat)
    ensures ValueOf("0", base) == 0
  {
    EmptyValue();
    ZeroDigit();
    ValueAppend("", '0', base);
    assert "" + ['0'] == "0";
  }

  /** A letter that is a digit of the reader's base makes the number too great. */
  lemma LetterAsDigit(prefix: string, body: string, base: nat, reading: nat, options: ParseOptions)
    requires |prefix| == 2 && prefix[0] == '0' && base <= DigitValue(prefix[1]) < reading <= 36 && 0 < base
    requires body != [] && IsNumeral(body, base)
    ensures RunValue(prefix + body, reading, options) != Some(ValueOf(body, base))
  {
    hide DigitValue, RunValue, ValueOf;
    ZeroDigit();
    NumeralReads(prefix + body, reading, options);
    HigherBase(body, base, reading);
    ValueConcat(prefix, body, reading);
    assert prefix == [prefix[0]] + [prefix[1]];
    ValueAppend([prefix[0]], prefix[1], reading);
    PowerPositive(reading, |body|);
    MulMono(ValueOf(prefix, reading), 1, Power(reading, |body|));
  }

  /** Prefix and digits give the magnitude exactly under `BaseReads`. */
  lemma UnsignedReads(prefix: string, body: string, spec: FormatSpec, options: ParseOptions)
    requires spec.presentation == NO_PRESENTATION || spec.presentation in "dbBoxX"
    requires prefix == PrefixText(spec) && body != [] && IsNumeral(body, BaseOf(spec.presentation))
    ensures var magnitude := ValueOf(body, BaseOf(spec.presentation));
            UnsignedOf(prefix + body, options) == Some(magnitude) <==> BaseReads(magnitude, spec, options)
    ensures !IsSignChar((prefix + body)[0])
  {
    hide ValueOf, UnsignedOf, DigitValue, LetterBase, PrefixText, IsSignChar;
    var base := BaseOf(spec.presentation);
    PrefixLetters(spec);
    if Lettered(spec) {
      LetteredDigitsRead(prefix, body, base, options);
      DigitIsNoSign('0');
    } else {
      DigitIsNoSign((prefix + body)[0]);
      if prefix == "0" {
        OctalPrefix(body);
      } else {
        assert prefix + body == body;
      }
      PlainDigitsRead(prefix + body, base, options);
    }
  }

  predicate IsSignChar(c: char) { c == '+' || c == '-' }

  lemma DigitIsNoSign(c: char)
    ensures DigitValue(c) < 36 || c == '0' ==> !IsSignChar(c)
  {
  }

  /** A text that starts with something else than a digit denotes nothing. */
  lemma JunkInFront(text: string, options: ParseOptions)
    requires text != [] && DigitValue(text[0]) == NO_DIGIT && text[0] != '_'
    ensures UnsignedOf(text, options) == None
  {
    hide LetterBase, WithoutSeparators, ValueOf;
    assert text[0] != '0' by { ZeroDigit(); }
    assert text[0..] == text;
    var base := EffectiveBase(text, options.base);
    if 2 <= base <= 36 {
      assert Extent(text, base, options.allowSeparators) == 0;
    }
  }

  /** `value` is what the parser makes of the text for a type that holds it. */
  predicate ReadsBack(text: string, value: int, integer: IntegerType, options: ParseOptions) {
    Denotes(text, integer, options) && NumberOf(text, options) == Some(value)
  }

  lemma SignChars()
    ensures DigitValue('+') == DigitValue('-') == DigitValue(' ') == NO_DIGIT
  {
  }

  /** A sign in front of a number. */
  lemma SignedReads(negative: bool, unsigned: string, value: int, integer: IntegerType, spec: FormatSpec,
                    options: ParseOptions)
    requires integer.Valid() && integer.Holds(value) && negative == (value < 0)
    requires unsigned != [] && !IsSignChar(unsigned[0])
    ensures ReadsBack(SignText(negative, spec.signMode) + unsigned, value, integer, options)
       <==> SignReads(negative, spec, options) && UnsignedOf(unsigned, options) == Some(Magnitude(value))
    ensures var text := SignText(negative, spec.signMode) + unsigned; SignLength(text, options) < |text|
  {
    hide UnsignedOf, DigitValue;
    var sign := SignText(negative, spec.signMode);
    var text := sign + unsigned;
    SignChars();
    if SignReads(negative, spec, options) {
      assert SignLength(text, options) == |sign| && text[|sign|..] == unsigned;
    } else {
      assert SignLength(text, options) == 0 && text[0..] == text;
      JunkInFront(text, options);
    }
  }

  /** Sign, prefix and digits, in whatever base they were written and are read. */
  lemma CoreReads(body: string, value: int, integer: IntegerType, spec: FormatSpec, options: ParseOptions)
    requires integer.Valid() && integer.Holds(value)
    requires spec.presentation == NO_PRESENTATION || spec.presentation in "dbBoxX"
    requires body != [] && IsNumeral(body, BaseOf(spec.presentation))
    requires ValueOf(body, BaseOf(spec.presentation)) == Magnitude(value)
    ensures ReadsBack(SignText(value < 0, spec.signMode) + (PrefixText(spec) + body), value, integer, options)
       <==> SignReads(value < 0, spec, options) && BaseReads(Magnitude(value), spec, options)
    ensures var text := SignText(value < 0, spec.signMode) + (PrefixText(spec) + body);
            SignLength(text, options) < |text|
  {
    hide ReadsBack, SignText, SignReads, BaseReads, UnsignedOf, PrefixText, ValueOf, BaseOf;
    UnsignedReads(PrefixText(spec), body, spec, options);
    SignedReads(value < 0, PrefixText(spec) + body, value, integer, spec, options);
  }

  lemma {:induction false} ExtentBefore(text: string, tail: string, base: nat, separators: bool)
    requires tail != [] && !IsDigitOrSeparator(tail[0], base, separators)
    ensures Extent(text + tail, base, separators) == Extent(text, base, separators)
  {
    hide IsDigitOrSeparator;
    if text == [] {
      assert text + tail == tail;
    } else {
      assert (text + tail)[1..] == text[1..] + tail;
      ExtentBefore(text[1..], tail, base, separators);
    }
  }

  lemma NeutralIsNoLetter(c: char)
    requires IsNeutral(c)
    ensures LetterBase(c) == 0 && !IsSignChar(c)
    ensures forall base, separators :: base <= 36 ==> !IsDigitOrSeparator(c, base, separators)
  {
  }

  lemma RunBefore(digits: string, tail: string, base: nat, options: ParseOptions)
    requires tail != [] && IsNeutral(tail[0]) && base <= 36
    ensures RunValue(digits + tail, base, options)
         == if options.requireEntireToken then None else RunValue(digits, base, options)
  {
    hide WellSeparated, WithoutSeparators, ValueOf, IsDigitOrSeparator, IsNeutral;
    NeutralIsNoLetter(tail[0]);
    ExtentBefore(digits, tail, base, options.allowSeparators);
    var n := Extent(digits, base, options.allowSeparators);
    assert (digits + tail)[..n] == digits[..n];
  }

  lemma PrefixBefore(text: string, tail: string, base: nat)
    requires text != [] && tail != [] && IsNeutral(tail[0])
    ensures PrefixLength(text + tail, base) == PrefixLength(text, base)
    ensures EffectiveBase(text + tail, base) == EffectiveBase(text, base)
  {
    hide LetterBase, IsNeutral;
    NeutralIsNoLetter(tail[0]);
  }

  /** What stands behind a number and is no part of it is either a fault or ignored. */
  lemma TrailingFill(text: string, tail: string, options: ParseOptions)
    requires |text| > SignLength(text, options) && tail != [] && IsNeutral(tail[0])
    ensures NumberOf(text + tail, options) == if options.requireEntireToken then None else NumberOf(text, options)
    ensures IsMinus(text + tail, options) == IsMinus(text, options)
  {
    hide RunValue, IsNeutral, PrefixLength, EffectiveBase;
    var sign := SignLength(text, options);
    var unsigned := text[sign..];
    assert (text + tail)[sign..] == unsigned + tail;
    PrefixBefore(unsigned, tail, options.base);
    var n, base := PrefixLength(unsigned, options.base), EffectiveBase(unsigned, options.base);
    if 2 <= base <= 36 {
      assert (unsigned + tail)[n..] == unsigned[n..] + tail;
      RunBefore(unsigned[n..], tail, base, options);
    }
  }

  /** Padded text: nothing is read behind fill characters, and what stands in front of them is read as if alone. */
  lemma PaddedReads(value: int, integer: IntegerType, spec: FormatSpec, options: ParseOptions)
    requires integer.Valid() && integer.Holds(value)
    requires spec.presentation == NO_PRESENTATION || spec.presentation in "dbBoxX"
    requires !PlainlyPadded(Magnitude(value), value < 0, spec) && IsNeutral(spec.fill)
    ensures ReadsBack(Formatted(Magnitude(value), value < 0, spec), value, integer, options)
       <==> SignReads(value < 0, spec, options) && BaseReads(Magnitude(value), spec, options)
              && PaddingReads(Magnitude(value), value < 0, spec, options)
  {
    hide SignText, PrefixText, Numeral, SignReads, BaseReads, NumberOf, BaseOf, DigitValue, ValueOf, IsUpper, IsNumeral,
      LeftShare;
    var magnitude, negative := Magnitude(value), value < 0;
    var padding := PaddingOf(magnitude, negative, spec);
    var left := LeftShare(spec.align, padding);
    var numeral := NumeralOf(magnitude, spec);
    var core := SignText(negative, spec.signMode) + (PrefixText(spec) + numeral);
    var text := Formatted(magnitude, negative, spec);
    assert text == Fill(spec.fill, left) + core + Fill(spec.fill, padding - left);
    if left > 0 {
      assert text[0] == spec.fill;
      NeutralInFront(text, options);
    } else {
      assert text == core + Fill(spec.fill, padding);
      ValueOfNumeral(magnitude, BaseOf(spec.presentation), IsUpper(spec));
      CoreReads(numeral, value, integer, spec, options);
      TrailingFill(core, Fill(spec.fill, padding), options);
    }
  }

  lemma NeutralInFront(text: string, options: ParseOptions)
    requires text != [] && IsNeutral(text[0])
    ensures NumberOf(text, options) == None
  {
    hide UnsignedOf;
    JunkInFront(text, options);
    assert text[0..] == text;
  }

  /**
   Main result: for every value of every fixed-width type, every specification the formatter takes and
   every set of options, parsing gives back what was formatted exactly when the reader takes the sign,
   takes the base or gets the number all the same, and meets no fill character where it matters.  Fill
   characters are those that are no part of a number themselves.
   */
  lemma ParsingUndoesFormatting(value: int, integer: IntegerType, spec: FormatSpec, options: ParseOptions)
    requires integer.Valid() && integer.Holds(value) && IntegerText(value, spec).Ok?
    requires PlainlyPadded(Magnitude(value), value < 0, spec) || IsNeutral(spec.fill)
    ensures ReadsBack(IntegerText(value, spec).value, value, integer, options)
       <==> SignReads(value < 0, spec, options) && BaseReads(Magnitude(value), spec, options)
              && PaddingReads(Magnitude(value), value < 0, spec, options)
  {
    hide Formatted, ReadsBack, SignReads, BaseReads, PlainlyPadded, BodyOf, IsNeutral;
    var negative, magnitude := value < 0, Magnitude(value);
    if PlainlyPadded(magnitude, negative, spec) {
      FormattedPlainly(magnitude, negative, spec);
      BodyReads(magnitude, negative, spec);
      CoreReads(BodyOf(magnitude, negative, spec), value, integer, spec, options);
    } else {
      PaddedReads(value, integer, spec, options);
    }
  }

  /** Zeros in front of something that is no digit read as zero, if the reader may stop there. */
  lemma ZerosThenStop(n: nat, tail: string, base: nat, options: ParseOptions)
    requires n > 0 && tail != [] && 2 <= base <= 36 && DigitValue(tail[0]) >= base && tail[0] != '_'
    ensures RunValue(Fill('0', n) + tail, base, options) == if options.requireEntireToken then None else Some(0)
  {
    hide DigitValue, ValueOf, WithoutSeparators;
    var zeros, separators := Fill('0', n), options.allowSeparators;
    ZeroDigit();
    assert IsNumeral(zeros, base);
    ExtentBefore(zeros, tail, base, separators);
    NumeralExtent(zeros, base, separators);
    NumeralHasNoSeparators(zeros, base);
    assert (zeros + tail)[..n] == zeros;
    LeadingZeros(n, "", base);
    assert zeros + "" == zeros;
    EmptyValue();
  }

  /** Text that starts with two zeros, or a zero and no letter, announces no base. */
  lemma NoBaseAnnounced(text: string, base: nat)
    requires |text| > 1 && (text[1] == '0' || DigitValue(text[1]) == NO_DIGIT)
    ensures PrefixLength(text, base) == 0 && text[0..] == text
    ensures EffectiveBase(text, base) == if base != 0 then base else 10
  {
  }

  /** Zeros in front of a sign. */
  lemma ZerosThenSign(n: nat, tail: string, options: ParseOptions)
    requires n > 0 && tail != [] && DigitValue(tail[0]) == NO_DIGIT && tail[0] != '_'
    ensures var reading := if options.base != 0 then options.base else 10;
            UnsignedOf(Fill('0', n) + tail, options)
              == if options.requireEntireToken || !(2 <= reading <= 36) then None else Some(0)
  {
    hide RunValue, PrefixLength, EffectiveBase;
    var reading := if options.base != 0 then options.base else 10;
    NoBaseAnnounced(Fill('0', n) + tail, options.base);
    if 2 <= reading <= 36 {
      ZerosThenStop(n, tail, reading, options);
    }
  }

  /** Zeros in front of a base letter. */
  lemma ZerosThenLetter(n: nat, prefix: string, body: string, base: nat, options: ParseOptions)
    requires n > 0 && |prefix| == 2 && prefix[0] == '0' && 2 <= base <= DigitValue(prefix[1]) < 36
    requires body != [] && IsNumeral(body, base)
    ensures var reading, value := if options.base != 0 then options.base else 10, ValueOf(body, base);
            UnsignedOf(Fill('0', n) + (prefix + body), options) == Some(value) <==>
              value == 0 && !options.requireEntireToken && 2 <= reading <= 36 && DigitValue(prefix[1]) >= reading
  {
    hide RunValue, PrefixLength, EffectiveBase, DigitValue, ValueOf;
    var reading := if options.base != 0 then options.base else 10;
    var text := Fill('0', n) + (prefix + body);
    NoBaseAnnounced(text, options.base);
    if 2 <= reading <= 36 {
      if DigitValue(prefix[1]) >= reading {
        assert text == Fill('0', n + 1) + (prefix[1..] + body);
        SeparatorIsNoDigit(36);
        ZerosThenStop(n + 1, prefix[1..] + body, reading, options);
      } else {
        ZerosThenHighDigit(n, prefix, body, base, reading, options);
      }
    }
  }

  lemma ZerosThenHighDigit(n: nat, prefix: string, body: string, base: nat, reading: nat, options: ParseOptions)
    requires |prefix| == 2 && prefix[0] == '0' && base <= DigitValue(prefix[1]) < reading <= 36 && 0 < base
    requires body != [] && IsNumeral(body, base)
    ensures RunValue(Fill('0', n) + (prefix + body), reading, options) != Some(ValueOf(body, base))
  {
    hide DigitValue, RunValue, ValueOf;
    ZeroDigit();
    LetterAsDigit(prefix, body, base, reading, options);
    NumeralReads(prefix + body, reading, options);
    LeadingZeros(n, prefix + body, reading);
    NumeralReads(Fill('0', n) + (prefix + body), reading, options);
  }

  /** What a formatted number comes to behind filled-in zeros. */
  predicate ZerosRead(magnitude: nat, negative: bool, spec: FormatSpec, options: ParseOptions) {
    var reading, sign := if options.base != 0 then options.base else 10, SignText(negative, spec.signMode);
    if sign == "" && !Lettered(spec) then BaseReads(magnitude, spec, options)
    else
      && magnitude == 0 && !options.requireEntireToken && 2 <= reading <= 36
      && (sign == "" ==> DigitValue(PrefixText(spec)[1]) >= reading)
  }

  /** Zeros, prefix and digits without a sign. */
  lemma ZerosUnsigned(n: nat, magnitude: nat, body: string, spec: FormatSpec, options: ParseOptions)
    requires n > 0 && (spec.presentation == NO_PRESENTATION || spec.presentation in "dbBoxX")
    requires body != [] && IsNumeral(body, BaseOf(spec.presentation))
    requires ValueOf(body, BaseOf(spec.presentation)) == magnitude && SignText(false, spec.signMode) == ""
    ensures UnsignedOf(Fill('0', n) + (PrefixText(spec) + body), options) == Some(magnitude)
       <==> ZerosRead(magnitude, false, spec, options)
  {
    hide ValueOf, UnsignedOf, DigitValue, LetterBase, PrefixText;
    var base, prefix := BaseOf(spec.presentation), PrefixText(spec);
    PrefixLetters(spec);
    if Lettered(spec) {
      ZerosThenLetter(n, prefix, body, base, options);
    } else {
      var digits := prefix + body;
      if prefix == "0" {
        OctalPrefix(body);
      } else {
        assert digits == body;
      }
      ZeroDigit();
      LeadingZeros(n, digits, base);
      PlainDigitsRead(Fill('0', n) + digits, base, options);
    }
  }

  /**
   Main result for a fill of zeros in front of the number, as right alignment puts it: with no sign and no
   base letter the zeros are digits like any other; otherwise only a zero can come back, because reading
   starts with the zeros.
   */
  lemma ZeroFillReads(value: int, integer: IntegerType, spec: FormatSpec, options: ParseOptions)
    requires integer.Valid() && integer.Holds(value) && IntegerText(value, spec).Ok?
    requires !PlainlyPadded(Magnitude(value), value < 0, spec) && spec.fill == '0'
    requires var padding := PaddingOf(Magnitude(value), value < 0, spec); LeftShare(spec.align, padding) == padding
    ensures ReadsBack(IntegerText(value, spec).value, value, integer, options)
       <==> ZerosRead(Magnitude(value), value < 0, spec, options)
  {
    hide PrefixText, Numeral, BaseReads, UnsignedOf, BaseOf, DigitValue, ValueOf, IsUpper, IsNumeral, LeftShare,
      Lettered;
    var magnitude, negative := Magnitude(value), value < 0;
    var padding, sign := PaddingOf(magnitude, negative, spec), SignText(negative, spec.signMode);
    var numeral, unsigned := NumeralOf(magnitude, spec), PrefixText(spec) + NumeralOf(magnitude, spec);
    var text := Formatted(magnitude, negative, spec);
    assert text == Fill('0', padding) + (sign + unsigned);
    assert SignLength(text, options) == 0 && text[0..] == text;
    TextHasPresentation(value, spec);
    ValueOfNumeral(magnitude, BaseOf(spec.presentation), IsUpper(spec));
    if sign == "" {
      assert sign + unsigned == unsigned;
      ZerosUnsigned(padding, magnitude, numeral, spec, options);
    } else {
      SignChars();
      ZerosThenSign(padding, sign + unsigned, options);
    }
  }

  /** The usual case: a reader that detects the base and takes signs gets every number but octal ones. */
  lemma DetectedUnlessOctal(value: int, integer: IntegerType, spec: FormatSpec, options: ParseOptions)
    requires integer.Valid() && integer.Holds(value) && IntegerText(value, spec).Ok?
    requires PlainlyPadded(Magnitude(value), value < 0, spec) && !(spec.signMode.Space? && value >= 0)
    requires options.base == 0 && options.allowSign
    ensures spec.presentation == 'o' ==>
      (ReadsBack(IntegerText(value, spec).value, value, integer, options) <==> Magnitude(value) < 8)
    ensures spec.presentation in "xXbB" && spec.alternate ==>
      ReadsBack(IntegerText(value, spec).value, value, integer, options)
    ensures BaseOf(spec.presentation) == 10 ==> ReadsBack(IntegerText(value, spec).value, value, integer, options)
  {
    hide ReadsBack, IntegerText, PlainlyPadded;
    TextHasPresentation(value, spec);
    ParsingUndoesFormatting(value, integer, spec, options);
  }

  lemma TextHasPresentation(value: int, spec: FormatSpec)
    ensures IntegerText(value, spec).Ok? <==> spec.presentation == NO_PRESENTATION || spec.presentation in "dbBoxX"
  {
  }

  lemma EightInOctal()
    ensures Numeral(8, 8, false) == "10" && ValueOf("010", 10) == 10 && IsNumeral("010", 10)
  {
    assert Quotient(8, 8) == 1 && Remainder(8, 8) == 0;
    assert Numeral(1, 8, false) == "1";
    assert "010"[..2] == "01" && "01"[..1] == "0" && "0"[..0] == "";
  }

  /** Octal text with its `0` prefix is read as decimal when the base is detected: 8 becomes 10. */
  lemma OctalIsNotDetected()
    ensures var spec := DEFAULT_SPEC.(presentation := 'o', alternate := true);
            var options := ParseOptions(0, true, true, true);
            IntegerText(8, spec) == Ok("010") && NumberOf("010", options) == Some(10)
  {
    hide Numeral, ValueOf, RunValue, Formatted, IsNumeral;
    var spec := DEFAULT_SPEC.(presentation := 'o', alternate := true);
    EightInOctal();
    FormattedPlainly(8, false, spec);
    assert PaddingOf(8, false, spec) == 0;
    assert Fill('0', 0) + "10" == "10";
    assert Formatted(8, false, spec) == "" + ("0" + "10") == "010";
    NumeralReads("010", 10, ParseOptions(0, true, true, true));
    assert "010"[0..] == "010";
  }

  /** The one number that fits every type and is still refused: an unsigned parser takes no `-0`. */
  lemma MinusZeroIsRefused(integer: IntegerType)
    requires integer.Valid()
    ensures var options := ParseOptions(10, true, true, true);
            && NumberOf("-0", options) == Some(0) && integer.Holds(0)
            && (Denotes("-0", integer, options) <==> integer.signed)
  {
    var options := ParseOptions(10, true, true, true);
    assert "-0"[1..] == "0" && "0"[0..] == "0";
    NumeralReads("0", 10, options);
    assert ValueOf("0", 10) == 0;
  }
}
