/**
 How a formatted number stands on the page, told without the functions that write it: as a layout of fill
 characters, sign, base prefix, zeros and digits.  The formatter produces the one text that has such a layout.
 */
module NumberLayout {
  import opened Core
  import opened Digits
  import opened FormatSpecs
  import opened Integers

  // ------------------------------------------------------------ layouts

  /** Fill characters in front, sign, prefix, zeros filled in, the digits as numbers, and fill characters behind. */
  datatype Layout =
    Layout(front: nat, sign: string, prefix: string, zeros: nat, digits: seq<nat>, behind: nat)

  const SMALL_DIGITS := "0123456789abcdef"
  const GREAT_DIGITS := "0123456789ABCDEF"

  /** The digits of a specification: capitals for `X`, for `B` and where the specification asks for them. */
  function AlphabetOf(spec: FormatSpec): (alphabet: string)
    ensures |alphabet| == 16
  {
    if spec.uppercase || spec.presentation in "XB" then GREAT_DIGITS else SMALL_DIGITS
  }

  function RadixOf(spec: FormatSpec): (radix: nat)
    ensures 2 <= radix <= 16
  {
    if spec.presentation in "bB" then 2
    else if spec.presentation == 'o' then 8
    else if spec.presentation in "xXp" then 16
    else 10
  }

  predicate IsSignOf(sign: string, negative: bool, spec: FormatSpec) {
    && (sign == "-" <==> negative)
    && (sign == "+" <==> !negative && spec.signMode.Always?)
    && (sign == " " <==> !negative && spec.signMode.Space?)
    && (sign == "" <==> !negative && spec.signMode.NegativeOnly?)
  }

  /** A prefix stands in front of everything but decimal numbers: its letter is the one of the base. */
  predicate IsPrefixOf(prefix: string, spec: FormatSpec) {
    var capital := spec.uppercase || spec.presentation in "XB";
    var wanted := spec.alternate || spec.presentation == 'p';
    && (prefix == "0b" <==> wanted && spec.presentation in "bB" && !capital)
    && (prefix == "0B" <==> wanted && spec.presentation in "bB" && capital)
    && (prefix == "0x" <==> wanted && spec.presentation in "xXp" && !capital)
    && (prefix == "0X" <==> wanted && spec.presentation in "xXp" && capital)
    && (prefix == "0" <==> wanted && spec.presentation == 'o')
    && (prefix == "" <==> !wanted || spec.presentation !in "bBoxXp")
  }

  /** What digits are worth, each by its place. */
  function Worth(digits: seq<nat>, radix: nat): nat {
    if digits == [] then 0 else digits[0] * Power(radix, |digits| - 1) + Worth(digits[1..], radix)
  }

  /** The digits of a number: worth it, and none in front that could be left out. */
  predicate AreDigitsOf(digits: seq<nat>, value: nat, radix: nat) {
    && digits != [] && (forall i :: 0 <= i < |digits| ==> digits[i] < radix)
    && Worth(digits, radix) == value
    && (|digits| > 1 ==> digits[0] > 0)
  }

  /** The padding of a number in its usual place is zeros; otherwise it is fill characters where the spec wants them. */
  predicate IsPadding(front: nat, zeros: nat, behind: nat, spec: FormatSpec) {
    if spec.zeroPad && spec.align.Default? then front == 0 && behind == 0
    else
      && zeros == 0
      && (spec.align.Default? || spec.align.Right? ==> behind == 0)
      && (spec.align.Left? ==> front == 0)
      && (spec.align.Center? ==> front <= behind <= front + 1)
  }

  /** The layout of a number: as wide as the specification asks, unless the number itself is wider. */
  predicate IsLayoutOf(layout: Layout, value: nat, negative: bool, spec: FormatSpec) {
    var bare := |layout.sign| + |layout.prefix| + |layout.digits|;
    && IsSignOf(layout.sign, negative, spec) && IsPrefixOf(layout.prefix, spec)
    && AreDigitsOf(layout.digits, value, RadixOf(spec))
    && layout.front + bare + layout.zeros + layout.behind == Max(spec.width, bare)
    && IsPadding(layout.front, layout.zeros, layout.behind, spec)
  }

  function Letters(digits: seq<nat>, alphabet: string): (text: string)
    requires |alphabet| == 16
    ensures |text| == |digits|
  {
    seq(|digits|, i requires 0 <= i < |digits| => if digits[i] < 16 then alphabet[digits[i]] else '?')
  }

  function TextOf(layout: Layout, spec: FormatSpec): string {
    Fill(spec.fill, layout.front) + layout.sign + layout.prefix + Fill('0', layout.zeros)
      + Letters(layout.digits, AlphabetOf(spec)) + Fill(spec.fill, layout.behind)
  }

  // ------------------------------------------------------------ digits

  lemma {:induction false} WorthAppend(digits: seq<nat>, last: nat, radix: nat)
    ensures Worth(digits + [last], radix) == Worth(digits, radix) * radix + last
  {
    hide Power;
    var all := digits + [last];
    assert Power(radix, 0) == 1 by { PowerZero(radix); }
    if digits == [] {
      assert all[1..] == [];
      assert Worth(all, radix) == last * 1 + 0;
    } else {
      assert all[1..] == digits[1..] + [last];
      WorthAppend(digits[1..], last, radix);
      PowerStep(radix, |digits|);
      WorthStep(digits[0], Power(radix, |digits| - 1), Worth(digits[1..], radix), last, radix);
    }
  }

  lemma PowerZero(radix: nat)
    ensures Power(radix, 0) == 1
  {
  }

  lemma PowerStep(radix: nat, n: nat)
    requires n > 0
    ensures Power(radix, n) == radix * Power(radix, n - 1)
  {
  }

  lemma WorthStep(d: nat, p: nat, w: nat, last: nat, radix: nat)
    ensures d * (radix * p) + (w * radix + last) == (d * p + w) * radix + last
  {
  }

  /** Without a zero in front the digits are worth something. */
  lemma WorthPositive(digits: seq<nat>, radix: nat)
    requires digits != [] && digits[0] > 0 && radix > 0
    ensures Worth(digits, radix) > 0
  {
    hide Power;
    PowerPositive(radix, |digits| - 1);
    MulMono(Power(radix, |digits| - 1), 1, digits[0]);
  }

  lemma DivisionIsUnique(q: nat, r: nat, q': nat, r': nat, base: nat)
    requires r < base && r' < base && q * base + r == q' * base + r'
    ensures q == q' && r == r'
  {
    if q < q' {
      MulMono(base, q + 1, q');
    } else if q' < q {
      MulMono(base, q' + 1, q);
    }
  }

  /** The digits in front of the last one are those of the quotient. */
  lemma FrontDigits(digits: seq<nat>, value: nat, radix: nat)
    requires 2 <= radix && AreDigitsOf(digits, value, radix) && |digits| > 1
    ensures AreDigitsOf(digits[..|digits| - 1], Quotient(value, radix), radix)
    ensures digits[|digits| - 1] == Remainder(value, radix) && value >= radix
  {
    hide Worth;
    var front, last := digits[..|digits| - 1], digits[|digits| - 1];
    assert digits == front + [last];
    WorthAppend(front, last, radix);
    WorthPositive(front, radix);
    MulMono(radix, 1, Worth(front, radix));
    DivisionIsUnique(Worth(front, radix), last, Quotient(value, radix), Remainder(value, radix), radix);
  }

  lemma LettersAppend(front: seq<nat>, last: nat, alphabet: string)
    requires |alphabet| == 16 && last < 16
    ensures Letters(front + [last], alphabet) == Letters(front, alphabet) + [alphabet[last]]
  {
  }

  lemma OneDigit(digits: seq<nat>, value: nat, radix: nat)
    requires 2 <= radix && AreDigitsOf(digits, value, radix) && |digits| == 1
    ensures digits == [value] && value < radix
  {
    hide Power;
    PowerZero(radix);
    assert digits[1..] == [];
    NothingIsWorthNothing(radix);
    assert Worth(digits, radix) == digits[0] * 1 + 0;
  }

  /** The numeral is how the digits are written. */
  lemma {:induction false} DigitsAreNumeral(digits: seq<nat>, value: nat, radix: nat, uppercase: bool)
    requires 2 <= radix <= 16 && AreDigitsOf(digits, value, radix)
    ensures Letters(digits, if uppercase then GREAT_DIGITS else SMALL_DIGITS) == Numeral(value, radix, uppercase)
    decreases |digits|
  {
    hide Quotient, Remainder, Digit, Letters, Worth;
    var alphabet := if uppercase then GREAT_DIGITS else SMALL_DIGITS;
    var front, last := digits[..|digits| - 1], digits[|digits| - 1];
    assert digits == front + [last];
    DigitIsLetter(last, uppercase);
    LettersAppend(front, last, alphabet);
    if |digits| == 1 {
      OneDigit(digits, value, radix);
      assert Letters(front, alphabet) == [];
    } else {
      FrontDigits(digits, value, radix);
      hide AreDigitsOf;
      DigitsAreNumeral(front, Quotient(value, radix), radix, uppercase);
    }
  }

  lemma NothingIsWorthNothing(radix: nat)
    ensures Worth([], radix) == 0
  {
  }

  lemma DigitIsLetter(d: nat, uppercase: bool)
    requires d < 16
    ensures Digit(d, uppercase) == (if uppercase then GREAT_DIGITS else SMALL_DIGITS)[d]
  {
  }

  /** Every number has digits. */
  lemma {:induction false} HasDigits(value: nat, radix: nat) returns (digits: seq<nat>)
    requires 2 <= radix
    ensures AreDigitsOf(digits, value, radix)
    decreases value
  {
    hide Worth, Quotient, Remainder;
    NothingIsWorthNothing(radix);
    var q, r: nat := Quotient(value, radix), Remainder(value, radix);
    var front: seq<nat> := [];
    if q > 0 {
      front := HasDigits(q, radix);
      if |front| == 1 {
        assert front == [] + [front[0]];
        WorthAppend([], front[0], radix);
      }
    }
    digits := front + [r];
    WorthAppend(front, r, radix);
  }

  // ------------------------------------------------------------ one layout

  lemma SignIsWritten(sign: string, negative: bool, spec: FormatSpec)
    ensures IsSignOf(sign, negative, spec) <==> sign == SignText(negative, spec.signMode)
  {
  }

  lemma PrefixIsWritten(prefix: string, spec: FormatSpec)
    ensures IsPrefixOf(prefix, spec) <==> prefix == PrefixText(spec)
  {
  }

  lemma SameRadix(spec: FormatSpec)
    ensures RadixOf(spec) == BaseOf(spec.presentation)
    ensures AlphabetOf(spec) == if IsUpper(spec) then GREAT_DIGITS else SMALL_DIGITS
  {
  }

  lemma PaddingIsPlaced(layout: Layout, value: nat, negative: bool, spec: FormatSpec)
    requires IsLayoutOf(layout, value, negative, spec)
    requires layout.sign == SignText(negative, spec.signMode) && layout.prefix == PrefixText(spec)
    requires |layout.digits| == |NumeralOf(value, spec)|
    ensures var padding := PaddingOf(value, negative, spec);
            if spec.zeroPad && spec.align.Default? then
              layout.front == 0 && layout.zeros == padding && layout.behind == 0
            else
              && layout.front == LeftShare(spec.align, padding) && layout.zeros == 0
              && layout.behind == padding - layout.front
  {
    hide SignText, PrefixText, IsSignOf, IsPrefixOf, Numeral, RadixOf, BaseOf, IsUpper, AreDigitsOf;
  }

  lemma TextOfLayout(layout: Layout, value: nat, spec: FormatSpec)
    requires Letters(layout.digits, AlphabetOf(spec)) == NumeralOf(value, spec)
    ensures layout.zeros == 0 ==>
      TextOf(layout, spec) == Fill(spec.fill, layout.front) + (layout.sign + layout.prefix) + NumeralOf(value, spec)
                                + Fill(spec.fill, layout.behind)
    ensures layout.front == layout.behind == 0 ==>
      TextOf(layout, spec) == layout.sign + layout.prefix + Fill('0', layout.zeros) + NumeralOf(value, spec)
  {
    hide Letters, NumeralOf, AlphabetOf;
    assert Fill('0', 0) == "" && Fill(spec.fill, 0) == "";
  }

  /** The text of a layout is what the formatter writes. */
  lemma LayoutIsFormatted(layout: Layout, value: nat, negative: bool, spec: FormatSpec)
    requires IsLayoutOf(layout, value, negative, spec)
    ensures TextOf(layout, spec) == Formatted(value, negative, spec)
  {
    hide SignText, PrefixText, IsSignOf, IsPrefixOf, Numeral, RadixOf, BaseOf, IsUpper, AlphabetOf, AreDigitsOf;
    SignIsWritten(layout.sign, negative, spec);
    PrefixIsWritten(layout.prefix, spec);
    SameRadix(spec);
    DigitsAreNumeral(layout.digits, value, RadixOf(spec), IsUpper(spec));
    PaddingIsPlaced(layout, value, negative, spec);
    hide IsLayoutOf, Letters;
    TextOfLayout(layout, value, spec);
    hide TextOf, NumeralOf;
    assert Fill('0', 0) == "" && Fill(spec.fill, 0) == "";
    var front, core, digits := Fill(spec.fill, layout.front), layout.sign + layout.prefix, NumeralOf(value, spec);
    if spec.zeroPad && spec.align.Default? {
      assert Formatted(value, negative, spec) == core + Fill('0', layout.zeros) + digits;
    } else {
      assert Formatted(value, negative, spec) == front + core + digits + Fill(spec.fill, layout.behind);
    }
  }

  lemma HasLayout(value: nat, negative: bool, spec: FormatSpec) returns (layout: Layout)
    ensures IsLayoutOf(layout, value, negative, spec)
  {
    hide SignText, PrefixText, IsSignOf, IsPrefixOf, RadixOf, AreDigitsOf;
    var sign, prefix := SignText(negative, spec.signMode), PrefixText(spec);
    SignIsWritten(sign, negative, spec);
    PrefixIsWritten(prefix, spec);
    var digits := HasDigits(value, RadixOf(spec));
    var bare := |sign| + |prefix| + |digits|;
    var padding: nat := Max(spec.width, bare) - bare;
    if spec.zeroPad && spec.align.Default? {
      layout := Layout(0, sign, prefix, padding, digits, 0);
    } else {
      var front := match spec.align
        case Left => 0
        case Center => padding / 2
        case _ => padding;
      layout := Layout(front, sign, prefix, 0, digits, padding - front);
    }
  }

  /**
   Main result: for every number and every specification the formatter writes the one text that is laid out
   as the specification asks.
   */
  lemma FormattedIsLaidOut(text: string, value: nat, negative: bool, spec: FormatSpec)
    ensures text == Formatted(value, negative, spec) <==>
      exists layout :: IsLayoutOf(layout, value, negative, spec) && text == TextOf(layout, spec)
  {
    hide IsLayoutOf, Formatted, TextOf;
    var layout := HasLayout(value, negative, spec);
    LayoutIsFormatted(layout, value, negative, spec);
    forall other | IsLayoutOf(other, value, negative, spec) && text == TextOf(other, spec)
      ensures text == Formatted(value, negative, spec)
    {
      LayoutIsFormatted(other, value, negative, spec);
    }
  }

  // ------------------------------------------------------------ padding

  /** A number and the same number without padding. */
  function Bare(value: nat, negative: bool, spec: FormatSpec): string {
    Formatted(value, negative, spec.(width := 0))
  }

  /** Neither width nor alignment has a say in sign, prefix and digits. */
  lemma SameParts(value: nat, spec: FormatSpec, other: FormatSpec)
    requires other == spec.(width := other.width, align := other.align)
    ensures PrefixText(other) == PrefixText(spec) && NumeralOf(value, other) == NumeralOf(value, spec)
  {
    hide Numeral;
  }

  lemma BareIsParts(value: nat, negative: bool, spec: FormatSpec)
    ensures Bare(value, negative, spec)
         == SignText(negative, spec.signMode) + PrefixText(spec) + NumeralOf(value, spec)
  {
    var narrow := spec.(width := 0);
    SameParts(value, spec, narrow);
    hide SignText, PrefixText, NumeralOf;
    assert Fill(spec.fill, 0) == "" && Fill('0', 0) == "";
    var core := SignText(negative, spec.signMode) + PrefixText(spec);
    if spec.zeroPad && spec.align.Default? {
      assert Bare(value, negative, spec) == core + Fill('0', 0) + NumeralOf(value, spec);
    } else {
      assert Bare(value, negative, spec)
          == Fill(spec.fill, 0) + core + NumeralOf(value, spec) + Fill(spec.fill, 0);
    }
  }

  /** Without zeros to fill in, padding is fill characters around the unpadded text, on the side the alignment names. */
  lemma PaddingIsAround(value: nat, negative: bool, spec: FormatSpec)
    requires !(spec.zeroPad && spec.align.Default?)
    ensures var bare := Bare(value, negative, spec);
            var missing: nat := Max(spec.width, |bare|) - |bare|;
            && (spec.align.Default? || spec.align.Right? ==>
                  Formatted(value, negative, spec) == Fill(spec.fill, missing) + bare)
            && (spec.align.Left? ==> Formatted(value, negative, spec) == bare + Fill(spec.fill, missing))
            && (spec.align.Center? ==>
                  Formatted(value, negative, spec)
                    == Fill(spec.fill, missing / 2) + bare + Fill(spec.fill, (missing + 1) / 2))
  {
    hide SignText, PrefixText, NumeralOf, Bare;
    BareIsParts(value, negative, spec);
    var bare := Bare(value, negative, spec);
    var missing := PaddingOf(value, negative, spec);
    assert missing == Max(spec.width, |bare|) - |bare|;
    var left := LeftShare(spec.align, missing);
    assert Formatted(value, negative, spec) == Fill(spec.fill, left) + bare + Fill(spec.fill, missing - left);
    hide Formatted, PaddingOf;
    assert Fill(spec.fill, 0) == "";
  }

  /** A number stands on the right unless the specification says otherwise. */
  lemma DefaultIsRight(value: nat, negative: bool, spec: FormatSpec)
    requires spec.align.Default? && !spec.zeroPad
    ensures Formatted(value, negative, spec) == Formatted(value, negative, spec.(align := Alignment.Right))
  {
    var right := spec.(align := Alignment.Right);
    hide Formatted;
    PaddingIsAround(value, negative, spec);
    PaddingIsAround(value, negative, right);
    BareIsParts(value, negative, spec);
    BareIsParts(value, negative, right);
    SameParts(value, spec, right);
  }

  /** The text is as wide as the specification asks, or as the number without padding if that is wider. */
  lemma WidthIsKept(value: nat, negative: bool, spec: FormatSpec)
    ensures |Formatted(value, negative, spec)| == Max(spec.width, |Bare(value, negative, spec)|)
  {
    hide SignText, PrefixText, NumeralOf, LeftShare, Bare;
    BareIsParts(value, negative, spec);
  }

  /** The number 42 where five places are wanted. */
  lemma FortyTwoInFive()
    ensures Formatted(42, false, DEFAULT_SPEC.(width := 5)) == "   42"
    ensures Formatted(42, false, DEFAULT_SPEC.(width := 5, zeroPad := true)) == "00042"
    ensures Formatted(42, true, DEFAULT_SPEC.(width := 7, presentation := 'X', alternate := true, zeroPad := true))
         == "-0X002A"
  {
  }
}
