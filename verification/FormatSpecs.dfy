/**
 Format specifications: the part of a replacement field behind the colon.
 */
module FormatSpecs {
  import opened Core
  import opened Digits

  datatype Alignment = Default | Left | Right | Center
  datatype Sign = NegativeOnly | Always | Space

  const NO_PRESENTATION: char := '\0'

  datatype FormatSpec = FormatSpec(
    fill: char, align: Alignment, signMode: Sign, width: nat, precision: nat,
    presentation: char, alternate: bool, zeroPad: bool, uppercase: bool, debug: bool)

  const DEFAULT_SPEC :=
    FormatSpec(' ', Alignment.Default, NegativeOnly, 0, MAX_UINT64, NO_PRESENTATION, false, false, false, false)

  // ------------------------------------------------------------ the parts of a specification

  /** [[fill] align] [sign] ["#"] ["0"] [width] ["." precision] rest, where `rest` should be one presentation letter. */
  datatype Parts = Parts(
    fill: Option<char>, align: Option<char>, sign: Option<char>, alternate: bool, zeroPad: bool,
    width: string, point: bool, precision: string, rest: string)

  predicate IsAlign(c: char) { c == '<' || c == '>' || c == '^' }
  predicate IsSign(c: char) { c == '+' || c == '-' || c == ' ' }
  predicate IsDecimal(c: char) { '0' <= c <= '9' }

  /** How many decimal digits stand in front. */
  function DecimalRun(text: string): (n: nat)
    ensures n <= |text| && (forall i :: 0 <= i < n ==> IsDecimal(text[i])) && (n < |text| ==> !IsDecimal(text[n]))
  {
    if text == [] || !IsDecimal(text[0]) then 0 else 1 + DecimalRun(text[1..])
  }

  function Spelled(c: Option<char>): string { match c case None => [] case Some(value) => [value] }
  function Optional(present: bool, c: char): string { if present then [c] else [] }

  /** The text of some parts. */
  function Spell(parts: Parts): string {
    Spelled(parts.fill) + (Spelled(parts.align) + (Spelled(parts.sign)
      + (Optional(parts.alternate, '#') + (Optional(parts.zeroPad, '0')
      + (parts.width + (Optional(parts.point, '.') + (parts.precision + parts.rest)))))))
  }

  /** A character of the wanted kind in front, and what stands behind it. */
  function Front(text: string, wanted: char -> bool): Option<char> {
    if text != [] && wanted(text[0]) then Some(text[0]) else None
  }

  function Past(text: string, wanted: char -> bool): (rest: string)
    ensures Spelled(Front(text, wanted)) + rest == text
  {
    if text != [] && wanted(text[0]) then text[1..] else text
  }

  predicate IsHash(c: char) { c == '#' }
  predicate IsZero(c: char) { c == '0' }
  predicate IsPoint(c: char) { c == '.' }

  predicate Fills(text: string) { |text| > 1 && IsAlign(text[1]) }

  /** What is left of a text behind each part. */
  function AfterFill(text: string): string { if Fills(text) then text[1..] else text }
  function AfterAlign(text: string): string { Past(AfterFill(text), IsAlign) }
  function AfterSign(text: string): string { Past(AfterAlign(text), IsSign) }
  function AfterHash(text: string): string { Past(AfterSign(text), IsHash) }
  function AfterZero(text: string): string { Past(AfterHash(text), IsZero) }
  function AfterWidth(text: string): string { AfterZero(text)[DecimalRun(AfterZero(text))..] }
  function AfterPoint(text: string): string { Past(AfterWidth(text), IsPoint) }
  predicate HasPoint(text: string) { Front(AfterWidth(text), IsPoint).Some? }
  function PrecisionRun(text: string): (n: nat)
    ensures n <= |AfterPoint(text)|
  {
    if HasPoint(text) then DecimalRun(AfterPoint(text)) else 0
  }

  /** The parts of a text, taken off the front one by one. */
  function Split(text: string): Parts {
    Parts(
      if Fills(text) then Some(text[0]) else None,
      Front(AfterFill(text), IsAlign),
      Front(AfterAlign(text), IsSign),
      Front(AfterSign(text), IsHash).Some?,
      Front(AfterHash(text), IsZero).Some?,
      AfterZero(text)[..DecimalRun(AfterZero(text))],
      HasPoint(text),
      AfterPoint(text)[..PrecisionRun(text)],
      AfterPoint(text)[PrecisionRun(text)..])
  }

  /** Splitting loses nothing. */
  lemma SplitSpells(text: string)
    ensures Spell(Split(text)) == text
  {
    hide AfterAlign, AfterSign, AfterHash, AfterZero, AfterPoint, AfterFill, Past, Front, DecimalRun, PrecisionRun,
      HasPoint, Fills;
    FillBehind(text);
    PartsBehind(text);
    var parts := Split(text);
    assert parts.precision + parts.rest == AfterPoint(text);
    assert parts.width + AfterWidth(text) == AfterZero(text);
  }

  lemma FillBehind(text: string)
    ensures Spelled(if Fills(text) then Some(text[0]) else None) + AfterFill(text) == text
  {
  }

  lemma PartsBehind(text: string)
    ensures Spelled(Front(AfterFill(text), IsAlign)) + AfterAlign(text) == AfterFill(text)
    ensures Spelled(Front(AfterAlign(text), IsSign)) + AfterSign(text) == AfterAlign(text)
    ensures Optional(Front(AfterSign(text), IsHash).Some?, '#') + AfterHash(text) == AfterSign(text)
    ensures Optional(Front(AfterHash(text), IsZero).Some?, '0') + AfterZero(text) == AfterHash(text)
    ensures Optional(HasPoint(text), '.') + AfterPoint(text) == AfterWidth(text)
  {
    hide DecimalRun, Front, Past, IsHash, IsZero, IsPoint, AfterFill, AfterWidth;
    FrontIsOptional(AfterSign(text));
    FrontIsOptional(AfterHash(text));
    FrontIsOptional(AfterWidth(text));
  }

  lemma FrontIsOptional(text: string)
    ensures Spelled(Front(text, IsHash)) == Optional(Front(text, IsHash).Some?, '#')
    ensures Spelled(Front(text, IsZero)) == Optional(Front(text, IsZero).Some?, '0')
    ensures Spelled(Front(text, IsPoint)) == Optional(Front(text, IsPoint).Some?, '.')
  {
  }

  // ------------------------------------------------------------ what the parts mean

  const PRESENTATIONS := "aAeEfFgGboxXBdpc?"

  /** The last number whose digits are read without reporting an overflow. */
  const LARGEST_NUMBER := 18446744073709551609

  predicate Overflows(digits: string) { ValueOf(digits, 10) > LARGEST_NUMBER }

  /** What the compile-time checker demands. */
  predicate Acceptable(parts: Parts) {
    parts.rest == [] || (|parts.rest| == 1 && parts.rest[0] in PRESENTATIONS)
  }

  function AlignmentOf(c: char): Alignment {
    if c == '<' then Alignment.Left else if c == '>' then Alignment.Right else Alignment.Center
  }

  function SignOf(c: char): Sign { if c == '+' then Always else if c == ' ' then Space else NegativeOnly }

  /** What the runtime makes of it. */
  function SpecOf(parts: Parts): Result<FormatSpec> {
    if Overflows(parts.width) || Overflows(parts.precision) then Err(Overflow)
    else if |parts.rest| > 1 then Err(InvalidFormat)
    else
      var presentation := if parts.rest == [] then NO_PRESENTATION else parts.rest[0];
      Ok(FormatSpec(
        if parts.fill.Some? then parts.fill.value else ' ',
        if parts.align.Some? then AlignmentOf(parts.align.value) else Alignment.Default,
        if parts.sign.Some? then SignOf(parts.sign.value) else NegativeOnly,
        ValueOf(parts.width, 10),
        if parts.point then ValueOf(parts.precision, 10) else MAX_UINT64,
        presentation, parts.alternate, parts.zeroPad, 'A' <= presentation <= 'Z', presentation == '?'))
  }

  /**
   Both sides read the same split, so a text the checker takes is never refused by the runtime but for an
   overflow.  The runtime is the laxer one: it also takes a single letter it does not know.
   */
  lemma CheckerAgreesWithRuntime(text: string)
    ensures var parts := Split(text);
            && (Acceptable(parts) ==> SpecOf(parts).Ok? || SpecOf(parts) == Err(Overflow))
            && (SpecOf(parts) != Err(Overflow) ==>
                  (Acceptable(parts) <==>
                     SpecOf(parts).Ok? && (parts.rest == [] || SpecOf(parts).value.presentation in PRESENTATIONS)))
  {
  }

  // ------------------------------------------------------------ the programs

  /** Moves over the decimal digits in front. */
  method SkipDigits(text: string, start: nat) returns (index: nat)
    requires start <= |text|
    ensures start <= index <= |text| && text[index..] == text[start..][DecimalRun(text[start..])..]
    ensures text[start..index] == text[start..][..DecimalRun(text[start..])]
  {
    index := start;
    while index < |text| && IsDecimal(text[index])
      invariant start <= index <= |text|
      invariant DecimalRun(text[start..]) == index - start + DecimalRun(text[index..])
    {
      assert text[index..][1..] == text[index + 1..];
      index := index + 1;
    }
    assert DecimalRun(text[index..]) == 0;
  }

  /** Moves over the fill character, which is there when an alignment follows it. */
  method AcceptFill(text: string) returns (fill: Option<char>, next: nat)
    ensures next <= |text| && text[next..] == AfterFill(text) && fill == Split(text).fill
  {
    if 1 < |text| && IsAlign(text[1]) {
      return Some(text[0]), 1;
    }
    assert text[0..] == text;
    return None, 0;
  }

  /** Moves over one character of the wanted kind, if it is there. */
  method Accept(text: string, index: nat, wanted: char -> bool) returns (c: Option<char>, next: nat)
    requires index <= |text|
    ensures next <= |text| && c == Front(text[index..], wanted) && text[next..] == Past(text[index..], wanted)
  {
    if index < |text| && wanted(text[index]) {
      assert text[index..][0] == text[index] && text[index..][1..] == text[index + 1..];
      return Some(text[index]), index + 1;
    }
    return None, index;
  }

  /** The compile-time check of one specification. */
  method ValidateSpec(text: string) returns (ok: bool)
    ensures ok <==> Acceptable(Split(text))
  {
    hide DecimalRun, IsAlign, IsSign, Front, Past, Fills, Split, Acceptable, IsHash, IsZero, IsPoint;
    var accepted, index := AcceptFill(text);
    accepted, index := Accept(text, index, IsAlign);
    accepted, index := Accept(text, index, IsSign);
    accepted, index := Accept(text, index, IsHash);
    accepted, index := Accept(text, index, IsZero);
    index := SkipDigits(text, index);
    ok := ValidateTail(text, index);
  }

  /** The check from the decimal point on. */
  method ValidateTail(text: string, start: nat) returns (ok: bool)
    requires start <= |text| && text[start..] == AfterWidth(text)
    ensures ok <==> Acceptable(Split(text))
  {
    hide DecimalRun, AfterWidth, AfterZero, AfterHash, AfterSign, AfterAlign, AfterFill, Front, Past, Fills;
    var point, index := Accept(text, start, IsPoint);
    if point.Some? {
      index := SkipDigits(text, index);
    } else {
      assert AfterPoint(text)[0..] == AfterPoint(text);
    }
    assert text[index..] == Split(text).rest;
    if index < |text| {
      assert text[index..][0] == text[index];
      if text[index] !in PRESENTATIONS {
        return false;
      }
      index := index + 1;
    }
    return index == |text|;
  }

  /** Reads the decimal digits in front; a number past `LARGEST_NUMBER` overflows. */
  method ReadNumber(text: string, start: nat) returns (r: Result<nat>, index: nat)
    requires start <= |text|
    ensures start <= index <= |text|
    ensures var digits := text[start..][..DecimalRun(text[start..])];
            if Overflows(digits) then r == Err(Overflow)
            else r == Ok(ValueOf(digits, 10)) && text[index..] == text[start..][|digits|..]
  {
    hide ValueOf, IsDecimal, DecimalRun;
    index := start;
    var value: nat := 0;
    ghost var all := text[start..];
    EmptyNumber(text, start);
    while index < |text| && IsDecimal(text[index])
      invariant start <= index <= |text| && value <= LARGEST_NUMBER
      invariant DecimalRun(all) == index - start + DecimalRun(text[index..])
      invariant value == ValueOf(text[start..index], 10)
    {
      NextDigit(text, start, index);
      ghost var digits := all[..DecimalRun(all)];
      assert digits[..index + 1 - start] == text[start..index + 1];
      if value > (MAX_UINT64 - 9) / 10 {
        PrefixValue(digits, index + 1 - start);
        return Err(Overflow), index;
      }
      value := value * 10 + DigitValue(text[index]);
      index := index + 1;
    }
    NoMoreDigits(text, index);
    assert all[..index - start] == text[start..index];
    return Ok(value), index;
  }

  lemma EmptyNumber(text: string, start: nat)
    requires start <= |text|
    ensures ValueOf(text[start..start], 10) == 0
  {
  }

  lemma NextDigit(text: string, start: nat, index: nat)
    requires start <= index < |text| && IsDecimal(text[index])
    ensures DecimalRun(text[index..]) == 1 + DecimalRun(text[index + 1..])
    ensures ValueOf(text[start..index + 1], 10) == ValueOf(text[start..index], 10) * 10 + DigitValue(text[index])
    ensures DigitValue(text[index]) < 10
  {
    hide ValueOf;
    assert text[index..][1..] == text[index + 1..];
    assert text[start..index + 1] == text[start..index] + [text[index]];
    ValueAppend(text[start..index], text[index], 10);
  }

  lemma NoMoreDigits(text: string, index: nat)
    requires index <= |text| && !(index < |text| && IsDecimal(text[index]))
    ensures DecimalRun(text[index..]) == 0
  {
  }

  lemma PrefixValue(digits: string, n: nat)
    requires n <= |digits|
    ensures ValueOf(digits[..n], 10) <= ValueOf(digits, 10)
  {
    hide ValueOf, Power;
    assert digits == digits[..n] + digits[n..];
    ValueConcat(digits[..n], digits[n..], 10);
    PowerPositive(10, |digits| - n);
    MulMono(ValueOf(digits[..n], 10), 1, Power(10, |digits| - n));
  }

  /** The runtime's reading of one specification. */
  method ParseFormatSpec(text: string) returns (r: Result<FormatSpec>)
    ensures r == SpecOf(Split(text))
  {
    hide DecimalRun, IsAlign, IsSign, Front, Past, Fills, SpecOf, IsHash, IsZero, IsPoint, AlignmentOf, SignOf;
    var fill, align, sign, alternate, zeroPad;
    var index: nat;
    fill, index := AcceptFill(text);
    align, index := Accept(text, index, IsAlign);
    sign, index := Accept(text, index, IsSign);
    alternate, index := Accept(text, index, IsHash);
    zeroPad, index := Accept(text, index, IsZero);
    var spec := DEFAULT_SPEC;
    if fill.Some? {
      spec := spec.(fill := fill.value);
    }
    if align.Some? {
      spec := spec.(align := AlignmentOf(align.value));
    }
    if sign.Some? {
      spec := spec.(signMode := SignOf(sign.value));
    }
    spec := spec.(alternate := alternate.Some?, zeroPad := zeroPad.Some?);
    assert spec == FrontSpec(Split(text));
    r := ParseNumbers(text, index, spec);
  }

  /** What the parts in front of the numbers make of the default spec. */
  function FrontSpec(parts: Parts): FormatSpec {
    DEFAULT_SPEC.(
      fill := if parts.fill.Some? then parts.fill.value else ' ',
      align := if parts.align.Some? then AlignmentOf(parts.align.value) else Alignment.Default,
      signMode := if parts.sign.Some? then SignOf(parts.sign.value) else NegativeOnly,
      alternate := parts.alternate, zeroPad := parts.zeroPad)
  }

  /** Width, precision and presentation. */
  method ParseNumbers(text: string, start: nat, front: FormatSpec) returns (r: Result<FormatSpec>)
    requires start <= |text| && text[start..] == AfterZero(text) && front == FrontSpec(Split(text))
    ensures r == SpecOf(Split(text))
  {
    hide DecimalRun, AfterZero, AfterHash, AfterSign, AfterAlign, AfterFill, Front, Past, Fills, ValueOf,
      AlignmentOf, SignOf;
    var spec := front;
    var width, index := ReadNumber(text, start);
    if width.Err? {
      return Err(width.code);
    }
    spec := spec.(width := width.value);
    var point;
    point, index := Accept(text, index, IsPoint);
    if point.Some? {
      var precision;
      precision, index := ReadNumber(text, index);
      if precision.Err? {
        return Err(precision.code);
      }
      spec := spec.(precision := precision.value);
    } else {
      NoPrecision(text);
    }
    assert text[index..] == Split(text).rest;
    if index < |text| {
      var presentation := text[index];
      assert text[index..][0] == presentation;
      spec := spec.(
        presentation := presentation, uppercase := 'A' <= presentation <= 'Z', debug := presentation == '?');
      index := index + 1;
    }
    if index != |text| {
      return Err(InvalidFormat);
    }
    return Ok(spec);
  }

  lemma NoPrecision(text: string)
    requires !HasPoint(text)
    ensures AfterPoint(text)[0..] == AfterPoint(text) && !Overflows(Split(text).precision)
  {
  }

  // ------------------------------------------------------------ writing a specification down

  /** The specs a text can express. */
  predicate Writable(spec: FormatSpec) {
    && (spec.align.Default? ==> spec.fill == ' ')
    && spec.width <= LARGEST_NUMBER && (spec.precision <= LARGEST_NUMBER || spec.precision == MAX_UINT64)
    && (spec.presentation == NO_PRESENTATION || spec.presentation in PRESENTATIONS)
    && spec.uppercase == ('A' <= spec.presentation <= 'Z') && spec.debug == (spec.presentation == '?')
  }

  function AlignChar(align: Alignment): Option<char> {
    match align case Default => None case Left => Some('<') case Right => Some('>') case Center => Some('^')
  }

  function SignChar(sign: Sign): Option<char> {
    match sign case NegativeOnly => None case Always => Some('+') case Space => Some(' ')
  }

  /** How to write a spec down. */
  function PartsOf(spec: FormatSpec): Parts {
    Parts(
      if spec.fill == ' ' then None else Some(spec.fill), AlignChar(spec.align), SignChar(spec.signMode),
      spec.alternate, spec.zeroPad,
      if spec.width == 0 then [] else Numeral(spec.width, 10, false),
      spec.precision != MAX_UINT64, if spec.precision == MAX_UINT64 then [] else Numeral(spec.precision, 10, false),
      if spec.presentation == NO_PRESENTATION then [] else [spec.presentation])
  }

  /** Where in a specification a character can stand at the earliest. */
  function Rank(c: char): nat {
    if IsAlign(c) then 1 else if IsSign(c) then 2 else if c == '#' then 3 else if c == '0' then 4
    else if IsDecimal(c) then 5 else if c == '.' then 6 else 7
  }

  /** The text starts with something that can only stand at `rank` or later. */
  predicate StartsAt(text: string, rank: nat) { text == [] || Rank(text[0]) >= rank }

  predicate Plain(parts: Parts) {
    && (parts.fill.Some? ==> parts.align.Some?)
    && (parts.align.Some? ==> IsAlign(parts.align.value)) && (parts.sign.Some? ==> IsSign(parts.sign.value))
    && (forall i :: 0 <= i < |parts.width| ==> IsDecimal(parts.width[i]))
    && (parts.zeroPad || parts.width == [] || parts.width[0] != '0')
    && (forall i :: 0 <= i < |parts.precision| ==> IsDecimal(parts.precision[i]))
    && (parts.point || parts.precision == [])
    && (parts.rest == [] || (|parts.rest| == 1 && Rank(parts.rest[0]) == 7))
  }

  /** The text from each part on. */
  function FromPoint(parts: Parts): string { Optional(parts.point, '.') + (parts.precision + parts.rest) }
  function FromWidth(parts: Parts): string { parts.width + FromPoint(parts) }
  function FromZero(parts: Parts): string { Optional(parts.zeroPad, '0') + FromWidth(parts) }
  function FromHash(parts: Parts): string { Optional(parts.alternate, '#') + FromZero(parts) }
  function FromSign(parts: Parts): string { Spelled(parts.sign) + FromHash(parts) }
  function FromAlign(parts: Parts): string { Spelled(parts.align) + FromSign(parts) }

  lemma LateIsNoDigit(text: string)
    requires StartsAt(text, 6)
    ensures text != [] ==> !IsDecimal(text[0])
  {
  }

  lemma {:induction false} RunInFront(digits: string, rest: string)
    requires (forall i :: 0 <= i < |digits| ==> IsDecimal(digits[i])) && StartsAt(rest, 6)
    ensures DecimalRun(digits + rest) == |digits|
  {
    hide StartsAt, IsDecimal;
    if digits == [] {
      assert digits + rest == rest;
      LateIsNoDigit(rest);
    } else {
      assert (digits + rest)[1..] == digits[1..] + rest;
      RunInFront(digits[1..], rest);
    }
  }

  /** Each part in front of the next keeps the ranks rising. */
  lemma RankOfFront(c: Option<char>, rest: string, rank: nat)
    requires if c.Some? then Rank(c.value) >= rank else StartsAt(rest, rank)
    ensures StartsAt(Spelled(c) + rest, rank)
  {
  }

  lemma RanksRise(parts: Parts)
    requires Plain(parts)
    ensures StartsAt(FromPoint(parts), 6) && StartsAt(FromWidth(parts), if parts.zeroPad then 4 else 5)
    ensures StartsAt(FromZero(parts), 4) && StartsAt(FromHash(parts), 3) && StartsAt(FromSign(parts), 2)
  {
    hide FromZero, FromHash, FromSign, FromWidth, FromPoint, StartsAt, Rank;
    Tails(parts);
    RanksOfNumbers(parts);
    RanksOfMarks(parts);
    StartsEarlier(FromWidth(parts), if parts.zeroPad then 4 else 5, 4);
    RankOfFront(Maybe(parts.zeroPad, '0'), FromWidth(parts), 4);
    StartsEarlier(FromZero(parts), 4, 3);
    RankOfFront(Maybe(parts.alternate, '#'), FromZero(parts), 3);
    StartsEarlier(FromHash(parts), 3, 2);
    RankOfFront(parts.sign, FromHash(parts), 2);
  }

  lemma StartsEarlier(text: string, rank: nat, lower: nat)
    requires StartsAt(text, rank) && lower <= rank
    ensures StartsAt(text, lower)
  {
    hide Rank;
  }

  lemma RanksOfMarks(parts: Parts)
    requires Plain(parts)
    ensures Rank('#') == 3 && Rank('0') == 4 && (parts.sign.Some? ==> Rank(parts.sign.value) == 2)
  {
  }

  lemma RanksOfNumbers(parts: Parts)
    requires Plain(parts)
    ensures StartsAt(FromPoint(parts), 6) && StartsAt(FromWidth(parts), if parts.zeroPad then 4 else 5)
  {
  }

  /** A text that starts late does not start with an earlier kind. */
  lemma NotInFront(text: string)
    ensures StartsAt(text, 2) && text != [] ==> !IsAlign(text[0])
    ensures StartsAt(text, 3) && text != [] ==> !IsSign(text[0])
    ensures StartsAt(text, 4) && text != [] ==> !IsHash(text[0])
    ensures StartsAt(text, 5) && text != [] ==> !IsZero(text[0])
  {
  }

  /** The tails, one in front of the other. */
  lemma Tails(parts: Parts)
    ensures Spell(parts) == Spelled(parts.fill) + FromAlign(parts)
    ensures FromAlign(parts) == Spelled(parts.align) + FromSign(parts)
    ensures FromSign(parts) == Spelled(parts.sign) + FromHash(parts)
    ensures FromHash(parts) == Spelled(Maybe(parts.alternate, '#')) + FromZero(parts)
    ensures FromZero(parts) == Spelled(Maybe(parts.zeroPad, '0')) + FromWidth(parts)
    ensures FromWidth(parts) == parts.width + FromPoint(parts)
    ensures FromPoint(parts) == Spelled(Maybe(parts.point, '.')) + (parts.precision + parts.rest)
  {
  }

  lemma FrontOf(c: Option<char>, rest: string, wanted: char -> bool)
    requires (c.Some? ==> wanted(c.value)) && (c.None? && rest != [] ==> !wanted(rest[0]))
    ensures Front(Spelled(c) + rest, wanted) == c && Past(Spelled(c) + rest, wanted) == rest
  {
    if c.Some? {
      assert (Spelled(c) + rest)[1..] == rest;
    } else {
      assert Spelled(c) + rest == rest;
    }
  }

  function Maybe(present: bool, c: char): Option<char> { if present then Some(c) else None }

  /** The parts in front of the numbers are recovered. */
  lemma FrontSplits(parts: Parts)
    requires Plain(parts)
    ensures var text := Spell(parts);
            && Front(AfterFill(text), IsAlign) == parts.align && Front(AfterAlign(text), IsSign) == parts.sign
            && Front(AfterSign(text), IsHash) == Maybe(parts.alternate, '#')
            && Front(AfterHash(text), IsZero) == Maybe(parts.zeroPad, '0')
            && AfterZero(text) == FromWidth(parts)
  {
    hide Front, Past, Fills, Spell, FromAlign, FromSign, FromHash, FromZero, FromWidth, FromPoint, StartsAt, AfterFill;
    FillInFront(parts);
    Tails(parts);
    RanksRise(parts);
    NotInFront(FromSign(parts));
    NotInFront(FromHash(parts));
    NotInFront(FromZero(parts));
    NotInFront(FromWidth(parts));
    FrontOf(parts.align, FromSign(parts), IsAlign);
    FrontOf(parts.sign, FromHash(parts), IsSign);
    FrontOf(Maybe(parts.alternate, '#'), FromZero(parts), IsHash);
    FrontOf(Maybe(parts.zeroPad, '0'), FromWidth(parts), IsZero);
  }

  /** Splitting recovers the parts from their text. */
  lemma SpellSplits(parts: Parts)
    requires Plain(parts)
    ensures Split(Spell(parts)) == parts
  {
    hide Front, Past, DecimalRun, Fills, Spell, StartsAt, Plain, FromPoint, AfterFill, AfterAlign, AfterSign, AfterHash,
      AfterZero;
    FillInFront(parts);
    FrontSplits(parts);
    RanksRise(parts);
    PlainWidth(parts);
    RunInFront(parts.width, FromPoint(parts));
    assert FromWidth(parts)[..|parts.width|] == parts.width && FromWidth(parts)[|parts.width|..] == FromPoint(parts);
    PrecisionInFront(parts);
  }

  lemma PlainWidth(parts: Parts)
    requires Plain(parts)
    ensures forall i :: 0 <= i < |parts.width| ==> IsDecimal(parts.width[i])
  {
  }

  lemma PrecisionInFront(parts: Parts)
    requires Plain(parts)
    ensures var text, rest := FromPoint(parts), Past(FromPoint(parts), IsPoint);
            var n := if Front(text, IsPoint).Some? then DecimalRun(rest) else 0;
            && Front(text, IsPoint).Some? == parts.point && n <= |rest|
            && rest[..n] == parts.precision && rest[n..] == parts.rest
  {
    var rest := parts.precision + parts.rest;
    FrontOf(Maybe(parts.point, '.'), rest, IsPoint);
    assert Spelled(Maybe(parts.point, '.')) == Optional(parts.point, '.');
    RunInFront(parts.precision, parts.rest);
    assert rest[..|parts.precision|] == parts.precision && rest[|parts.precision|..] == parts.rest;
  }

  /** Only a fill character is followed by an alignment. */
  lemma FillInFront(parts: Parts)
    requires Plain(parts)
    ensures var text := Spell(parts);
            && Fills(text) == parts.fill.Some? && (parts.fill.Some? ==> text[0] == parts.fill.value)
            && AfterFill(text) == FromAlign(parts)
  {
    var text := Spell(parts);
    assert text == Spelled(parts.fill) + FromAlign(parts);
    if parts.fill.Some? {
      assert text[1..] == FromAlign(parts);
    } else {
      assert text == FromAlign(parts);
      NoLateAlign(parts);
    }
  }

  predicate NoAlign(text: string) { forall c :: c in text ==> !IsAlign(c) }

  lemma NoAlignConcat(a: string, b: string)
    requires NoAlign(a) && NoAlign(b)
    ensures NoAlign(a + b)
  {
  }

  /** Behind its first character the text from the alignment on holds no alignment. */
  lemma NoLateAlign(parts: Parts)
    requires Plain(parts)
    ensures |FromAlign(parts)| > 1 ==> !IsAlign(FromAlign(parts)[1])
  {
    hide FromAlign, FromSign, FromHash, FromZero, FromWidth, FromPoint, NoAlign;
    Tails(parts);
    assert NoAlign(parts.width) && NoAlign(parts.precision) && NoAlign(parts.rest) && NoAlign(Spelled(parts.sign)) by {
      PiecesHoldNoAlign(parts);
    }
    assert NoAlign(Spelled(Maybe(parts.alternate, '#'))) && NoAlign(Spelled(Maybe(parts.zeroPad, '0')))
        && NoAlign(Spelled(Maybe(parts.point, '.'))) by { PiecesHoldNoAlign(parts); }
    NoAlignConcat(parts.precision, parts.rest);
    NoAlignConcat(Spelled(Maybe(parts.point, '.')), parts.precision + parts.rest);
    NoAlignConcat(parts.width, FromPoint(parts));
    NoAlignConcat(Spelled(Maybe(parts.zeroPad, '0')), FromWidth(parts));
    NoAlignConcat(Spelled(Maybe(parts.alternate, '#')), FromZero(parts));
    NoAlignConcat(Spelled(parts.sign), FromHash(parts));
    SecondHoldsNoAlign(parts.align, FromSign(parts));
  }

  lemma SecondHoldsNoAlign(c: Option<char>, rest: string)
    requires NoAlign(rest)
    ensures var text := Spelled(c) + rest; |text| > 1 ==> !IsAlign(text[1])
  {
    var text := Spelled(c) + rest;
    if |text| > 1 {
      assert text[1] in rest;
    }
  }

  lemma PiecesHoldNoAlign(parts: Parts)
    requires Plain(parts)
    ensures NoAlign(parts.width) && NoAlign(parts.precision) && NoAlign(parts.rest) && NoAlign(Spelled(parts.sign))
    ensures NoAlign(Spelled(Maybe(parts.alternate, '#'))) && NoAlign(Spelled(Maybe(parts.zeroPad, '0')))
    ensures NoAlign(Spelled(Maybe(parts.point, '.')))
  {
  }

  lemma {:induction false} NumeralIsDecimal(value: nat)
    ensures var text := Numeral(value, 10, false);
            (forall i :: 0 <= i < |text| ==> IsDecimal(text[i])) && (value > 0 ==> text[0] != '0')
    decreases value
  {
    if value >= 10 {
      NumeralIsDecimal(Quotient(value, 10));
    }
  }

  lemma LettersRankLast(c: char)
    requires c in PRESENTATIONS
    ensures Rank(c) == 7 && c != NO_PRESENTATION
  {
  }

  lemma PartsArePlain(spec: FormatSpec)
    requires Writable(spec)
    ensures Plain(PartsOf(spec))
  {
    hide Numeral, Rank, IsDecimal;
    NumeralIsDecimal(spec.width);
    NumeralIsDecimal(spec.precision);
    if spec.presentation != NO_PRESENTATION {
      LettersRankLast(spec.presentation);
    }
  }

  lemma PartsAreAccepted(spec: FormatSpec)
    requires Writable(spec)
    ensures Acceptable(PartsOf(spec))
  {
    hide Numeral, AlignChar, SignChar;
  }

  lemma PartsMeanSpec(spec: FormatSpec)
    requires (spec.align.Default? ==> spec.fill == ' ') && spec.width <= LARGEST_NUMBER
    requires spec.precision <= LARGEST_NUMBER || spec.precision == MAX_UINT64
    requires spec.uppercase == ('A' <= spec.presentation <= 'Z') && spec.debug == (spec.presentation == '?')
    requires ValueOf(PartsOf(spec).width, 10) == spec.width
    requires spec.precision != MAX_UINT64 ==> ValueOf(PartsOf(spec).precision, 10) == spec.precision
    ensures SpecOf(PartsOf(spec)) == Ok(spec)
  {
    hide Numeral, ValueOf;
    NothingIsZero();
  }

  /** Main result: every writable spec can be written down, passes the checker, and is read back unchanged. */
  lemma SpecRoundTrip(spec: FormatSpec)
    requires Writable(spec)
    ensures var text := Spell(PartsOf(spec));
            Acceptable(Split(text)) && SpecOf(Split(text)) == Ok(spec)
  {
    hide Split, Spell, Numeral, ValueOf, Plain, Acceptable, SpecOf;
    PartsArePlain(spec);
    SpellSplits(PartsOf(spec));
    ValueOfNumeral(spec.width, 10, false);
    ValueOfNumeral(spec.precision, 10, false);
    NothingIsZero();
    PartsAreAccepted(spec);
    PartsMeanSpec(spec);
  }

  /** Conversely, what an accepted text is read as is writable: the writable specs are exactly those texts express. */
  lemma AcceptedIsWritable(text: string)
    requires Acceptable(Split(text)) && SpecOf(Split(text)).Ok?
    ensures Writable(SpecOf(Split(text)).value)
  {
    hide Writable, SpecOf, Acceptable;
    FillNeedsAlign(text);
    PartsReadWritable(Split(text));
  }

  lemma FillNeedsAlign(text: string)
    ensures Split(text).fill.Some? ==> Split(text).align.Some?
  {
    hide DecimalRun, AfterZero, AfterHash, AfterSign, AfterAlign, AfterPoint, PrecisionRun, HasPoint;
  }

  lemma PartsReadWritable(parts: Parts)
    requires Acceptable(parts) && SpecOf(parts).Ok? && (parts.fill.Some? ==> parts.align.Some?)
    ensures Writable(SpecOf(parts).value)
  {
    hide ValueOf;
  }

  lemma NothingIsZero()
    ensures ValueOf([], 10) == 0
  {
  }
}
