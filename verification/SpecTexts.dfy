/**
 What a format specification means, told word by word: `[[fill] align] [sign] ["#"] ["0"] [width] ["." precision]
 [letter]`, each word with the field it stands for.
 */
module SpecTexts {
  import opened Core
  import opened Digits
  import opened FormatSpecs

  /** The words of a specification, each of which may be missing. */
  datatype Words = Words(
    fill: string, align: string, sign: string, hash: string, zero: string,
    width: string, precision: string, letter: string)

  predicate AreDecimal(digits: string) { forall i :: 0 <= i < |digits| ==> '0' <= digits[i] <= '9' }

  /** A fill character stands in front of an alignment, and without one the fill is a blank. */
  predicate PlacesText(fill: string, align: string, spec: FormatSpec) {
    && (align == "<" <==> spec.align.Left?)
    && (align == ">" <==> spec.align.Right?)
    && (align == "^" <==> spec.align.Center?)
    && (align == "" <==> spec.align.Default?)
    && (if fill == "" then spec.fill == ' ' else align != "" && fill == [spec.fill])
  }

  predicate IsSignWord(sign: string, mode: Sign) {
    match mode
    case NegativeOnly => sign == "" || sign == "-"
    case Always => sign == "+"
    case Space => sign == " "
  }

  /** The width does not start with a zero that would ask for zero padding. */
  predicate IsWidth(zero: string, width: string, spec: FormatSpec) {
    && AreDecimal(width) && spec.width == ValueOf(width, 10) <= LARGEST_NUMBER
    && zero == (if spec.zeroPad then "0" else "")
    && (!spec.zeroPad && width != "" ==> width[0] != '0')
  }

  predicate IsPrecision(precision: string, value: nat) {
    if precision == "" then value == MAX_UINT64
    else precision[0] == '.' && AreDecimal(precision[1..]) && value == ValueOf(precision[1..], 10) <= LARGEST_NUMBER
  }

  predicate IsPresentation(c: char) { c in "aAeEfFgGboxXBdpc?" }

  /** The letter chooses the presentation; a capital asks for capitals, and a question mark for the debug form. */
  predicate IsLetter(letter: string, spec: FormatSpec) {
    && (if letter == "" then spec.presentation == '\0'
        else letter == [spec.presentation] && IsPresentation(spec.presentation))
    && spec.uppercase == ('A' <= spec.presentation <= 'Z') && spec.debug == (spec.presentation == '?')
  }

  /** The words say what the specification asks for. */
  predicate Say(words: Words, spec: FormatSpec) {
    && PlacesText(words.fill, words.align, spec) && IsSignWord(words.sign, spec.signMode)
    && words.hash == (if spec.alternate then "#" else "")
    && IsWidth(words.zero, words.width, spec) && IsPrecision(words.precision, spec.precision)
    && IsLetter(words.letter, spec)
  }

  function TextOf(words: Words): string {
    words.fill + (words.align + (words.sign + (words.hash + (words.zero
      + (words.width + (words.precision + words.letter))))))
  }

  /** One word as the part of a split. */
  function Letter(word: string): Option<char> { if word == "" then None else Some(word[0]) }

  function PartsFrom(words: Words): Parts {
    Parts(Letter(words.fill), Letter(words.align), Letter(words.sign), words.hash != "", words.zero != "", words.width,
          words.precision != "", if words.precision == "" then "" else words.precision[1..], words.letter)
  }

  function WordsFrom(parts: Parts): Words {
    Words(Spelled(parts.fill), Spelled(parts.align), Spelled(parts.sign), Optional(parts.alternate, '#'),
          Optional(parts.zeroPad, '0'), parts.width, Optional(parts.point, '.') + parts.precision, parts.rest)
  }

  lemma WordsAreParts(words: Words, spec: FormatSpec)
    requires Say(words, spec)
    ensures Plain(PartsFrom(words)) && Spell(PartsFrom(words)) == TextOf(words)
    ensures Acceptable(PartsFrom(words)) && SpecOf(PartsFrom(words)) == Ok(spec)
  {
    WordsArePlain(words, spec);
    WordsMean(words, spec);
    hide Say, SpecOf, Plain, Acceptable;
    WordsSpell(words, spec);
  }

  lemma AcceptedLetters(parts: Parts)
    ensures Acceptable(parts) <==> parts.rest == [] || (|parts.rest| == 1 && IsPresentation(parts.rest[0]))
  {
  }

  lemma PresentationIsLetter(c: char)
    requires IsPresentation(c)
    ensures Rank(c) == 7 && c != NO_PRESENTATION
  {
  }

  lemma WordsArePlain(words: Words, spec: FormatSpec)
    requires Say(words, spec)
    ensures Plain(PartsFrom(words)) && Acceptable(PartsFrom(words))
  {
    hide ValueOf, IsPresentation, Acceptable, Rank;
    AcceptedLetters(PartsFrom(words));
    if words.letter != "" {
      PresentationIsLetter(spec.presentation);
    }
  }

  lemma WordsMean(words: Words, spec: FormatSpec)
    requires Say(words, spec)
    ensures SpecOf(PartsFrom(words)) == Ok(spec)
  {
    hide ValueOf, IsPresentation;
    NothingIsZero();
  }

  lemma WordsSpell(words: Words, spec: FormatSpec)
    requires Say(words, spec)
    ensures Spell(PartsFrom(words)) == TextOf(words)
  {
    hide ValueOf;
    var parts := PartsFrom(words);
    assert Spelled(parts.fill) == words.fill && Spelled(parts.align) == words.align;
    assert Spelled(parts.sign) == words.sign;
    assert Optional(parts.point, '.') + parts.precision == words.precision;
    SpellText(parts, words);
  }

  /** However its concatenations are grouped, the text is the same. */
  lemma SpellText(parts: Parts, words: Words)
    requires WordsFrom(parts) == words
    ensures Spell(parts) == TextOf(words)
  {
    hide Spelled, Optional;
    assert Optional(parts.point, '.') + (parts.precision + parts.rest)
        == Optional(parts.point, '.') + parts.precision + parts.rest;
  }

  /** The parts of an accepted text as words. */
  lemma PartsAreWords(text: string, spec: FormatSpec)
    requires Acceptable(Split(text)) && SpecOf(Split(text)) == Ok(spec)
    ensures Say(WordsFrom(Split(text)), spec) && TextOf(WordsFrom(Split(text))) == text
  {
    hide Split, Say, SpecOf, Acceptable, TextOf, Spell;
    SplitSpells(text);
    SplitFacts(text);
    SpellText(Split(text), WordsFrom(Split(text)));
    PartsSay(Split(text), spec);
  }

  /** What splitting guarantees of its parts. */
  predicate IsSplit(parts: Parts) {
    && (parts.fill.Some? ==> parts.align.Some?) && (parts.align.Some? ==> parts.align.value in "<>^")
    && (parts.sign.Some? ==> parts.sign.value in "+- ")
    && AreDecimal(parts.width) && AreDecimal(parts.precision) && (parts.precision != "" ==> parts.point)
    && (!parts.zeroPad && parts.width != "" ==> parts.width[0] != '0')
  }

  lemma SplitFacts(text: string)
    ensures IsSplit(Split(text))
  {
    FillNeedsAlign(text);
    hide AfterFill, AfterAlign, AfterSign, AfterHash, AfterPoint, AfterWidth;
  }

  lemma FrontSays(parts: Parts, spec: FormatSpec)
    requires IsSplit(parts) && SpecOf(parts) == Ok(spec)
    ensures PlacesText(Spelled(parts.fill), Spelled(parts.align), spec)
    ensures IsSignWord(Spelled(parts.sign), spec.signMode)
  {
    hide ValueOf, AreDecimal;
  }

  lemma NumbersSay(parts: Parts, spec: FormatSpec)
    requires IsSplit(parts) && SpecOf(parts) == Ok(spec)
    ensures IsWidth(Optional(parts.zeroPad, '0'), parts.width, spec)
    ensures IsPrecision(Optional(parts.point, '.') + parts.precision, spec.precision)
  {
    hide ValueOf, AreDecimal, AlignmentOf, SignOf;
    NothingIsZero();
    if parts.point {
      assert (['.'] + parts.precision)[1..] == parts.precision;
    }
  }

  lemma PartsSay(parts: Parts, spec: FormatSpec)
    requires IsSplit(parts) && Acceptable(parts) && SpecOf(parts) == Ok(spec)
    ensures Say(WordsFrom(parts), spec)
  {
    hide ValueOf, IsPresentation, Acceptable, IsSplit, PlacesText, IsSignWord, IsWidth, IsPrecision;
    AcceptedLetters(parts);
    FrontSays(parts, spec);
    NumbersSay(parts, spec);
  }

  /**
   Main result: the texts both readers take, and what they are read as, are exactly what the words say, so a
   specification has one meaning at most.
   */
  lemma ReadAsWritten(text: string, spec: FormatSpec)
    ensures Acceptable(Split(text)) && SpecOf(Split(text)) == Ok(spec) <==>
      exists words :: Say(words, spec) && text == TextOf(words)
  {
    hide Split, Say, SpecOf, Acceptable, TextOf, Spell, PartsFrom, Plain;
    if Acceptable(Split(text)) && SpecOf(Split(text)) == Ok(spec) {
      PartsAreWords(text, spec);
    }
    if words :| Say(words, spec) && text == TextOf(words) {
      WordsAreParts(words, spec);
      SpellSplits(PartsFrom(words));
    }
  }
}
