/**
 Which texts denote which numbers, told as a grammar: a sign, a base prefix, digits in groups with single
 underscores between them, and what may follow.
 */
module NumberTexts {
  import opened Core
  import opened Digits
  import opened Integers
  import opened NumberLayout

  datatype Words = Words(sign: string, prefix: string, groups: seq<string>, tail: string)

  /** Capital and small letters are the same digits. */
  predicate IsDigit(c: char, d: nat) {
    if d < 10 then c == "0123456789"[d]
    else d < 36 && (c == "abcdefghijklmnopqrstuvwxyz"[d - 10] || c == "ABCDEFGHIJKLMNOPQRSTUVWXYZ"[d - 10])
  }

  predicate IsWritten(text: string, digits: seq<nat>) {
    |text| == |digits| && forall i :: 0 <= i < |text| ==> IsDigit(text[i], digits[i])
  }

  /** The text is written in a base and worth this much. */
  ghost predicate IsWorth(text: string, value: nat, base: nat) {
    exists digits ::
      IsWritten(text, digits) && Worth(digits, base) == value && forall i :: 0 <= i < |digits| ==> digits[i] < base
  }

  /** The groups with an underscore between each two. */
  function Joined(groups: seq<string>): string {
    if groups == [] then ""
    else if |groups| == 1 then groups[0]
    else Joined(groups[..|groups| - 1]) + ("_" + groups[|groups| - 1])
  }

  /** The base a prefix stands for. */
  function BaseFor(prefix: string): nat {
    if prefix in ["0x", "0X"] then 16
    else if prefix in ["0o", "0O"] then 8
    else if prefix in ["0b", "0B"] then 2
    else 10
  }

  /** A text that starts with the prefix of the base asked for, or of any base if none is. */
  predicate Announces(text: string, base: nat) {
    |text| > 1 && BaseFor(text[..2]) != 10 && (base == 0 || base == BaseFor(text[..2]))
  }

  /** What stands behind the digits goes on neither with a digit nor, where they are allowed, with an underscore. */
  ghost predicate Stops(tail: string, base: nat, options: ParseOptions) {
    && (options.requireEntireToken ==> tail == "")
    && (tail != "" ==>
          (forall d :: 0 <= d < base ==> !IsDigit(tail[0], d)) && !(options.allowSeparators && tail[0] == '_'))
  }

  function Base(words: Words, options: ParseOptions): nat {
    if options.base == 0 then BaseFor(words.prefix) else options.base
  }

  /** Prefix, digits and tail denote the magnitude. */
  ghost predicate DenoteUnsigned(words: Words, magnitude: nat, options: ParseOptions) {
    var base, body := Base(words, options), Joined(words.groups);
    && 2 <= base <= 36
    && (if words.prefix == "" then !Announces(body + words.tail, options.base)
        else |words.prefix| == 2 && Announces(words.prefix, options.base))
    && words.groups != [] && (forall i :: 0 <= i < |words.groups| ==> words.groups[i] != "")
    && (|words.groups| > 1 ==> options.allowSeparators)
    && IsWorth(Flatten(words.groups), magnitude, base) && Stops(words.tail, base, options)
  }

  /** The words denote the number; zero may carry either sign. */
  ghost predicate Denote(words: Words, value: int, options: ParseOptions) {
    && (words.sign == "" || (options.allowSign && words.sign in ["+", "-"]))
    && (value < 0 ==> words.sign == "-") && (value > 0 ==> words.sign != "-")
    && DenoteUnsigned(words, Magnitude(value), options)
  }

  function Unsigned(words: Words): string { words.prefix + (Joined(words.groups) + words.tail) }

  function TextOf(words: Words): string { words.sign + Unsigned(words) }

  // ------------------------------------------------------------ digits

  lemma DigitMeans(c: char, d: nat)
    ensures IsDigit(c, d) <==> d < 36 && DigitValue(c) == d
  {
    if d < 10 {
      assert "0123456789"[d] == '0' + d as char;
    } else if d < 36 {
      LetterMeans(d);
    }
  }

  lemma LetterMeans(d: nat)
    requires 10 <= d < 36
    ensures "abcdefghijklmnopqrstuvwxyz"[d - 10] == 'a' + (d - 10) as char
    ensures "ABCDEFGHIJKLMNOPQRSTUVWXYZ"[d - 10] == 'A' + (d - 10) as char
  {
  }

  function Places(text: string): (digits: seq<nat>)
    ensures |digits| == |text|
  {
    seq(|text|, i requires 0 <= i < |text| => DigitValue(text[i]))
  }

  /** From the front or from the back, digits are worth the same. */
  lemma {:induction false} PlacesWorth(text: string, base: nat)
    ensures Worth(Places(text), base) == ValueOf(text, base)
    decreases |text|
  {
    hide DigitValue, Worth;
    if text == [] {
      NothingIsWorthNothing(base);
    } else {
      var front, last := text[..|text| - 1], text[|text| - 1];
      PlacesWorth(front, base);
      WorthAppend(Places(front), DigitValue(last), base);
      assert Places(text) == Places(front) + [DigitValue(last)];
    }
  }

  lemma WorthIsValue(text: string, value: nat, base: nat)
    requires base <= 36
    ensures IsWorth(text, value, base) <==> IsNumeral(text, base) && ValueOf(text, base) == value
  {
    hide DigitValue, IsDigit, Worth, ValueOf;
    PlacesWorth(text, base);
    forall c: char, d: nat ensures IsDigit(c, d) <==> d < 36 && DigitValue(c) == d { DigitMeans(c, d); }
    if IsNumeral(text, base) && ValueOf(text, base) == value {
      assert IsWritten(text, Places(text));
    }
    if IsWorth(text, value, base) {
      var digits :| IsWritten(text, digits) && Worth(digits, base) == value
                      && forall i :: 0 <= i < |digits| ==> digits[i] < base;
      assert digits == Places(text);
    }
  }

  // ------------------------------------------------------------ groups

  predicate AreGroups(groups: seq<string>, base: nat) {
    groups != [] && forall i :: 0 <= i < |groups| ==> groups[i] != "" && IsNumeral(groups[i], base)
  }

  lemma {:induction false} WithoutConcat(a: string, b: string)
    ensures WithoutSeparators(a + b) == WithoutSeparators(a) + WithoutSeparators(b)
    decreases |b|
  {
    if b == [] {
      assert a + b == a;
    } else {
      var front, last := b[..|b| - 1], b[|b| - 1];
      WithoutConcat(a, front);
      assert (a + b)[..|a + b| - 1] == a + front;
      var kept := if last == '_' then [] else [last];
      assert WithoutSeparators(a) + (WithoutSeparators(front) + kept)
          == WithoutSeparators(a) + WithoutSeparators(front) + kept;
    }
  }

  lemma Separated(front: string, group: string)
    requires SeparatorsBehindDigits(front) && front != "" && front[|front| - 1] != '_'
    requires SeparatorsBehindDigits(group) && '_' !in group && group != ""
    ensures SeparatorsBehindDigits(front + ("_" + group))
  {
    var run := front + ("_" + group);
    forall i {:trigger run[i]} | 0 < i < |run| ensures !(run[i - 1] == '_' && run[i] == '_') {
      if i > |front| {
        assert run[i] == group[i - |front| - 1];
        assert run[i] in group;
      } else if i < |front| {
        assert run[i] == front[i] && run[i - 1] == front[i - 1];
      }
    }
  }

  /** One more group. */
  lemma GroupBehind(front: string, group: string, base: nat)
    requires WellSeparated(front) && WellSeparated(group) && '_' !in group && WithoutSeparators(group) == group
    ensures var run := front + ("_" + group);
            WellSeparated(run) && WithoutSeparators(run) == WithoutSeparators(front) + group
  {
    Separated(front, group);
    hide WithoutSeparators;
    WithoutConcat(front, "_" + group);
    WithoutConcat("_", group);
    assert WithoutSeparators("_") == "" by { NothingBetween(); }
    assert "" + group == group;
  }

  lemma NothingBetween()
    ensures WithoutSeparators("_") == ""
  {
  }

  /** What joined groups look like to the digit loop. */
  lemma {:induction false} JoinedRuns(groups: seq<string>, base: nat)
    requires AreGroups(groups, base) && base <= 36
    ensures WellSeparated(Joined(groups)) && WithoutSeparators(Joined(groups)) == Flatten(groups)
    ensures forall c :: c in Joined(groups) ==> IsDigitOrSeparator(c, base, |groups| > 1)
    decreases |groups|
  {
    hide IsNumeral, WellSeparated, WithoutSeparators, IsDigitOrSeparator;
    var last := groups[|groups| - 1];
    GroupRuns(last, base);
    if |groups| == 1 {
      OneGroup(groups);
    } else {
      var front := groups[..|groups| - 1];
      JoinedRuns(front, base);
      GroupBehind(Joined(front), last, base);
      assert groups == front + [last];
      FlattenAppend(front, last);
      forall c | c in Joined(groups) ensures IsDigitOrSeparator(c, base, true) {
        SeparatorsAllowed(c, base, |front| > 1);
      }
    }
  }

  lemma SeparatorsAllowed(c: char, base: nat, separators: bool)
    ensures IsDigitOrSeparator(c, base, separators) ==> IsDigitOrSeparator(c, base, true)
    ensures IsDigitOrSeparator('_', base, true)
  {
  }

  lemma OneGroup(groups: seq<string>)
    requires |groups| == 1
    ensures Joined(groups) == Flatten(groups) == groups[0]
  {
    assert groups[1..] == [];
    assert groups[0] + [] == groups[0];
  }

  lemma GroupRuns(group: string, base: nat)
    requires group != "" && IsNumeral(group, base) && base <= 36
    ensures WellSeparated(group) && WithoutSeparators(group) == group && '_' !in group
    ensures forall c, separators :: c in group ==> IsDigitOrSeparator(c, base, separators)
  {
    hide DigitValue, WithoutSeparators;
    NumeralHasNoSeparators(group, base);
  }

  /** A run ends with a digit, and holds an underscore only where that is allowed. */
  lemma RunEnds(run: string, base: nat, separators: bool)
    requires WellSeparated(run) && base <= 36
    requires forall i :: 0 <= i < |run| ==> IsDigitOrSeparator(run[i], base, separators)
    ensures run != "" && DigitValue(run[|run| - 1]) < base
    ensures |run| > 1 && run[|run| - 2] == '_' ==> separators
  {
    SeparatorIsNoDigit(base);
  }

  lemma FirstGroup(group: string, base: nat)
    requires |group| == 1 && DigitValue(group[0]) < base
    ensures AreGroups([group], base)
  {
  }

  lemma SomeGroups(groups: seq<string>, base: nat)
    requires AreGroups(groups, base)
    ensures groups != []
  {
  }

  lemma GroupAdded(groups: seq<string>, c: char, base: nat)
    requires AreGroups(groups, base) && DigitValue(c) < base
    ensures AreGroups(groups + [[c]], base)
  {
    hide DigitValue;
  }

  lemma GroupGrows(front: seq<string>, last: string, c: char, base: nat)
    requires AreGroups(front + [last], base) && DigitValue(c) < base
    ensures AreGroups(front + [last + [c]], base)
  {
    hide DigitValue;
    var groups, longer := front + [last], front + [last + [c]];
    assert groups[|front|] == last && forall i :: 0 <= i < |front| ==> longer[i] == groups[i];
  }

  /** A run of digits comes apart at its underscores. */
  lemma {:induction false} RunIsJoined(run: string, base: nat, separators: bool) returns (groups: seq<string>)
    requires WellSeparated(run) && base <= 36
    requires forall i :: 0 <= i < |run| ==> IsDigitOrSeparator(run[i], base, separators)
    ensures AreGroups(groups, base) && Joined(groups) == run && (|groups| > 1 ==> separators)
    decreases |run|
  {
    hide DigitValue, WellSeparated, Joined, AreGroups, IsDigitOrSeparator;
    RunEnds(run, base, separators);
    var front, c := run[..|run| - 1], run[|run| - 1];
    if front == "" {
      groups := [run];
      SingleGroup(run);
      FirstGroup(run, base);
    } else if front[|front| - 1] == '_' {
      var before := run[..|run| - 2];
      BeforeUnderscore(run);
      groups := RunIsJoined(before, base, separators);
      SomeGroups(groups, base);
      assert run == before + ("_" + [c]);
      NewGroup(groups, [c]);
      GroupAdded(groups, c, base);
      groups := groups + [[c]];
    } else {
      ShorterRun(run, |front|);
      groups := RunIsJoined(front, base, separators);
      SomeGroups(groups, base);
      var n, last := |groups| - 1, groups[|groups| - 1];
      assert groups == groups[..n] + [last];
      LongerGroup(groups[..n], last, c);
      GroupGrows(groups[..n], last, c, base);
      assert run == front + [c];
      groups := groups[..n] + [last + [c]];
    }
  }

  lemma ShorterRun(run: string, n: nat)
    requires WellSeparated(run) && 0 < n <= |run| && run[n - 1] != '_'
    ensures WellSeparated(run[..n])
  {
  }

  lemma BeforeUnderscore(run: string)
    requires WellSeparated(run) && |run| > 1 && run[|run| - 2] == '_'
    ensures |run| > 2 && WellSeparated(run[..|run| - 2])
  {
    var i := |run| - 2;
    assert run[i] == '_';
    ShorterRun(run, i);
  }

  lemma NewGroup(groups: seq<string>, group: string)
    requires groups != []
    ensures Joined(groups + [group]) == Joined(groups) + ("_" + group)
  {
    assert (groups + [group])[..|groups|] == groups;
  }

  lemma SingleGroup(group: string)
    ensures Joined([group]) == group
  {
  }

  lemma Regrouped(a: string, b: string, c: string, d: string)
    ensures a + (b + c) + d == a + (b + (c + d))
  {
  }

  lemma LongerGroup(front: seq<string>, last: string, c: char)
    ensures Joined(front + [last + [c]]) == Joined(front + [last]) + [c]
  {
    hide Joined;
    var longer := last + [c];
    if front == [] {
      assert front + [last] == [last] && front + [longer] == [longer];
      SingleGroup(last);
      SingleGroup(longer);
    } else {
      NewGroup(front, last);
      NewGroup(front, longer);
      Regrouped(Joined(front), "_", last, [c]);
    }
  }

  lemma {:induction false} FlattenIsNumeral(groups: seq<string>, base: nat)
    ensures IsNumeral(Flatten(groups), base) <==> forall i :: 0 <= i < |groups| ==> IsNumeral(groups[i], base)
  {
    hide DigitValue;
    if groups != [] {
      FlattenIsNumeral(groups[1..], base);
      var first, rest := groups[0], Flatten(groups[1..]);
      assert forall i :: 0 <= i < |groups| - 1 ==> groups[1..][i] == groups[i + 1];
      assert forall i :: 0 <= i < |first| ==> (first + rest)[i] == first[i];
      assert forall i :: 0 <= i < |rest| ==> (first + rest)[|first| + i] == rest[i];
    }
  }

  // ------------------------------------------------------------ prefix, digits and tail

  lemma AnnouncedPrefix(text: string, base: nat)
    ensures PrefixLength(text, base) == if Announces(text, base) then 2 else 0
    ensures EffectiveBase(text, base)
         == if base != 0 then base else if Announces(text, 0) then BaseFor(text[..2]) else 10
  {
    if |text| > 1 {
      var two := text[..2];
      assert two == [text[0], text[1]];
      assert BaseFor(two) == if text[0] == '0' && LetterBase(text[1]) != 0 then LetterBase(text[1]) else 10 by {
        PrefixByLetter(two);
      }
    }
  }

  lemma PrefixByLetter(two: string)
    requires |two| == 2
    ensures BaseFor(two) == if two[0] == '0' && LetterBase(two[1]) != 0 then LetterBase(two[1]) else 10
    ensures LetterBase(two[1]) != 10
  {
    assert two == [two[0], two[1]];
  }

  lemma TailStops(tail: string, base: nat, options: ParseOptions)
    requires base <= 36
    ensures Stops(tail, base, options) <==>
      (options.requireEntireToken ==> tail == "")
      && (tail != "" ==> !IsDigitOrSeparator(tail[0], base, options.allowSeparators))
  {
    hide IsDigit, DigitValue;
    if tail != "" {
      forall d: nat ensures IsDigit(tail[0], d) <==> d < 36 && DigitValue(tail[0]) == d { DigitMeans(tail[0], d); }
      if DigitValue(tail[0]) < base {
        assert IsDigit(tail[0], DigitValue(tail[0]));
      }
    }
  }

  /** The digit loop reads the groups and stops in front of the tail. */
  lemma GroupsRead(groups: seq<string>, tail: string, magnitude: nat, base: nat, options: ParseOptions)
    requires 2 <= base <= 36 && AreGroups(groups, base) && (|groups| > 1 ==> options.allowSeparators)
    requires IsWorth(Flatten(groups), magnitude, base) && Stops(tail, base, options)
    ensures RunValue(Joined(groups) + tail, base, options) == Some(magnitude)
    ensures Joined(groups) != "" && IsDigitOrSeparator(Joined(groups)[0], base, false)
  {
    hide IsWorth, Stops, WellSeparated, WithoutSeparators, DigitValue, ValueOf, IsNumeral;
    var body, text := Joined(groups), Joined(groups) + tail;
    JoinedRuns(groups, base);
    WorthIsValue(Flatten(groups), magnitude, base);
    TailStops(tail, base, options);
    RunStarts(body);
    forall k | 0 <= k < |body| ensures IsDigitOrSeparator(text[k], base, options.allowSeparators) {
      assert body[k] in body && text[k] == body[k];
    }
    assert body[0] in body;
    ExtentAt(text, |body|, base, options.allowSeparators);
    assert text[|body|..] == tail && text[..|body|] == body;
  }

  lemma RunStarts(run: string)
    requires WellSeparated(run)
    ensures run != "" && run[0] != '_'
  {
  }

  lemma WordsRead(words: Words, magnitude: nat, options: ParseOptions)
    requires DenoteUnsigned(words, magnitude, options)
    ensures UnsignedOf(Unsigned(words), options) == Some(magnitude)
    ensures Unsigned(words) != "" && !IsSignChar(Unsigned(words)[0])
  {
    hide IsWorth, Stops, RunValue, DigitValue, Joined, Announces, PrefixLength, EffectiveBase, IsNumeral, IsSignChar;
    var base, body, text := Base(words, options), Joined(words.groups), Unsigned(words);
    WorthIsValue(Flatten(words.groups), magnitude, base);
    FlattenIsNumeral(words.groups, base);
    GroupsRead(words.groups, words.tail, magnitude, base, options);
    AnnouncedPrefix(text, options.base);
    if words.prefix == "" {
      assert text == body + words.tail && text[0..] == text;
      AnnouncesAny(text, options.base);
      DigitIsNoSign(text[0]);
    } else {
      AnnouncedInFront(words.prefix, body + words.tail, options.base);
      assert text[2..] == body + words.tail && text[0] == words.prefix[0];
    }
  }

  /** Without a base asked for, any prefix announces one. */
  lemma AnnouncesAny(text: string, base: nat)
    ensures base == 0 && !Announces(text, base) ==> !Announces(text, 0)
  {
  }

  lemma AnnouncedInFront(prefix: string, rest: string, base: nat)
    requires |prefix| == 2 && Announces(prefix, base)
    ensures Announces(prefix + rest, base) && (prefix + rest)[..2] == prefix && !IsSignChar(prefix[0])
    ensures base == 0 ==> Announces(prefix + rest, 0)
    ensures base != 0 ==> base == BaseFor(prefix)
  {
    assert (prefix + rest)[..2] == prefix == prefix[..2];
  }

  /** A run that was read comes apart into groups. */
  lemma ReadAsGroups(text: string, magnitude: nat, base: nat, options: ParseOptions)
    returns (groups: seq<string>, tail: string)
    requires RunValue(text, base, options) == Some(magnitude) && base <= 36
    ensures text == Joined(groups) + tail && AreGroups(groups, base) && (|groups| > 1 ==> options.allowSeparators)
    ensures IsWorth(Flatten(groups), magnitude, base) && Stops(tail, base, options)
  {
    hide IsWorth, Stops, IsNumeral, ValueOf, WellSeparated, WithoutSeparators, Extent, IsDigitOrSeparator, Joined;
    var n := Extent(text, base, options.allowSeparators);
    ExtentEnds(text, base, options.allowSeparators);
    assert forall i :: 0 <= i < n ==> text[..n][i] == text[i];
    groups := RunIsJoined(text[..n], base, options.allowSeparators);
    tail := text[n..];
    JoinedRuns(groups, base);
    FlattenIsNumeral(groups, base);
    WorthIsValue(Flatten(groups), magnitude, base);
    TailStops(tail, base, options);
    assert text[..n] + tail == text;
  }

  /** What was read comes apart into words. */
  lemma ReadAsWords(text: string, magnitude: nat, options: ParseOptions) returns (words: Words)
    requires UnsignedOf(text, options) == Some(magnitude)
    ensures words.sign == "" && DenoteUnsigned(words, magnitude, options) && Unsigned(words) == text
  {
    hide IsWorth, Stops, Joined, Announces, PrefixLength, EffectiveBase, IsNumeral, BaseFor, RunValue;
    AnnouncedPrefix(text, options.base);
    var base, prefix := EffectiveBase(text, options.base), text[..PrefixLength(text, options.base)];
    var groups, tail := ReadAsGroups(text[|prefix|..], magnitude, base, options);
    words := Words("", prefix, groups, tail);
    assert prefix + text[|prefix|..] == text;
    PrefixStands(text, options.base);
  }

  lemma PrefixStands(text: string, base: nat)
    ensures Announces(text, base) ==> |text[..2]| == 2 && Announces(text[..2], base)
    ensures base == 0 ==> (Announces(text, base) <==> Announces(text, 0))
    ensures BaseFor("") == 10
  {
    if |text| > 1 {
      assert text[..2][..2] == text[..2];
    }
  }

  /**
   Main result: for every text and every set of options, the number the parser sees in a text is the one its
   words denote, and it sees one exactly when the text consists of such words.
   */
  lemma NumbersAreWords(text: string, value: int, options: ParseOptions)
    ensures NumberOf(text, options) == Some(value) <==>
      exists words :: Denote(words, value, options) && text == TextOf(words)
  {
    hide DenoteUnsigned, UnsignedOf, Unsigned;
    if NumberOf(text, options) == Some(value) {
      var s := SignLength(text, options);
      var words := ReadAsWords(text[s..], Magnitude(value), options);
      var signed := words.(sign := text[..s]);
      assert Unsigned(signed) == Unsigned(words) && DenoteUnsigned(signed, Magnitude(value), options) by {
        SignAside(words, text[..s], Magnitude(value), options);
      }
      assert text[..s] + text[s..] == text;
      SignTaken(text, options);
      assert Denote(signed, value, options) && TextOf(signed) == text;
    }
    if words :| Denote(words, value, options) && text == TextOf(words) {
      WordsRead(words, Magnitude(value), options);
      SignRead(words.sign, Unsigned(words), options);
    }
  }

  lemma SignTaken(text: string, options: ParseOptions)
    ensures var sign := text[..SignLength(text, options)];
            && (sign == "" || (options.allowSign && sign in ["+", "-"])) && IsMinus(text, options) == (sign == "-")
  {
    if SignLength(text, options) == 1 {
      assert text[..1] == [text[0]];
    }
  }

  lemma SignAside(words: Words, sign: string, magnitude: nat, options: ParseOptions)
    ensures Unsigned(words.(sign := sign)) == Unsigned(words)
    ensures DenoteUnsigned(words.(sign := sign), magnitude, options) == DenoteUnsigned(words, magnitude, options)
  {
    hide IsWorth, Stops, Announces, Joined;
  }

  lemma SignRead(sign: string, unsigned: string, options: ParseOptions)
    requires sign == "" || (options.allowSign && sign in ["+", "-"])
    requires unsigned != "" && !IsSignChar(unsigned[0])
    ensures var text := sign + unsigned;
            SignLength(text, options) == |sign| && text[|sign|..] == unsigned && IsMinus(text, options) == (sign == "-")
  {
  }
}
