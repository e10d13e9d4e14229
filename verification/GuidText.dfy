/**
 GUIDs as text (RFC 9562 section 4): eleven groups of hexadecimal digits with four hyphens.
 */
module GuidText {
  import opened Core
  import opened Digits
  import opened FormatSpecs
  import opened Integers

  datatype Guid = Guid(data1: nat, data2: nat, data3: nat, data4: seq<nat>) {
    predicate Valid() {
      && data1 < 0x1_0000_0000 && data2 < 0x1_0000 && data3 < 0x1_0000
      && |data4| == 8 && forall i :: 0 <= i < 8 ==> data4[i] < 0x100
    }
  }

  const GROUPS := 11

  function Width(i: nat): nat { if i == 0 then 8 else if i < 3 then 4 else 2 }
  function Hyphen(i: nat): string { if i == 1 || i == 2 || i == 3 || i == 5 then "-" else "" }

  /** Where group `i` starts in a text whose groups have their nominal widths. */
  function Start(i: nat): nat { if i == 0 then 0 else Start(i - 1) + Width(i - 1) + |Hyphen(i)| }

  function Fields(g: Guid): (fields: seq<nat>)
    requires g.Valid()
    ensures |fields| == GROUPS
  {
    [g.data1, g.data2, g.data3] + g.data4
  }

  // ------------------------------------------------------------ formatting

  predicate GuidPresentation(spec: FormatSpec) { spec.presentation == NO_PRESENTATION || spec.presentation in "xX?" }

  function PartSpec(spec: FormatSpec, width: nat): FormatSpec {
    spec.(width := width, zeroPad := true, presentation := if spec.uppercase then 'X' else 'x')
  }

  function GroupText(value: nat, width: nat, spec: FormatSpec): string {
    Formatted(value, false, PartSpec(spec, width))
  }

  function GroupTexts(g: Guid, spec: FormatSpec): (groups: seq<string>)
    requires g.Valid()
    ensures |groups| == GROUPS
  {
    seq(GROUPS, i requires 0 <= i < GROUPS => GroupText(Fields(g)[i], Width(i), spec))
  }

  /** The groups from `i` on, each behind its hyphen if it has one. */
  function Joined(groups: seq<string>, i: nat): string
    requires i <= |groups|
    decreases |groups| - i
  {
    if i == |groups| then "" else Hyphen(i) + groups[i] + Joined(groups, i + 1)
  }

  function TextOf(g: Guid, spec: FormatSpec): string
    requires g.Valid()
  {
    Joined(GroupTexts(g, spec), 0)
  }

  /** One turn of joining, for the loop that writes the groups. */
  lemma JoinStep(out: string, groups: seq<string>, i: nat)
    requires i < |groups|
    ensures out + Joined(groups, i) == out + Hyphen(i) + groups[i] + Joined(groups, i + 1)
  {
    var hyphen, group, rest := Hyphen(i), groups[i], Joined(groups, i + 1);
    assert Joined(groups, i) == hyphen + group + rest;
    hide Joined, Hyphen;
    assert out + (hyphen + group + rest) == out + hyphen + group + rest;
  }

  method FormatGuid(g: Guid, spec: FormatSpec) returns (r: Result<string>)
    requires g.Valid()
    ensures r == if GuidPresentation(spec) then Ok(TextOf(g, spec)) else Err(InvalidFormat)
    ensures r.Err? <==> spec.presentation !in ['\0', 'x', 'X', '?']
  {
    hide Formatted, Joined, PartSpec, GroupTexts;
    if !GuidPresentation(spec) {
      return Err(InvalidFormat);
    }
    GroupsOf(g, spec);
    ghost var groups := GroupTexts(g, spec);
    var group := FormatUnsigned(g.data1, false, PartSpec(spec, 8));
    var out := "" + "" + group;
    JoinStep("", groups, 0);
    JoinStep(out, groups, 1);
    group := FormatUnsigned(g.data2, false, PartSpec(spec, 4));
    out := out + "-" + group;
    JoinStep(out, groups, 2);
    group := FormatUnsigned(g.data3, false, PartSpec(spec, 4));
    out := out + "-" + group;
    out := FormatNode(g, spec, out);
    assert "" + Joined(groups, 0) == Joined(groups, 0);
    return Ok(out);
  }

  lemma GroupsOf(g: Guid, spec: FormatSpec)
    requires g.Valid()
    ensures var groups := GroupTexts(g, spec);
            && groups[0] == Formatted(g.data1, false, PartSpec(spec, 8))
            && groups[1] == Formatted(g.data2, false, PartSpec(spec, 4))
            && groups[2] == Formatted(g.data3, false, PartSpec(spec, 4))
            && forall i :: 3 <= i < GROUPS ==> groups[i] == Formatted(g.data4[i - 3], false, PartSpec(spec, 2))
  {
    hide Formatted;
  }

  /** The eight bytes at the end, the first two of them between hyphens. */
  method FormatNode(g: Guid, spec: FormatSpec, front: string) returns (out: string)
    requires g.Valid()
    ensures out == front + Joined(GroupTexts(g, spec), 3)
  {
    hide Formatted, Joined, PartSpec, GroupTexts;
    ghost var groups := GroupTexts(g, spec);
    GroupsOf(g, spec);
    out := front + "-";
    var hyphen := true;
    for index := 0 to 8
      invariant hyphen == (index == 0)
      invariant out == (if hyphen then front + "-" else out)
      invariant !hyphen ==> out + Joined(groups, 3 + index) == front + Joined(groups, 3)
    {
      var before := if hyphen then front else out;
      JoinStep(before, groups, 3 + index);
      if index == 2 {
        out := out + "-";
      }
      assert before + "" == before;
      var group := FormatUnsigned(g.data4[index], false, PartSpec(spec, 2));
      out := out + group;
      hyphen := false;
    }
    NothingJoined(groups);
    assert out + "" == out;
  }

  lemma NothingJoined(groups: seq<string>)
    ensures Joined(groups, |groups|) == ""
  {
  }

  // ------------------------------------------------------------ parsing

  predicate HasHyphens(text: string) {
    |text| == 36 && text[8] == '-' && text[13] == '-' && text[18] == '-' && text[23] == '-'
  }

  function GroupAt(text: string, i: nat): string
    requires |text| == 36 && i < GROUPS
  {
    GroupFits(i);
    text[Start(i)..Start(i) + Width(i)]
  }

  lemma GroupFits(i: nat)
    requires i < GROUPS
    ensures Start(i) + Width(i) <= 36
    ensures i == 0 ==> Start(i) == 0
    ensures i == 1 ==> Start(i) == 9
    ensures i == 2 ==> Start(i) == 14
    ensures i == 3 ==> Start(i) == 19
    ensures i == 4 ==> Start(i) == 21
    ensures i >= 5 ==> Start(i) == 14 + 2 * i
  {
    if i > 0 {
      GroupFits(i - 1);
    }
  }

  predicate IsGuidText(text: string) {
    HasHyphens(text) && forall i: nat :: i < GROUPS ==> GoodGroup(text, i)
  }

  function FieldAt(text: string, i: nat): nat
    requires |text| == 36 && i < GROUPS
  {
    ValueOf(GroupAt(text, i), 16)
  }

  function GuidOf(text: string): Guid
    requires |text| == 36
  {
    Guid(FieldAt(text, 0), FieldAt(text, 1), FieldAt(text, 2), seq(8, i requires 0 <= i < 8 => FieldAt(text, 3 + i)))
  }

  method Hex(text: string, offset: nat, count: nat) returns (r: Result<nat>)
    requires offset + count <= |text|
    ensures var group := text[offset..offset + count];
            r == if IsNumeral(group, 16) then Ok(ValueOf(group, 16)) else Err(InvalidFormat)
  {
    hide DigitValue;
    ghost var group := text[offset..offset + count];
    var value: nat := 0;
    for index := 0 to count
      invariant IsNumeral(group[..index], 16) && value == ValueOf(group[..index], 16)
    {
      var digit := DigitValue(text[offset + index]);
      assert group[index] == text[offset + index];
      if digit >= 16 {
        return Err(InvalidFormat);
      }
      assert group[..index + 1] == group[..index] + [group[index]];
      ValueAppend(group[..index], group[index], 16);
      value := value * 16 + digit;
    }
    assert group[..count] == group;
    return Ok(value);
  }

  method ParseGuid(text: string) returns (r: Result<Guid>)
    ensures r == if IsGuidText(text) then Ok(GuidOf(text)) else Err(InvalidFormat)
  {
    hide IsNumeral, ValueOf, Start, Width, GroupAt;
    if |text| != 36 || text[8] != '-' || text[13] != '-' || text[18] != '-' || text[23] != '-' {
      return Err(InvalidFormat);
    }
    GroupPlaces(text);
    var data1 := Hex(text, 0, 8);
    var data2 := Hex(text, 9, 4);
    var data3 := Hex(text, 14, 4);
    if data1.Err? {
      assert !GoodGroup(text, 0);
      return Err(data1.code);
    }
    if data2.Err? {
      assert !GoodGroup(text, 1);
      return Err(data2.code);
    }
    if data3.Err? {
      assert !GoodGroup(text, 2);
      return Err(data3.code);
    }
    var data4 := ParseNode(text);
    if data4.Err? {
      return Err(data4.code);
    }
    assert data4.value == GuidOf(text).data4;
    return Ok(Guid(data1.value, data2.value, data3.value, data4.value));
  }

  predicate GoodGroup(text: string, i: nat)
    requires |text| == 36 && i < GROUPS
  {
    IsNumeral(GroupAt(text, i), 16)
  }

  /** The eight bytes at the end. */
  method ParseNode(text: string) returns (r: Result<seq<nat>>)
    requires |text| == 36
    ensures r.Ok? <==> forall i: nat :: 3 <= i < GROUPS ==> GoodGroup(text, i)
    ensures r.Ok? ==> |r.value| == 8 && forall i: nat :: 3 <= i < GROUPS ==> r.value[i - 3] == FieldAt(text, i)
    ensures r.Err? ==> r.code == InvalidFormat
  {
    hide IsNumeral, ValueOf, Start, Width, GroupAt;
    GroupPlaces(text);
    var offsets := [19, 21, 24, 26, 28, 30, 32, 34];
    var data4: seq<nat> := [];
    for index := 0 to 8
      invariant |data4| == index
      invariant forall i: nat :: 3 <= i < 3 + index ==> GoodGroup(text, i) && data4[i - 3] == FieldAt(text, i)
    {
      var byte := Hex(text, offsets[index], 2);
      assert GroupAt(text, 3 + index) == text[offsets[index]..offsets[index] + 2];
      if byte.Err? {
        assert !GoodGroup(text, 3 + index);
        return Err(byte.code);
      }
      data4 := data4 + [byte.value];
    }
    return Ok(data4);
  }

  lemma GroupPlaces(text: string)
    requires |text| == 36
    ensures GroupAt(text, 0) == text[0..8] && GroupAt(text, 1) == text[9..13] && GroupAt(text, 2) == text[14..18]
    ensures GroupAt(text, 3) == text[19..21] && GroupAt(text, 4) == text[21..23]
    ensures forall i: nat :: 5 <= i < GROUPS ==> GroupAt(text, i) == text[14 + 2 * i..16 + 2 * i]
  {
    GroupFits(0);
    GroupFits(1);
    GroupFits(2);
    GroupFits(3);
    GroupFits(4);
    forall i: nat | 5 <= i < GROUPS ensures GroupAt(text, i) == text[14 + 2 * i..16 + 2 * i] {
      GroupFits(i);
    }
  }

  // ------------------------------------------------------------ one group

  lemma {:induction false} FilledValue(c: char, n: nat)
    requires DigitValue(c) < 16
    ensures IsNumeral(Fill(c, n), 16)
    ensures ValueOf(Fill(c, n), 16) == 0 <==> n == 0 || DigitValue(c) == 0
  {
    hide DigitValue;
    if n > 0 {
      FilledValue(c, n - 1);
      assert Fill(c, n) == Fill(c, n - 1) + [c];
      ValueAppend(Fill(c, n - 1), c, 16);
    }
  }

  /** Fill characters around digits keep the value exactly when they are leading zeros, or zeros around a zero. */
  lemma FillingKeepsValue(left: nat, numeral: string, right: nat, c: char)
    requires IsNumeral(numeral, 16) && numeral != [] && left + right > 0
    ensures var text := Fill(c, left) + numeral + Fill(c, right);
            (IsNumeral(text, 16) && ValueOf(text, 16) == ValueOf(numeral, 16))
            <==> DigitValue(c) == 0 && (right == 0 || ValueOf(numeral, 16) == 0)
  {
    hide DigitValue, ValueOf, Power;
    var text := Fill(c, left) + numeral + Fill(c, right);
    if DigitValue(c) >= 16 {
      assert text[if left > 0 then 0 else |text| - 1] == c;
    } else {
      FilledValue(c, left);
      FilledValue(c, right);
      ValueConcat(Fill(c, left) + numeral, Fill(c, right), 16);
      ValueConcat(Fill(c, left), numeral, 16);
      PowerPositive(16, |numeral|);
      RightPower(right);
      FilledSum(ValueOf(Fill(c, left), 16), Power(16, |numeral|), ValueOf(numeral, 16), Power(16, right),
                ValueOf(Fill(c, right), 16), right);
    }
  }

  lemma RightPower(right: nat)
    ensures Power(16, right) >= 1 && (right == 0 <==> Power(16, right) == 1)
  {
    PowerPositive(16, right);
    if right > 0 {
      PowerPositive(16, right - 1);
    } else {
      assert Power(16, right) == 1;
    }
  }

  lemma FilledSum(l: nat, p: nat, v: nat, q: nat, r: nat, right: nat)
    requires p >= 1 && q >= 1 && (right == 0 <==> q == 1)
    ensures (l * p + v) * q + r == v <==> l == 0 && r == 0 && (right == 0 || v == 0)
  {
    var inner := l * p + v;
    MulMono(inner, 1, q);
    if l > 0 {
      MulMono(l, 1, p);
    } else {
      assert inner == v;
      if right > 0 && v > 0 {
        MulMono(v, 2, q);
      }
    }
  }

  /** When a group of a formatted GUID reads back as its value. */
  predicate GroupKeeps(value: nat, width: nat, spec: FormatSpec) {
    || spec.align.Default?
    || |Numeral(value, 16, spec.uppercase)| >= width
    || (spec.fill == '0' && (spec.align.Right? || value == 0))
  }

  lemma PartIsHexadecimal(spec: FormatSpec, width: nat)
    ensures var part := PartSpec(spec, width);
            BaseOf(part.presentation) == 16 && IsUpper(part) == spec.uppercase
              && (spec.alternate ==> |PrefixText(part)| == 2) && (!spec.alternate ==> PrefixText(part) == "")
  {
  }

  /** A group without sign and prefix has its width, and reads as its value exactly when its padding is harmless. */
  lemma GroupReads(value: nat, width: nat, spec: FormatSpec)
    requires !spec.alternate && spec.signMode.NegativeOnly? && width > 0 && value < Power(16, width)
    ensures var text := GroupText(value, width, spec);
            |text| == width && ((IsNumeral(text, 16) && ValueOf(text, 16) == value) <==> GroupKeeps(value, width, spec))
  {
    hide Numeral, ValueOf, PrefixText, BaseOf, IsUpper, Power, DigitValue;
    var part := PartSpec(spec, width);
    PartIsHexadecimal(spec, width);
    var numeral := NumeralOf(value, part);
    NumeralLength(value, 16, spec.uppercase, width);
    ValueOfNumeral(value, 16, spec.uppercase);
    var padding := PaddingOf(value, false, part);
    assert padding == width - |numeral|;
    if spec.align.Default? || padding == 0 {
      FormattedPlainly(value, false, part);
      assert "" + ("" + BodyOf(value, false, part)) == BodyOf(value, false, part);
      BodyReads(value, false, part);
    } else {
      var left := LeftShare(spec.align, padding);
      assert Fill(spec.fill, left) + "" + numeral + Fill(spec.fill, padding - left)
          == Fill(spec.fill, left) + numeral + Fill(spec.fill, padding - left);
      FillingKeepsValue(left, numeral, padding - left, spec.fill);
      OnlyZeroIsZero(spec.fill);
    }
  }

  lemma OnlyZeroIsZero(c: char)
    ensures DigitValue(c) == 0 <==> c == '0'
  {
  }

  /** A sign in front of a group makes it too long or no numeral. */
  lemma SignSpoilsGroup(value: nat, width: nat, spec: FormatSpec)
    requires !spec.signMode.NegativeOnly?
    ensures !IsNumeral(GroupText(value, width, spec), 16)
  {
    hide Numeral, PrefixText, DigitValue;
    var part := PartSpec(spec, width);
    var sign := SignText(false, spec.signMode)[0];
    assert DigitValue(sign) >= 16 by { SignsAreNoDigits(); }
    var text := GroupText(value, width, spec);
    var padding := PaddingOf(value, false, part);
    if part.zeroPad && part.align.Default? {
      assert text[0] == sign;
    } else {
      assert text[LeftShare(spec.align, padding)] == sign;
    }
  }

  lemma SignsAreNoDigits()
    ensures DigitValue('+') >= 16 && DigitValue(' ') >= 16
  {
  }

  /** Every group is at least as wide as its field; one with a base prefix is wider where only two digits fit. */
  lemma GroupIsWideEnough(value: nat, width: nat, spec: FormatSpec)
    ensures |GroupText(value, width, spec)| >= width
    ensures spec.alternate ==> |GroupText(value, width, spec)| >= 3
  {
    hide Numeral, PrefixText, SignText;
    PartIsHexadecimal(spec, width);
  }

  // ------------------------------------------------------------ the whole text

  function SumFrom(i: nat): nat
    requires i <= GROUPS
    decreases GROUPS - i
  {
    if i == GROUPS then 0 else |Hyphen(i)| + Width(i) + SumFrom(i + 1)
  }

  predicate AllWide(groups: seq<string>) {
    |groups| == GROUPS && forall i :: 0 <= i < GROUPS ==> |groups[i]| >= Width(i)
  }

  /** The joined text has its nominal length exactly when every group has its nominal width. */
  lemma {:induction false} JoinedLength(groups: seq<string>, i: nat)
    requires AllWide(groups) && i <= GROUPS
    ensures |Joined(groups, i)| >= SumFrom(i)
    ensures |Joined(groups, i)| == SumFrom(i) <==> forall k :: i <= k < GROUPS ==> |groups[k]| == Width(k)
    decreases GROUPS - i
  {
    hide Width, Hyphen;
    if i < GROUPS {
      JoinedLength(groups, i + 1);
    }
  }

  lemma FullLength()
    ensures SumFrom(0) == 36
  {
    assert SumFrom(8) == 6;
    assert SumFrom(5) == 13;
    assert SumFrom(3) == 18;
  }

  lemma Behind(text: string, start: nat, piece: string, back: string)
    requires start <= |text| && text[start..] == piece + back
    ensures start + |piece| <= |text| && text[start + |piece|..] == back
    ensures |piece| == 1 ==> text[start] == piece[0]
  {
    assert text[start + |piece|..] == text[start..][|piece|..];
    assert |piece| == 1 ==> text[start] == text[start..][0];
  }

  /** In a text of nominal widths every group stands in its place, with its hyphen in front. */
  lemma {:induction false} JoinedAt(groups: seq<string>, i: nat)
    requires |groups| == GROUPS && i < GROUPS && forall k :: 0 <= k < GROUPS ==> |groups[k]| == Width(k)
    ensures var text := Joined(groups, 0);
            && Start(i) + Width(i) <= |text| && text[Start(i)..] == groups[i] + Joined(groups, i + 1)
            && (Hyphen(i) == "-" ==> Start(i) > 0 && text[Start(i) - 1] == '-')
  {
    hide Width, Joined, Hyphen;
    var text, back, next := Joined(groups, 0), Joined(groups, i), Joined(groups, i + 1);
    JoinedHere(groups, i);
    if i == 0 {
      assert text[0..] == text;
      Behind(text, 0, groups[0], next);
    } else {
      JoinedAt(groups, i - 1);
      Behind(text, Start(i - 1), groups[i - 1], back);
      Behind(text, Start(i - 1) + Width(i - 1), Hyphen(i), groups[i] + next);
      Behind(text, Start(i), groups[i], next);
    }
  }

  lemma JoinedHere(groups: seq<string>, i: nat)
    requires i < |groups|
    ensures Joined(groups, i) == Hyphen(i) + (groups[i] + Joined(groups, i + 1))
    ensures i == 0 ==> Joined(groups, i) == groups[i] + Joined(groups, i + 1)
    ensures i == 0 ==> Hyphen(i) == ""
  {
  }

  /** What the parser sees of a text of nominal widths. */
  lemma NominalText(groups: seq<string>)
    requires |groups| == GROUPS && forall k :: 0 <= k < GROUPS ==> |groups[k]| == Width(k)
    ensures |Joined(groups, 0)| == 36 && HasHyphens(Joined(groups, 0))
    ensures forall i: nat :: i < GROUPS ==> GroupAt(Joined(groups, 0), i) == groups[i]
  {
    hide Joined, Start;
    JoinedLength(groups, 0);
    FullLength();
    var text := Joined(groups, 0);
    forall i: nat | i < GROUPS ensures GroupAt(text, i) == groups[i] {
      JoinedAt(groups, i);
      GroupFits(i);
      assert text[Start(i)..][..Width(i)] == groups[i];
      assert text[Start(i)..Start(i) + Width(i)] == text[Start(i)..][..Width(i)];
    }
    JoinedAt(groups, 1);
    JoinedAt(groups, 2);
    JoinedAt(groups, 3);
    JoinedAt(groups, 5);
    GroupFits(1);
    GroupFits(2);
    GroupFits(3);
    GroupFits(5);
  }

  /** The specs under which GUID text parses back. */
  predicate Parses(g: Guid, spec: FormatSpec)
    requires g.Valid()
  {
    && !spec.alternate && spec.signMode.NegativeOnly?
    && forall i :: 0 <= i < GROUPS ==> GroupKeeps(Fields(g)[i], Width(i), spec)
  }

  lemma FieldsFit(g: Guid, i: nat)
    requires g.Valid() && i < GROUPS
    ensures Fields(g)[i] < Power(16, Width(i))
  {
    assert Power(16, 2) == 0x100;
    PowerAdd(16, 2, 2);
    PowerAdd(16, 4, 4);
  }

  predicate RoundTrips(g: Guid, spec: FormatSpec)
    requires g.Valid()
  {
    var text := TextOf(g, spec);
    |text| == 36 && IsGuidText(text) && GuidOf(text) == g
  }

  /** A text whose groups all have their width round-trips exactly when each group reads as its field. */
  lemma RoundTripByGroup(g: Guid, spec: FormatSpec)
    requires g.Valid()
    requires forall i :: 0 <= i < GROUPS ==> |GroupTexts(g, spec)[i]| == Width(i)
    ensures RoundTrips(g, spec) <==>
      forall i :: 0 <= i < GROUPS ==>
        IsNumeral(GroupTexts(g, spec)[i], 16) && ValueOf(GroupTexts(g, spec)[i], 16) == Fields(g)[i]
  {
    hide IsNumeral, ValueOf, Joined, GroupText, GroupAt, Width;
    var groups := GroupTexts(g, spec);
    NominalText(groups);
    var text := TextOf(g, spec);
    if RoundTrips(g, spec) {
      forall i: nat | i < GROUPS ensures IsNumeral(groups[i], 16) && ValueOf(groups[i], 16) == Fields(g)[i] {
        assert GoodGroup(text, i);
        assert Fields(GuidOf(text))[i] == FieldAt(text, i);
      }
    }
    if forall i :: 0 <= i < GROUPS ==> IsNumeral(groups[i], 16) && ValueOf(groups[i], 16) == Fields(g)[i] {
      assert forall i: nat :: i < GROUPS ==> GoodGroup(text, i);
      assert forall i: nat :: i < GROUPS ==> FieldAt(text, i) == Fields(g)[i];
      assert GuidOf(text).data4 == g.data4 by {
        forall i | 0 <= i < 8 ensures GuidOf(text).data4[i] == g.data4[i] {
          assert FieldAt(text, 3 + i) == Fields(g)[3 + i];
        }
      }
    }
  }

  /**
   Main result: GUID text parses back to the GUID it came from exactly when no base prefix and no sign
   was asked for and padding, where an explicit alignment replaced zero padding, did no harm.  The
   default spec, `x` and `X` always qualify; `#` never does.
   */
  lemma GuidRoundTrip(g: Guid, spec: FormatSpec)
    requires g.Valid()
    ensures RoundTrips(g, spec) <==> Parses(g, spec)
  {
    hide GroupText, GroupKeeps, Joined, IsNumeral, ValueOf, Fields, Power, GuidOf, IsGuidText;
    var groups := GroupTexts(g, spec);
    forall i | 0 <= i < GROUPS
      ensures |groups[i]| >= Width(i) && (spec.alternate ==> |groups[i]| >= 3)
    {
      GroupIsWideEnough(Fields(g)[i], Width(i), spec);
    }
    JoinedLength(groups, 0);
    FullLength();
    if spec.alternate {
      assert |groups[3]| != Width(3);
    } else if !spec.signMode.NegativeOnly? {
      SignSpoilsGroup(Fields(g)[0], Width(0), spec);
      if forall i :: 0 <= i < GROUPS ==> |groups[i]| == Width(i) {
        RoundTripByGroup(g, spec);
      }
    } else {
      forall i | 0 <= i < GROUPS
        ensures |groups[i]| == Width(i)
        ensures IsNumeral(groups[i], 16) && ValueOf(groups[i], 16) == Fields(g)[i] <==>
          GroupKeeps(Fields(g)[i], Width(i), spec)
      {
        FieldsFit(g, i);
        GroupReads(Fields(g)[i], Width(i), spec);
      }
      RoundTripByGroup(g, spec);
    }
  }
}
