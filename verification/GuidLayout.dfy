/**
 The form of GUID text character by character (RFC 9562 section 4): which hexadecimal digit of which field
 stands where.
 */
module GuidLayout {
  import opened Core
  import opened Digits
  import opened FormatSpecs
  import opened Integers
  import opened GuidText

  const HEX := "0123456789abcdef"

  /** The hexadecimal digit of `value` with the weight 16^place. */
  function HexDigit(value: nat, place: nat): char {
    PowerPositive(16, place);
    HEX[value / Power(16, place) % 16]
  }

  /** The character at index `k` of the text of a GUID. */
  function CharAt(g: Guid, k: nat): char
    requires g.Valid() && k < 36
  {
    if k == 8 || k == 13 || k == 18 || k == 23 then '-'
    else if k < 8 then HexDigit(g.data1, 7 - k)
    else if k < 13 then HexDigit(g.data2, 12 - k)
    else if k < 18 then HexDigit(g.data3, 17 - k)
    else if k < 23 then HexDigit(g.data4[(k - 19) / 2], 1 - (k - 19) % 2)
    else HexDigit(g.data4[2 + (k - 24) / 2], 1 - (k - 24) % 2)
  }

  function Canonical(g: Guid): (text: string)
    requires g.Valid()
    ensures |text| == 36
  {
    seq(36, k requires 0 <= k < 36 => CharAt(g, k))
  }

  /** Capital hexadecimal letters as small ones. */
  function Small(c: char): char { if 'A' <= c <= 'F' then 'a' + (c - 'A') else c }

  function Great(c: char): char { if 'a' <= c <= 'f' then 'A' + (c - 'a') else c }

  function Lowered(text: string): (lowered: string)
    ensures |lowered| == |text|
  {
    seq(|text|, k requires 0 <= k < |text| => Small(text[k]))
  }

  function Raised(text: string): (raised: string)
    ensures |raised| == |text|
  {
    seq(|text|, k requires 0 <= k < |text| => Great(text[k]))
  }

  // ------------------------------------------------------------ one group

  lemma CharIsDigit(c: char, d: nat)
    requires d < 16
    ensures DigitValue(c) == d <==> Small(c) == HEX[d]
  {
    assert HEX[d] == Digit(d, false);
  }

  lemma DivDiv(a: nat, b: nat, c: nat)
    requires b > 0 && c > 0
    ensures b * c > 0 && a / b / c == a / (b * c)
  {
    var q, r := a / b, a % b;
    var p, s := q / c, q % c;
    assert a == q * b + r && q == p * c + s;
    assert a == p * (b * c) + (s * b + r) by { assert p * c * b == p * (b * c); }
    MulMono(b, s + 1, c);
    assert 0 <= s * b + r < b * c by { assert b * (s + 1) == s * b + b; }
    QuotientIs(a, b * c, p, s * b + r);
  }

  lemma QuotientIs(a: nat, m: nat, q: nat, r: nat)
    requires a == q * m + r && r < m
    ensures a / m == q
  {
    var p := a / m;
    assert p * m <= a < p * m + m;
    if p < q {
      MulMono(m, p + 1, q);
    } else if q < p {
      MulMono(m, q + 1, p);
    }
  }

  lemma NextPlace(value: nat, place: nat)
    ensures HexDigit(value, place + 1) == HexDigit(value / 16, place)
  {
    PowerPositive(16, place);
    DivDiv(value, 16, Power(16, place));
  }

  lemma LastPlace(value: nat)
    ensures HexDigit(value, 0) == HEX[value % 16]
  {
  }

  predicate Shows(group: string, value: nat) {
    forall j {:trigger group[j]} :: 0 <= j < |group| ==> Small(group[j]) == HexDigit(value, |group| - 1 - j)
  }

  /** Text of a group reads as a value exactly when it shows the digits of the value. */
  lemma {:induction false} GroupShows(group: string, value: nat)
    requires value < Power(16, |group|)
    ensures IsNumeral(group, 16) && ValueOf(group, 16) == value <==> Shows(group, value)
    decreases |group|
  {
    hide DigitValue, HexDigit, Small;
    if group != [] {
      var front, last := group[..|group| - 1], group[|group| - 1];
      var d := DigitValue(last);
      QuotientFits(value, |front|);
      GroupShows(front, value / 16);
      CharIsDigit(last, value % 16);
      LastPlace(value);
      forall place: nat ensures HexDigit(value, place + 1) == HexDigit(value / 16, place) {
        NextPlace(value, place);
      }
      ShowsFront(group, value);
      assert IsNumeral(group, 16) <==> IsNumeral(front, 16) && d < 16;
    }
  }

  lemma QuotientFits(value: nat, n: nat)
    requires value < Power(16, n + 1)
    ensures value / 16 < Power(16, n)
  {
  }

  lemma ShowsFront(group: string, value: nat)
    requires group != []
    requires forall place: nat :: HexDigit(value, place + 1) == HexDigit(value / 16, place)
    ensures Shows(group, value) <==>
      Shows(group[..|group| - 1], value / 16) && Small(group[|group| - 1]) == HexDigit(value, 0)
  {
    hide HexDigit, Small;
    var front := group[..|group| - 1];
    assert forall j :: 0 <= j < |front| ==> front[j] == group[j];
    if Shows(front, value / 16) && Small(group[|group| - 1]) == HexDigit(value, 0) {
      forall j | 0 <= j < |group| ensures Small(group[j]) == HexDigit(value, |group| - 1 - j) {
        if j < |front| {
          var place: nat := |front| - 1 - j;
          assert Small(front[j]) == HexDigit(value / 16, place) == HexDigit(value, place + 1);
        }
      }
    }
    if Shows(group, value) {
      forall j | 0 <= j < |front| ensures Small(front[j]) == HexDigit(value / 16, |front| - 1 - j) {
        var place: nat := |front| - 1 - j;
        assert Small(group[j]) == HexDigit(value, place + 1);
      }
    }
  }

  // ------------------------------------------------------------ whole GUIDs

  /** The character at `k` is the one it should be, in either case. */
  predicate Matches(g: Guid, text: string, k: nat)
    requires g.Valid() && |text| == 36 && k < 36
  {
    Small(text[k]) == CharAt(g, k)
  }

  /** Which field shows where. */
  lemma FieldPlaces(g: Guid, i: nat, j: nat)
    requires g.Valid() && i < GROUPS && j < Width(i)
    ensures Start(i) + j < 36 && CharAt(g, Start(i) + j) == HexDigit(Fields(g)[i], Width(i) - 1 - j)
  {
    hide HexDigit, Start;
    GroupFits(i);
    if i >= 3 {
      BytePlaces(g, i, j);
    }
  }

  lemma BytePlaces(g: Guid, i: nat, j: nat)
    requires g.Valid() && 3 <= i < GROUPS && j < 2
    ensures var k := (if i < 5 then 19 + 2 * (i - 3) else 24 + 2 * (i - 5)) + j;
            k < 36 && CharAt(g, k) == HexDigit(g.data4[i - 3], 1 - j)
  {
    hide HexDigit;
    var pair: nat := if i < 5 then i - 3 else i - 5;
    assert (2 * pair + j) / 2 == pair && (2 * pair + j) % 2 == j;
  }

  /** A group shows its field exactly when its characters match. */
  lemma GroupMatches(g: Guid, text: string, i: nat)
    requires g.Valid() && |text| == 36 && i < GROUPS
    ensures Start(i) + Width(i) <= 36
    ensures Shows(GroupAt(text, i), Fields(g)[i]) <==>
      forall k :: Start(i) <= k < Start(i) + Width(i) ==> Matches(g, text, k)
  {
    hide HexDigit, Small, CharAt, Start, Width;
    GroupFits(i);
    var group, value := GroupAt(text, i), Fields(g)[i];
    forall j: nat | j < |group|
      ensures group[j] == text[Start(i) + j] && CharAt(g, Start(i) + j) == HexDigit(value, |group| - 1 - j)
    {
      FieldPlaces(g, i, j);
    }
    if forall k :: Start(i) <= k < Start(i) + Width(i) ==> Matches(g, text, k) {
      forall j: nat | j < |group| ensures Small(group[j]) == HexDigit(value, |group| - 1 - j) {
        assert Matches(g, text, Start(i) + j);
      }
    }
    if Shows(group, value) {
      forall k | Start(i) <= k < Start(i) + Width(i) ensures Matches(g, text, k) {
        assert group[k - Start(i)] == text[k];
      }
    }
  }

  /** Every index that is no hyphen belongs to a group. */
  lemma GroupOf(k: nat) returns (i: nat)
    requires k < 36 && k != 8 && k != 13 && k != 18 && k != 23
    ensures i < GROUPS && Start(i) <= k < Start(i) + Width(i)
  {
    i := if k < 8 then 0 else if k < 13 then 1 else if k < 18 then 2 else if k < 23 then 3 + (k - 19) / 2
         else 5 + (k - 24) / 2;
    GroupFits(i);
  }

  lemma HyphenMatches(g: Guid, text: string)
    requires g.Valid() && |text| == 36
    ensures HasHyphens(text) <==>
      Matches(g, text, 8) && Matches(g, text, 13) && Matches(g, text, 18) && Matches(g, text, 23)
  {
  }

  /** The text parses as the GUID exactly when all its characters match. */
  lemma AllMatch(g: Guid, text: string)
    requires g.Valid() && |text| == 36
    ensures IsGuidText(text) && GuidOf(text) == g <==> forall k: nat :: k < 36 ==> Matches(g, text, k)
  {
    hide Matches, GroupAt, Start, Width, ValueOf, IsNumeral, HasHyphens, Shows;
    HyphenMatches(g, text);
    forall i: nat | i < GROUPS
      ensures GoodGroup(text, i) && FieldAt(text, i) == Fields(g)[i] <==> Shows(GroupAt(text, i), Fields(g)[i])
      ensures Start(i) + Width(i) <= 36
      ensures Shows(GroupAt(text, i), Fields(g)[i]) <==>
        forall k :: Start(i) <= k < Start(i) + Width(i) ==> Matches(g, text, k)
    {
      FieldsFit(g, i);
      GroupFits(i);
      GroupLength(text, i);
      GroupShows(GroupAt(text, i), Fields(g)[i]);
      GroupMatches(g, text, i);
    }
    FieldsAre(g, text);
    if forall i: nat :: i < GROUPS ==> Shows(GroupAt(text, i), Fields(g)[i]) {
      forall k: nat | k < 36 && k != 8 && k != 13 && k != 18 && k != 23 ensures Matches(g, text, k) {
        var i := GroupOf(k);
        assert Shows(GroupAt(text, i), Fields(g)[i]);
      }
    }
  }

  lemma GroupLength(text: string, i: nat)
    requires |text| == 36 && i < GROUPS
    ensures |GroupAt(text, i)| == Width(i)
  {
    GroupFits(i);
  }

  lemma FieldsAre(g: Guid, text: string)
    requires g.Valid() && |text| == 36
    ensures GuidOf(text) == g <==> forall i: nat :: i < GROUPS ==> FieldAt(text, i) == Fields(g)[i]
  {
    hide FieldAt;
    if forall i: nat :: i < GROUPS ==> FieldAt(text, i) == Fields(g)[i] {
      forall i | 0 <= i < 8 ensures GuidOf(text).data4[i] == g.data4[i] {
        assert FieldAt(text, 3 + i) == Fields(g)[3 + i];
      }
    }
    if GuidOf(text) == g {
      forall i: nat | i < GROUPS ensures FieldAt(text, i) == Fields(g)[i] {
        assert i >= 3 ==> GuidOf(text).data4[i - 3] == FieldAt(text, i);
      }
    }
  }

  /** Main result for parsing: a text is a GUID's exactly when it is its canonical text, in capitals or not. */
  lemma ReadsCanonical(g: Guid, text: string)
    requires g.Valid()
    ensures |text| == 36 && IsGuidText(text) && GuidOf(text) == g <==> Lowered(text) == Canonical(g)
  {
    hide IsGuidText, GuidOf, CharAt, Small;
    if |text| == 36 {
      AllMatch(g, text);
      if forall k: nat :: k < 36 ==> Matches(g, text, k) {
        forall k | 0 <= k < 36 ensures Lowered(text)[k] == Canonical(g)[k] {
          assert Matches(g, text, k);
        }
        assert Lowered(text) == Canonical(g);
      }
      if Lowered(text) == Canonical(g) {
        forall k: nat | k < 36 ensures Matches(g, text, k) {
          assert Lowered(text)[k] == Canonical(g)[k];
        }
      }
    }
  }

  // ------------------------------------------------------------ what the formatter writes

  predicate HasNone(text: string, low: char, high: char) {
    forall c :: c in text ==> !(low <= c <= high)
  }

  lemma {:induction false} NumeralCase(value: nat, uppercase: bool)
    ensures HasNone(Numeral(value, 16, uppercase), if uppercase then 'a' else 'A', if uppercase then 'f' else 'F')
    decreases value
  {
    if value >= 16 {
      NumeralCase(Quotient(value, 16), uppercase);
    }
  }

  lemma GroupCase(value: nat, width: nat, spec: FormatSpec)
    requires spec.align.Default? && !spec.alternate && spec.signMode.NegativeOnly?
    ensures HasNone(GroupText(value, width, spec), if spec.uppercase then 'a' else 'A',
                    if spec.uppercase then 'f' else 'F')
  {
    hide Numeral;
    PartIsHexadecimal(spec, width);
    NumeralCase(value, spec.uppercase);
  }

  lemma {:induction false} JoinedCase(groups: seq<string>, i: nat, low: char, high: char)
    requires i <= |groups| && 'A' <= low && forall j :: 0 <= j < |groups| ==> HasNone(groups[j], low, high)
    ensures HasNone(Joined(groups, i), low, high)
    decreases |groups| - i
  {
    if i < |groups| {
      JoinedCase(groups, i + 1, low, high);
    }
  }

  lemma LoweredBack(text: string)
    ensures HasNone(text, 'A', 'F') ==> text == Lowered(text)
    ensures HasNone(text, 'a', 'f') ==> text == Raised(Lowered(text))
  {
    assert forall k :: 0 <= k < |text| ==> text[k] in text;
  }

  /** Main result for formatting: without prefix, sign or alignment the text is the canonical one. */
  lemma WritesCanonical(g: Guid, spec: FormatSpec)
    requires g.Valid() && spec.align.Default? && !spec.alternate && spec.signMode.NegativeOnly?
    ensures GuidText.TextOf(g, spec) == if spec.uppercase then Raised(Canonical(g)) else Canonical(g)
  {
    hide IsGuidText, GuidOf, Canonical, Lowered, Raised, GroupText, Joined, Fields;
    GuidRoundTrip(g, spec);
    var text := GuidText.TextOf(g, spec);
    ReadsCanonical(g, text);
    LoweredBack(text);
    forall i | 0 <= i < GROUPS
      ensures HasNone(GroupTexts(g, spec)[i], if spec.uppercase then 'a' else 'A', if spec.uppercase then 'f' else 'F')
    {
      GroupCase(Fields(g)[i], Width(i), spec);
    }
    JoinedCase(GroupTexts(g, spec), 0, if spec.uppercase then 'a' else 'A', if spec.uppercase then 'f' else 'F');
  }
}
