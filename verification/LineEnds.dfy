/**
 Newline translation told by lines: which line end each line has behind it before and after.
 */
module LineEnds {
  import opened Core
  import opened Sinks
  import opened TextLines

  /** A lone LF gets its CR; the other line ends stay as they are. */
  function WithCr(ends: seq<LineEnd>): (kept: seq<LineEnd>)
    ensures |kept| == |ends|
  {
    seq(|ends|, i requires 0 <= i < |ends| => if ends[i] == Lf then CrLf else ends[i])
  }

  /** Every line end is an LF. */
  function OnlyLf(n: nat): (ends: seq<LineEnd>)
    ensures |ends| == n
  {
    seq(n, _ => Lf)
  }

  // ------------------------------------------------------------ one line

  lemma {:induction false} PlainIsSent(policy: Newline, text: seq<Byte>)
    requires IsPlain(text)
    ensures Sent(policy, text, false) == text && !EndsWithCr(text)
  {
    if text != [] {
      assert forall b :: b in text[1..] ==> b in text;
      assert text[0] in text && text[|text| - 1] in text;
      PlainIsSent(policy, text[1..]);
    }
  }

  /** What line ends become on their own. */
  lemma EndSent(end: LineEnd)
    ensures Sent(CarriageReturnLineFeed, EndText(end), false) == if end.Lf? then [13, 10] else EndText(end)
    ensures Sent(LineFeed, EndText(end), false) == if end.Cr? then [] else [10]
    ensures EndsWithCr(EndText(end)) == end.Cr?
  {
    hide Sent;
    OneSent(13, false);
    OneSent(10, end.CrLf?);
    if end.CrLf? {
      assert EndText(end) == [13] + [10];
      SentConcat(CarriageReturnLineFeed, [13], [10], false);
      SentConcat(LineFeed, [13], [10], false);
    }
  }

  lemma OneSent(b: Byte, afterCr: bool)
    ensures Sent(CarriageReturnLineFeed, [b], afterCr) == CrLfStep(b, afterCr)
    ensures Sent(LineFeed, [b], afterCr) == LfStep(b, afterCr)
  {
    assert [b][1..] == [];
  }

  lemma FirstSent(policy: Newline, rest: seq<Byte>)
    requires rest != []
    ensures forall afterCr ::
      Sent(policy, rest, afterCr) == Step(policy, rest[0], afterCr) + Sent(policy, rest[1..], rest[0] == 13)
  {
    hide Step;
  }

  /** A CR in front matters only to an LF; the LF translation has it still to send. */
  lemma SentBehindCr(rest: seq<Byte>)
    requires !StartsWithLf(rest)
    ensures Sent(CarriageReturnLineFeed, rest, true) == Sent(CarriageReturnLineFeed, rest, false)
    ensures Sent(LineFeed, rest, true) == if rest == [] then [] else [10] + Sent(LineFeed, rest, false)
  {
    if rest == [] {
      NothingSent(CarriageReturnLineFeed);
      NothingSent(LineFeed);
    } else {
      FirstSent(CarriageReturnLineFeed, rest);
      FirstSent(LineFeed, rest);
      hide Sent;
      var more := Sent(LineFeed, rest[1..], rest[0] == 13);
      assert LfStep(rest[0], true) == [10] + LfStep(rest[0], false);
      assert [10] + LfStep(rest[0], false) + more == [10] + (LfStep(rest[0], false) + more);
    }
  }

  lemma CrLfOfEnd(end: LineEnd, rest: seq<Byte>)
    requires !(end.Cr? && StartsWithLf(rest))
    ensures ToCrLf(EndText(end) + rest, false) == (if end.Lf? then [13, 10] else EndText(end)) + ToCrLf(rest, false)
  {
    hide Sent, EndText;
    EndSent(end);
    SentConcat(CarriageReturnLineFeed, EndText(end), rest, false);
    if end.Cr? {
      SentBehindCr(rest);
    }
  }

  lemma CrLfOfLine(text: seq<Byte>, end: LineEnd, rest: seq<Byte>)
    requires IsPlain(text) && !(end.Cr? && StartsWithLf(rest))
    ensures ToCrLf(text + EndText(end) + rest, false)
         == text + (if end.Lf? then [13, 10] else EndText(end)) + ToCrLf(rest, false)
  {
    hide Sent, EndText;
    var behind := EndText(end) + rest;
    assert text + EndText(end) + rest == text + behind;
    PlainIsSent(CarriageReturnLineFeed, text);
    SentConcat(CarriageReturnLineFeed, text, behind, false);
    CrLfOfEnd(end, rest);
    var sent, more := if end.Lf? then [13, 10] else EndText(end), ToCrLf(rest, false);
    assert text + (sent + more) == text + sent + more;
  }

  lemma LfOfEnd(end: LineEnd, rest: seq<Byte>)
    requires !(end.Cr? && StartsWithLf(rest))
    ensures ToLf(EndText(end) + rest) == [10] + ToLf(rest)
  {
    hide Sent, EndText;
    EndSent(end);
    SentConcat(LineFeed, EndText(end), rest, false);
    var text, tail := EndText(end) + rest, if EndsWithCr(rest) then [10] else [];
    if rest == [] {
      assert text == EndText(end);
      assert Sent(LineFeed, rest, false) == [] by { NothingSent(LineFeed); }
    } else {
      assert EndsWithCr(text) == EndsWithCr(rest);
      if end.Cr? {
        SentBehindCr(rest);
      }
      assert [10] + Sent(LineFeed, rest, false) + tail == [10] + (Sent(LineFeed, rest, false) + tail);
    }
  }

  lemma NothingSent(policy: Newline)
    ensures forall afterCr :: Sent(policy, [], afterCr) == []
  {
  }

  lemma LfOfLine(text: seq<Byte>, end: LineEnd, rest: seq<Byte>)
    requires IsPlain(text) && !(end.Cr? && StartsWithLf(rest))
    ensures ToLf(text + EndText(end) + rest) == text + [10] + ToLf(rest)
  {
    hide Sent, EndText;
    var behind := EndText(end) + rest;
    assert text + EndText(end) + rest == text + behind;
    PlainIsSent(LineFeed, text);
    LfOfEnd(end, rest);
    SentConcat(LineFeed, text, behind, false);
    assert EndsWithCr(text + behind) == EndsWithCr(behind);
    var tail := if EndsWithCr(behind) then [10] else [];
    assert text + Sent(LineFeed, behind, false) + tail == text + ToLf(behind);
    assert text + ([10] + ToLf(rest)) == text + [10] + ToLf(rest);
  }

  // ------------------------------------------------------------ whole texts

  /** Main result for CR LF output: every lone LF becomes CR LF, and nothing else changes. */
  lemma {:induction false} CrLfOfLines(texts: seq<seq<Byte>>, ends: seq<LineEnd>, last: seq<Byte>)
    requires |texts| == |ends| && ArePlain(texts) && IsPlain(last) && EndsApart(texts, ends)
    ensures ToCrLf(JoinedLines(texts, ends) + last, false) == JoinedLines(texts, WithCr(ends)) + last
    decreases |texts|
  {
    hide ToCrLf;
    if texts == [] {
      PlainIsSent(CarriageReturnLineFeed, last);
      assert JoinedLines(texts, ends) + last == last == JoinedLines(texts, WithCr(ends)) + last;
      assert ToCrLf(last, false) == last by { PlainCrLf(last); }
    } else {
      FirstLine(texts, ends, last);
      CrLfOfLine(texts[0], ends[0], JoinedLines(texts[1..], ends[1..]) + last);
      CrLfOfLines(texts[1..], ends[1..], last);
      assert WithCr(ends)[1..] == WithCr(ends[1..]);
      var one, more := texts[0] + EndText(WithCr(ends)[0]), JoinedLines(texts[1..], WithCr(ends[1..]));
      assert one + more + last == one + (more + last);
    }
  }

  lemma PlainCrLf(text: seq<Byte>)
    requires IsPlain(text)
    ensures ToCrLf(text, false) == text
  {
    PlainIsSent(CarriageReturnLineFeed, text);
  }

  /** Main result for LF output: every line end becomes one LF, and nothing else changes. */
  lemma {:induction false} LfOfLines(texts: seq<seq<Byte>>, ends: seq<LineEnd>, last: seq<Byte>)
    requires |texts| == |ends| && ArePlain(texts) && IsPlain(last) && EndsApart(texts, ends)
    ensures ToLf(JoinedLines(texts, ends) + last) == JoinedLines(texts, OnlyLf(|texts|)) + last
    decreases |texts|
  {
    if texts == [] {
      PlainIsSent(LineFeed, last);
      assert JoinedLines(texts, ends) + last == last == JoinedLines(texts, OnlyLf(|texts|)) + last;
    } else {
      hide ToLf;
      FirstLine(texts, ends, last);
      LfOfLine(texts[0], ends[0], JoinedLines(texts[1..], ends[1..]) + last);
      LfOfLines(texts[1..], ends[1..], last);
      assert OnlyLf(|texts|)[1..] == OnlyLf(|texts| - 1);
      var one, more := texts[0] + EndText(Lf), JoinedLines(texts[1..], OnlyLf(|texts| - 1));
      assert one + more + last == one + (more + last);
    }
  }

  /** Every text is such lines and an unterminated rest, so the two results are about all texts. */
  lemma {:induction false} EveryTextIsLines(bytes: seq<Byte>)
    returns (texts: seq<seq<Byte>>, ends: seq<LineEnd>, last: seq<Byte>)
    ensures |texts| == |ends| && ArePlain(texts) && IsPlain(last) && EndsApart(texts, ends)
    ensures bytes == JoinedLines(texts, ends) + last
    decreases |bytes|
  {
    if IsPlain(bytes) {
      texts, ends, last := [], [], bytes;
    } else {
      var n := FirstEnd(bytes);
      var end := if bytes[n] == 10 then Lf else if n + 1 < |bytes| && bytes[n + 1] == 10 then CrLf else Cr;
      var rest := bytes[n + |EndText(end)|..];
      assert bytes == bytes[..n] + EndText(end) + rest;
      var texts', ends' := [], [];
      texts', ends', last := EveryTextIsLines(rest);
      texts, ends := [bytes[..n]] + texts', [end] + ends';
      assert texts[1..] == texts' && ends[1..] == ends';
      var one, more := bytes[..n] + EndText(end), JoinedLines(texts', ends');
      assert one + more + last == one + (more + last);
      assert end.Cr? && texts' != [] && ends'[0].Lf? ==> texts'[0] != [] by {
        assert end.Cr? ==> !StartsWithLf(rest);
      }
    }
  }

  /** Where the first line ends. */
  lemma {:induction false} FirstEnd(bytes: seq<Byte>) returns (n: nat)
    requires !IsPlain(bytes)
    ensures n < |bytes| && IsPlain(bytes[..n]) && (bytes[n] == 13 || bytes[n] == 10)
    decreases |bytes|
  {
    if bytes[0] == 13 || bytes[0] == 10 {
      n := 0;
    } else {
      assert bytes == [bytes[0]] + bytes[1..];
      var m := FirstEnd(bytes[1..]);
      n := m + 1;
      assert bytes[..n] == [bytes[0]] + bytes[1..][..m];
    }
  }
}
