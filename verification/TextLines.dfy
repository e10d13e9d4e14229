/**
 Lines and words read back: text that was joined by line ends or white space comes apart again.
 */
module TextLines {
  import opened Core
  import opened Unicode
  import opened Utf
  import opened Sources
  import opened TextReading
  import opened Extraction

  // ------------------------------------------------------------ lines

  datatype LineEnd = Cr | Lf | CrLf

  function EndText(end: LineEnd): (bytes: seq<Byte>)
    ensures bytes != []
  {
    match end case Cr => [13] case Lf => [10] case CrLf => [13, 10]
  }

  /** Each text followed by its line end. */
  function JoinedLines(texts: seq<seq<Byte>>, ends: seq<LineEnd>): seq<Byte>
    requires |texts| == |ends|
  {
    if texts == [] then [] else texts[0] + EndText(ends[0]) + JoinedLines(texts[1..], ends[1..])
  }

  predicate IsPlain(text: seq<Byte>) { forall b :: b in text ==> b != 13 && b != 10 }

  predicate ArePlain(texts: seq<seq<Byte>>) { forall i :: 0 <= i < |texts| ==> IsPlain(texts[i]) }

  /** Valid text of one line that fits. */
  predicate IsLine(text: seq<Byte>, options: ReadTextOptions) {
    WellFormed(text) && |text| <= options.maximumSize && IsPlain(text)
  }

  predicate AreLines(texts: seq<seq<Byte>>, options: ReadTextOptions) {
    forall i :: 0 <= i < |texts| ==> IsLine(texts[i], options)
  }

  /** No CR stands in front of an LF that is a line end of its own. */
  predicate EndsApart(texts: seq<seq<Byte>>, ends: seq<LineEnd>)
    requires |texts| == |ends|
  {
    forall i {:trigger ends[i]} :: 0 <= i < |ends| - 1 && ends[i].Cr? && ends[i + 1].Lf? ==> texts[i + 1] != []
  }

  predicate StartsWithLf(bytes: seq<Byte>) { bytes != [] && bytes[0] == 10 }

  /** Clean text that fits has no fault. */
  lemma {:induction false} FitsIsNoFault(items: seq<Item>, size: nat, options: ReadTextOptions)
    requires Clean(items) && size + |EncodeUtf8(Replaced(items))| <= options.maximumSize
    ensures Fault(items, size, options) == None
    decreases |items|
  {
    hide Utf8Of;
    if items != [] {
      var rest := items[1..];
      assert Replaced(items)[1..] == Replaced(rest);
      assert EncodeUtf8(Replaced(items)) == Utf8Of(ReplaceItem(items[0])) + EncodeUtf8(Replaced(rest));
      FitsIsNoFault(rest, size + |Utf8Of(ReplaceItem(items[0]))|, options);
    }
  }

  lemma {:induction false} RunIs(text: seq<Byte>, rest: seq<Byte>, stop: Stop)
    requires (forall b :: b in text ==> !stop.At(b)) && (rest == [] || stop.At(rest[0]))
    ensures Run(text + rest, stop) == |text|
  {
    hide Stop.At;
    if text == [] {
      assert text + rest == rest;
    } else {
      assert (text + rest)[1..] == text[1..] + rest;
      RunIs(text[1..], rest, stop);
    }
  }

  /** Valid text in front of a stop is the piece in front. */
  lemma PieceIs(text: seq<Byte>, rest: seq<Byte>, stop: Stop, options: ReadTextOptions)
    requires WellFormed(text) && |text| <= options.maximumSize
    requires (forall b :: b in text ==> !stop.At(b)) && (rest == [] || stop.At(rest[0]))
    ensures PieceOf(text + rest, stop, options) == Ok(Piece(text, rest))
  {
    hide Stop.At, Run, Utf8Items, Fault, WellFormed;
    RunIs(text, rest, stop);
    assert (text + rest)[..|text|] == text && (text + rest)[|text|..] == rest;
    AcceptsExactlyTheGrammar(text);
    EncodeDecodeUtf8(text);
    FitsIsNoFault(Utf8Items(text), 0, options);
  }

  /** A line in front of its end. */
  lemma LineInFront(text: seq<Byte>, end: LineEnd, rest: seq<Byte>, options: ReadTextOptions, keepTerminator: bool)
    requires IsLine(text, options) && !(end.Cr? && StartsWithLf(rest))
    ensures LineOf(text + EndText(end) + rest, options, keepTerminator)
         == Ok(Piece(if keepTerminator then text + EndText(end) else text, rest))
  {
    hide PieceOf, WellFormed;
    var behind := EndText(end) + rest;
    assert text + EndText(end) + rest == text + behind;
    PieceIs(text, behind, AtLineEnd, options);
    assert TerminatorLength(behind) == |EndText(end)| by {
      assert end.CrLf? ==> behind[1] == 10;
      assert end.Cr? && rest != [] ==> behind[1] == rest[0];
    }
    assert behind[..|EndText(end)|] == EndText(end) && behind[|EndText(end)|..] == rest;
  }

  /** A last line without an end. */
  lemma LastLine(text: seq<Byte>, options: ReadTextOptions, keepTerminator: bool)
    requires IsLine(text, options)
    ensures LineOf(text, options, keepTerminator) == if text == [] then Err(EndOfFile) else Ok(Piece(text, []))
  {
    hide PieceOf, WellFormed;
    assert text + [] == text;
    PieceIs(text, [], AtLineEnd, options);
  }

  /** After a kept line that ends in CR no LF stands in front: CR LF is never torn apart. */
  lemma CrLfStaysTogether(remaining: seq<Byte>, options: ReadTextOptions)
    requires LineOf(remaining, options, true).Ok?
    ensures var line := LineOf(remaining, options, true).value;
            line.text != [] && line.text[|line.text| - 1] == 13 ==> !StartsWithLf(line.rest)
  {
    hide PieceOf;
    assert PieceOf(remaining, AtLineEnd, options).Ok?;
    var piece := PieceOf(remaining, AtLineEnd, options).value;
    PieceEnds(remaining, options);
    if TerminatorLength(piece.rest) == 2 {
      assert piece.rest[..2][1] == 10;
    }
  }

  lemma PieceEnds(bytes: seq<Byte>, options: ReadTextOptions)
    requires PieceOf(bytes, AtLineEnd, options).Ok?
    ensures var rest := PieceOf(bytes, AtLineEnd, options).value.rest; rest == [] || rest[0] == 13 || rest[0] == 10
  {
    hide Fault, Utf8Items;
  }

  /** What stands behind the first line and its end. */
  lemma FirstLine(texts: seq<seq<Byte>>, ends: seq<LineEnd>, last: seq<Byte>)
    requires |texts| == |ends| > 0 && ArePlain(texts) && IsPlain(last) && EndsApart(texts, ends)
    ensures var rest := JoinedLines(texts[1..], ends[1..]) + last;
            && JoinedLines(texts, ends) + last == texts[0] + EndText(ends[0]) + rest
            && !(ends[0].Cr? && StartsWithLf(rest))
    ensures ArePlain(texts[1..]) && EndsApart(texts[1..], ends[1..])
  {
    var more, rest := JoinedLines(texts[1..], ends[1..]), JoinedLines(texts[1..], ends[1..]) + last;
    assert texts[0] + EndText(ends[0]) + more + last == texts[0] + EndText(ends[0]) + rest;
    if ends[0].Cr? {
      if |texts| > 1 {
        var next := texts[1] + EndText(ends[1]);
        assert more == next + JoinedLines(texts[1..][1..], ends[1..][1..]);
        assert ends[0 + 1].Lf? ==> texts[0 + 1] != [];
        assert texts[1] != [] ==> next[0] == texts[1][0] && texts[1][0] in texts[1];
        assert next[0] != 10;
      } else {
        assert rest == last;
        assert last != [] ==> last[0] in last;
      }
    }
    assert forall i {:trigger ends[1..][i]} :: 0 <= i < |ends[1..]| - 1 ==>
      ends[1..][i] == ends[i + 1] && ends[1..][i + 1] == ends[i + 1 + 1] && texts[1..][i + 1] == texts[i + 1 + 1];
  }

  /**
   Main result for lines: whatever line ends join them, CR, LF or CR LF, the texts are what reading line by
   line returns, then the unterminated rest, then the end of the file.
   */
  method ReadJoined(texts: seq<seq<Byte>>, ends: seq<LineEnd>, last: seq<Byte>, capacity: nat, options: ReadTextOptions)
    returns (lines: seq<seq<Byte>>, final: Result<seq<Byte>>)
    requires |texts| == |ends| && AreLines(texts, options) && IsLine(last, options) && EndsApart(texts, ends)
    requires 0 < capacity
    ensures lines == texts && final == if last == [] then Err(EndOfFile) else Ok(last)
  {
    hide BufferedSource.Valid, TextReader.Valid, TextReader.Remaining, WellFormed, IsLine, AreLines, JoinedLines,
      EndsApart, LineOf, BufferedSource.Skew;
    var reader := OpenReader(JoinedLines(texts, ends) + last, capacity);
    lines := [];
    assert texts[0..] == texts && ends[0..] == ends;
    LinesArePlain(texts, last, options);
    for i := 0 to |texts|
      invariant AreLines(texts[i..], options) && ArePlain(texts[i..])
      invariant reader.Valid() && fresh(reader.Footprint()) && reader.source.source.reliable
      invariant lines == texts[..i]
      invariant EndsApart(texts[i..], ends[i..]) && reader.Remaining() == JoinedLines(texts[i..], ends[i..]) + last
    {
      FirstLine(texts[i..], ends[i..], last);
      LinesBehind(texts[i..], options);
      assert texts[i..][1..] == texts[i + 1..] && ends[i..][1..] == ends[i + 1..];
      var line := ReadOne(reader, texts[i], ends[i], JoinedLines(texts[i + 1..], ends[i + 1..]) + last, options);
      lines := lines + [line];
    }
    NothingJoined(last);
    LastLine(last, options, false);
    final := reader.ReadLine(options, false);
  }

  /** A reader at the start of a file that reads without fault. */
  method OpenReader(data: seq<Byte>, capacity: nat) returns (reader: TextReader)
    requires 0 < capacity
    ensures reader.Valid() && fresh(reader) && fresh(reader.Footprint()) && reader.source.source.reliable
    ensures reader.Remaining() == data
  {
    hide BufferedSource.Valid, BufferedSource.Remaining;
    var source := new Source(data, true, 0);
    var buffered := new BufferedSource(source, capacity);
    reader := new TextReader(buffered);
    assert source.data[0..] == data;
  }

  lemma NothingJoined(last: seq<Byte>)
    ensures JoinedLines([], []) + last == last
  {
  }

  lemma LinesArePlain(texts: seq<seq<Byte>>, last: seq<Byte>, options: ReadTextOptions)
    requires AreLines(texts, options) && IsLine(last, options)
    ensures ArePlain(texts) && IsPlain(last)
  {
    hide IsPlain;
  }

  lemma LinesBehind(texts: seq<seq<Byte>>, options: ReadTextOptions)
    requires texts != [] && AreLines(texts, options)
    ensures IsLine(texts[0], options) && AreLines(texts[1..], options)
  {
    hide IsLine;
  }

  method ReadOne(reader: TextReader, text: seq<Byte>, end: LineEnd, ghost rest: seq<Byte>, options: ReadTextOptions)
    returns (line: seq<Byte>)
    requires reader.Valid() && reader.source.source.reliable && reader.Remaining() == text + EndText(end) + rest
    requires IsLine(text, options) && !(end.Cr? && StartsWithLf(rest))
    modifies reader.source, reader.source.source, reader.source.buffer
    ensures reader.Valid() && line == text && reader.Remaining() == rest
  {
    hide BufferedSource.Valid, TextReader.Valid, TextReader.Remaining, WellFormed, LineOf, BufferedSource.Skew;
    LineInFront(text, end, rest, options, false);
    var r := reader.ReadLine(options, false);
    line := r.value;
  }

  // ------------------------------------------------------------ text that does not fit

  /** Valid text decodes as its own code points, whatever stands behind it. */
  lemma {:induction false} EncodedInFront(points: seq<CodePoint>, rest: seq<Byte>)
    ensures Utf8Items(EncodeUtf8(points) + rest) == Chars(points) + Utf8Items(rest)
  {
    hide Utf8Items, Utf8Of;
    if points == [] {
      assert EncodeUtf8(points) + rest == rest;
    } else {
      var c, more := points[0], points[1..];
      EncodedInFront(more, rest);
      Utf8ItemsOfCodePoint(c, EncodeUtf8(more) + rest);
      assert EncodeUtf8(points) + rest == Utf8Of(c) + (EncodeUtf8(more) + rest);
      assert Chars(points) == [Char(c)] + Chars(more);
    }
  }

  /** Text that is longer than allowed, or fills what is allowed with more to come, overflows. */
  lemma {:induction false} LongIsOverflow(points: seq<CodePoint>, more: seq<Item>, size: nat, options: ReadTextOptions)
    requires size <= options.maximumSize
    requires size + |EncodeUtf8(points)| > options.maximumSize
          || (size + |EncodeUtf8(points)| == options.maximumSize && more != [])
    ensures Fault(Chars(points) + more, size, options) == Some(Overflow)
    decreases |points|
  {
    hide Utf8Of;
    if points == [] {
      assert Chars(points) + more == more;
    } else {
      var items, rest := Chars(points) + more, points[1..];
      assert items[0] == Char(points[0]) && items[1..] == Chars(rest) + more;
      if size + |Utf8Of(points[0])| <= options.maximumSize {
        LongIsOverflow(rest, more, size + |Utf8Of(points[0])|, options);
      }
    }
  }

  /**
   Main result for text that does not fit: a valid text past the limit is refused, and a text that fills the
   limit is refused for its length whatever comes next, malformed bytes included.
   */
  lemma TooLong(text: seq<Byte>, more: seq<Byte>, rest: seq<Byte>, stop: Stop, options: ReadTextOptions)
    requires WellFormed(text) && (forall b :: b in text + more ==> !stop.At(b)) && (rest == [] || stop.At(rest[0]))
    requires |text| > options.maximumSize || (|text| == options.maximumSize && more != [])
    ensures PieceOf(text + more + rest, stop, options) == Err(Overflow)
  {
    hide Stop.At, Run, Utf8Items, Fault, WellFormed;
    RunIs(text + more, rest, stop);
    assert (text + more + rest)[..|text + more|] == text + more;
    AcceptsExactlyTheGrammar(text);
    EncodeDecodeUtf8(text);
    var points := Replaced(Utf8Items(text));
    EncodedInFront(points, more);
    SomethingDecodes(more);
    LongIsOverflow(points, Utf8Items(more), 0, options);
  }

  lemma SomethingDecodes(bytes: seq<Byte>)
    ensures bytes != [] ==> Utf8Items(bytes) != []
  {
  }

  // ------------------------------------------------------------ words

  /** The six bytes that separate words: tab, line feed, vertical tab, form feed, carriage return, blank. */
  predicate IsSeparator(b: Byte) { 9 <= b <= 13 || b == 32 }

  predicate IsSeparation(bytes: seq<Byte>) { forall i :: 0 <= i < |bytes| ==> IsSeparator(bytes[i]) }

  predicate IsWord(text: seq<Byte>, options: ReadTextOptions) {
    WellFormed(text) && 0 < |text| <= options.maximumSize && forall i :: 0 <= i < |text| ==> !IsSeparator(text[i])
  }

  lemma {:induction false} BlankIs(separation: seq<Byte>, rest: seq<Byte>)
    requires IsSeparation(separation) && (rest == [] || !IsSeparator(rest[0]))
    ensures Blank(separation + rest) == |separation|
  {
    if separation == [] {
      assert separation + rest == rest;
    } else {
      assert (separation + rest)[1..] == separation[1..] + rest;
      BlankIs(separation[1..], rest);
    }
  }

  /** Main result for words: white space is skipped, and the word behind it comes back whole. */
  lemma WordInFront(separation: seq<Byte>, word: seq<Byte>, rest: seq<Byte>, options: ReadTextOptions)
    requires IsSeparation(separation) && IsWord(word, options)
    requires rest == [] || IsSeparator(rest[0])
    ensures TokenOf(separation + word + rest, options) == Ok(Piece(word, rest))
  {
    hide PieceOf, WellFormed;
    var behind := word + rest;
    assert separation + word + rest == separation + behind && behind[0] == word[0];
    BlankIs(separation, behind);
    assert (separation + behind)[|separation|..] == behind;
    PieceIs(word, rest, AtWhitespace, options);
  }

  /** Nothing but white space is the end of the file. */
  lemma NoWordLeft(separation: seq<Byte>, options: ReadTextOptions)
    requires IsSeparation(separation)
    ensures TokenOf(separation, options) == Err(EndOfFile)
  {
    assert separation + [] == separation;
    BlankIs(separation, []);
  }

  /** A word is at most 65536 bytes long. */
  lemma WordLimit(word: seq<Byte>, rest: seq<Byte>)
    requires WellFormed(word) && word != [] && (forall i :: 0 <= i < |word| ==> !IsSeparator(word[i]))
    requires rest == [] || IsSeparator(rest[0])
    ensures TokenOf(word + rest, TOKEN_OPTIONS) == if |word| <= 65536 then Ok(Piece(word, rest)) else Err(Overflow)
  {
    hide PieceOf, WellFormed;
    BlankIs([], word + rest);
    assert [] + (word + rest) == word + rest && (word + rest)[0] == word[0] && (word + rest)[0..] == word + rest;
    if |word| <= 65536 {
      PieceIs(word, rest, AtWhitespace, TOKEN_OPTIONS);
    } else {
      assert word + [] == word;
      TooLong(word, [], rest, AtWhitespace, TOKEN_OPTIONS);
    }
  }

  // ------------------------------------------------------------ values

  /** Each word behind its separation, and the rest behind the last one. */
  function JoinedWords(separations: seq<seq<Byte>>, words: seq<seq<Byte>>, rest: seq<Byte>): seq<Byte>
    requires |separations| == |words|
  {
    if words == [] then rest else separations[0] + words[0] + JoinedWords(separations[1..], words[1..], rest)
  }

  predicate AreWords(separations: seq<seq<Byte>>, words: seq<seq<Byte>>, rest: seq<Byte>)
    requires |separations| == |words|
  {
    && (forall i :: 0 <= i < |words| ==> IsSeparation(separations[i]) && IsWord(words[i], TOKEN_OPTIONS))
    && (forall i :: 1 <= i < |words| ==> separations[i] != [])
    && (rest == [] || IsSeparator(rest[0]))
  }

  /** What parsing the words one by one comes to: all the values, or the first error. */
  function Parsed<V>(words: seq<seq<Byte>>, parsers: seq<Parser<V>>): Result<seq<V>>
    requires |words| == |parsers|
  {
    if words == [] then Ok([])
    else match parsers[0](words[0])
      case Err(code) => Err(code)
      case Ok(value) =>
        match Parsed(words[1..], parsers[1..])
        case Err(code) => Err(code)
        case Ok(values) => Ok([value] + values)
  }

  /** Main result for values: as many words as parsers are read, each by its parser, and the rest is left. */
  lemma {:induction false} ValuesInFront<V>(separations: seq<seq<Byte>>, words: seq<seq<Byte>>, rest: seq<Byte>,
                                            parsers: seq<Parser<V>>)
    requires |separations| == |words| == |parsers| && AreWords(separations, words, rest)
    ensures ScanAllOf(JoinedWords(separations, words, rest), parsers) ==
      match Parsed(words, parsers)
      case Err(code) => Err(code)
      case Ok(values) => Ok(Scanned(values, rest))
    decreases |words|
  {
    hide TokenOf, IsWord, IsSeparation;
    if words != [] {
      var behind := JoinedWords(separations[1..], words[1..], rest);
      WordsBehind(separations, words, rest);
      WordInFront(separations[0], words[0], behind, TOKEN_OPTIONS);
      ValuesInFront(separations[1..], words[1..], rest, parsers[1..]);
    }
  }

  lemma WordsBehind(separations: seq<seq<Byte>>, words: seq<seq<Byte>>, rest: seq<Byte>)
    requires |separations| == |words| > 0 && AreWords(separations, words, rest)
    ensures AreWords(separations[1..], words[1..], rest)
    ensures var behind := JoinedWords(separations[1..], words[1..], rest); behind == [] || IsSeparator(behind[0])
  {
    hide IsWord;
    if |words| > 1 {
      assert separations[1..][0] == separations[1];
    }
  }
}
