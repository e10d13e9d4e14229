/**
 The line editor.  The source edits a byte string with a byte cursor; the specification is an editor
 over a sequence of code points with a cursor counted in code points, one `Press` per key.
 */
module LineEditor {
  import opened Core
  import opened Unicode
  import opened Utf
  import opened StringStorage
  import Keys = Terminal

  type Completion = Option<seq<Byte> -> Result<seq<Byte>>>
  datatype LineEditorOptions = LineEditorOptions(maximumBytes: nat, allowMultiline: bool, addToHistory: bool)

  // ------------------------------------------------------------ the specification

  datatype Editor = Editor(text: seq<CodePoint>, cursor: nat, historyIndex: nat)
  datatype Outcome = Editing(editor: Editor) | Submitted | Failed(code: ErrorCode)

  function Decode(bytes: seq<Byte>): seq<CodePoint> { Replaced(Utf8Items(bytes)) }

  function Texts(lines: seq<seq<Byte>>): (texts: seq<seq<CodePoint>>)
    ensures |texts| == |lines|
  {
    seq(|lines|, i requires 0 <= i < |lines| => Decode(lines[i]))
  }

  function Bytes(text: seq<CodePoint>): nat { |EncodeUtf8(text)| }

  function Put(e: Editor, c: CodePoint): Editor
    requires e.cursor <= |e.text|
  {
    e.(text := Inserted(e.text, e.cursor, [c]), cursor := e.cursor + 1)
  }

  function Recall(e: Editor, text: seq<CodePoint>, index: nat): Editor {
    e.(text := text, cursor := |text|, historyIndex := index)
  }

  predicate InRange(e: Editor, history: seq<seq<CodePoint>>) {
    e.cursor <= |e.text| && e.historyIndex <= |history|
  }

  function PressCharacter(e: Editor, key: Keys.KeyEvent, completion: Completion, options: LineEditorOptions): Outcome
    requires e.cursor <= |e.text| && IsValidCodePoint(key.character)
  {
    var c := key.character;
    if c == 13 || c == 10 then
      if !(options.allowMultiline && key.shift) then Submitted
      else if Bytes(e.text) == options.maximumBytes then Failed(Overflow)
      else Editing(Put(e, 10))
    else if c == 8 then
      Editing(if e.cursor == 0 then e
              else e.(text := Erased(e.text, e.cursor - 1, 1), cursor := e.cursor - 1))
    else if c == 9 && completion.Some? then
      match completion.value(EncodeUtf8(e.text))
      case Err(code) => Failed(code)
      case Ok(line) =>
        if |line| > options.maximumBytes then Failed(Overflow)
        else Editing(Recall(e, Decode(line), e.historyIndex))
    else if c >= 32 || (options.allowMultiline && c == 9) then
      if Bytes(e.text) + |Utf8Of(c)| > options.maximumBytes then Failed(Overflow)
      else Editing(Put(e, c))
    else Editing(e)
  }

  function Press(e: Editor, key: Keys.KeyEvent, history: seq<seq<CodePoint>>, completion: Completion,
                 options: LineEditorOptions): (outcome: Outcome)
    requires InRange(e, history) && IsValidCodePoint(key.character)
    ensures outcome.Editing? ==> InRange(outcome.editor, history)
  {
    var n, last := |e.text|, |history|;
    if key.code.Escape? then Failed(Cancelled)
    else if key.code.Left? then Editing(e.(cursor := if e.cursor == 0 then 0 else e.cursor - 1))
    else if key.code.Right? then Editing(e.(cursor := if e.cursor == n then n else e.cursor + 1))
    else if key.code.Home? then Editing(e.(cursor := 0))
    else if key.code.End? then Editing(e.(cursor := n))
    else if key.code.Delete? then Editing(if e.cursor == n then e else e.(text := Erased(e.text, e.cursor, 1)))
    else if key.code.Up? && last != 0 then
      var index := if e.historyIndex == 0 then 0 else e.historyIndex - 1;
      Editing(Recall(e, history[index], index))
    else if key.code.Down? && last != 0 then
      Editing(if e.historyIndex + 1 < last then Recall(e, history[e.historyIndex + 1], e.historyIndex + 1)
              else Recall(e, [], last))
    else if key.HasCharacter() then PressCharacter(e, key, completion, options)
    else Editing(e)
  }

  /** A whole session: the submitted text, or the error that ended it (`stop` when the keys run out). */
  function Session(e: Editor, keys: seq<Keys.KeyEvent>, history: seq<seq<CodePoint>>, completion: Completion,
                   options: LineEditorOptions, stop: ErrorCode): Result<seq<CodePoint>>
    requires InRange(e, history) && forall i :: 0 <= i < |keys| ==> IsValidCodePoint(keys[i].character)
    decreases |keys|
  {
    if keys == [] then Err(stop)
    else match Press(e, keys[0], history, completion, options)
      case Editing(next) => Session(next, keys[1..], history, completion, options, stop)
      case Submitted => Ok(e.text)
      case Failed(code) => Err(code)
  }

  // ------------------------------------------------------------ bytes against code points

  /** The byte offset of a code point. */
  function Offset(text: seq<CodePoint>, k: nat): nat
    requires k <= |text|
  {
    Bytes(text[..k])
  }

  /** The byte-level line shows the editor's text, with its cursor on the boundary in front of the same code point. */
  ghost predicate Shows(line: seq<Byte>, cursor: nat, e: Editor) {
    e.cursor <= |e.text| && line == EncodeUtf8(e.text) && cursor == Offset(e.text, e.cursor)
  }

  lemma SplitAt(text: seq<CodePoint>, k: nat)
    requires k <= |text|
    ensures EncodeUtf8(text) == EncodeUtf8(text[..k]) + EncodeUtf8(text[k..])
    ensures EncodeUtf8(text)[..Offset(text, k)] == EncodeUtf8(text[..k])
    ensures EncodeUtf8(text)[Offset(text, k)..] == EncodeUtf8(text[k..])
  {
    hide EncodeUtf8;
    EncodeUtf8Append(text[..k], text[k..]);
    assert text == text[..k] + text[k..];
  }

  lemma OffsetStep(text: seq<CodePoint>, k: nat)
    requires k < |text|
    ensures Offset(text, k + 1) == Offset(text, k) + |Utf8Of(text[k])| <= Bytes(text)
    ensures EncodeUtf8(text)[Offset(text, k)..Offset(text, k + 1)] == Utf8Of(text[k])
  {
    SplitAt(text, k);
    SplitAt(text, k + 1);
    SplitAt(text[..k + 1], k);
    assert text[..k + 1][..k] == text[..k] && text[..k + 1][k..] == [text[k]];
    assert EncodeUtf8([text[k]]) == Utf8Of(text[k]) + EncodeUtf8([]);
  }

  lemma OffsetEnds(text: seq<CodePoint>)
    ensures Offset(text, 0) == 0 && Offset(text, |text|) == Bytes(text)
  {
    assert text[..|text|] == text;
  }

  /** Offsets are boundaries: a lead byte or the end stands there, and only continuation bytes up to the next one. */
  lemma OffsetIsBoundary(text: seq<CodePoint>, k: nat)
    requires k <= |text|
    ensures Offset(text, k) <= Bytes(text)
    ensures k < |text| ==> Offset(text, k) < Offset(text, k + 1) <= Bytes(text)
    ensures k < |text| ==> !IsContinuation(EncodeUtf8(text)[Offset(text, k)])
    ensures k < |text| ==>
      forall i :: Offset(text, k) < i < Offset(text, k + 1) ==> IsContinuation(EncodeUtf8(text)[i])
    ensures k == |text| ==> Offset(text, k) == Bytes(text)
  {
    hide Utf8Of;
    if k < |text| {
      OffsetStep(text, k);
      Utf8OfAssembles(text[k]);
      var bytes, start, one := EncodeUtf8(text), Offset(text, k), Utf8Of(text[k]);
      assert bytes[start..Offset(text, k + 1)][0] == one[0];
      forall i | start < i < Offset(text, k + 1) ensures IsContinuation(bytes[i]) {
        assert bytes[start..Offset(text, k + 1)][i - start] == one[i - start];
      }
    } else {
      OffsetEnds(text);
    }
  }

  lemma EncodeAround(a: seq<CodePoint>, c: CodePoint, b: seq<CodePoint>)
    ensures EncodeUtf8(a + [c]) == EncodeUtf8(a) + Utf8Of(c)
    ensures EncodeUtf8(a + [c] + b) == EncodeUtf8(a) + Utf8Of(c) + EncodeUtf8(b)
  {
    hide Utf8Of;
    EncodeUtf8Append(a + [c], b);
    EncodeUtf8Append(a, [c]);
    assert EncodeUtf8([c]) == Utf8Of(c) + EncodeUtf8([]);
  }

  lemma InsertedEncodes(text: seq<CodePoint>, k: nat, c: CodePoint)
    requires k <= |text|
    ensures Offset(text, k) <= Bytes(text)
    ensures EncodeUtf8(Inserted(text, k, [c])) == Inserted(EncodeUtf8(text), Offset(text, k), Utf8Of(c))
    ensures Offset(Inserted(text, k, [c]), k + 1) == Offset(text, k) + |Utf8Of(c)|
  {
    hide Utf8Of, EncodeUtf8;
    SplitAt(text, k);
    EncodeAround(text[..k], c, text[k..]);
    assert Inserted(text, k, [c])[..k + 1] == text[..k] + [c];
  }

  lemma ErasedEncodes(text: seq<CodePoint>, k: nat)
    requires k < |text|
    ensures Offset(text, k) <= Offset(text, k + 1) <= Bytes(text)
    ensures EncodeUtf8(Erased(text, k, 1))
         == Erased(EncodeUtf8(text), Offset(text, k), Offset(text, k + 1) - Offset(text, k))
    ensures Offset(Erased(text, k, 1), k) == Offset(text, k)
  {
    var after := Erased(text, k, 1);
    OffsetIsBoundary(text, k);
    SplitAt(text, k);
    SplitAt(text, k + 1);
    SplitAt(after, k);
    assert after[..k] == text[..k] && after[k..] == text[k + 1..];
  }

  lemma WellFormedIsEncoded(bytes: seq<Byte>)
    requires WellFormed(bytes)
    ensures EncodeUtf8(Decode(bytes)) == bytes
  {
    AcceptsExactlyTheGrammar(bytes);
    EncodeDecodeUtf8(bytes);
  }

  lemma EncodedIsWellFormed(text: seq<CodePoint>)
    ensures WellFormed(EncodeUtf8(text)) && Decode(EncodeUtf8(text)) == text
  {
    DecodeEncodeUtf8(text);
    AcceptsExactlyTheGrammar(EncodeUtf8(text));
    assert Replaced(Chars(text)) == text;
  }

  // ------------------------------------------------------------ the program

  /** Where moving left from `position` must stop: the first byte before it that is not a continuation byte, or 0. */
  predicate IsPreviousBoundary(text: seq<Byte>, position: nat, p: nat) {
    && p <= position <= |text|
    && (position == 0 || p < position)
    && (forall i :: p < i < position ==> IsContinuation(text[i]))
    && (p == 0 || !IsContinuation(text[p]))
  }

  method PreviousBoundary(text: seq<Byte>, position: nat) returns (p: nat)
    requires position <= |text|
    ensures IsPreviousBoundary(text, position, p)
  {
    if position == 0 {
      return 0;
    }
    p := position - 1;
    while p != 0 && IsContinuation(text[p])
      invariant p < position
      invariant forall i :: p < i < position ==> IsContinuation(text[i])
    {
      p := p - 1;
    }
  }

  /** Where moving right from `position` must stop: the first byte after it that continues nothing, or the end. */
  predicate IsNextBoundary(text: seq<Byte>, position: nat, p: nat) {
    && p <= |text|
    && (position >= |text| ==> p == |text|)
    && (position < |text| ==> position < p)
    && (forall i :: position < i < p ==> IsContinuation(text[i]))
    && (p == |text| || !IsContinuation(text[p]))
  }

  method NextBoundary(text: seq<Byte>, position: nat) returns (p: nat)
    ensures IsNextBoundary(text, position, p)
  {
    if position >= |text| {
      return |text|;
    }
    p := position + 1;
    while p < |text| && IsContinuation(text[p])
      invariant position < p <= |text|
      invariant forall i :: position < i < p ==> IsContinuation(text[i])
    {
      p := p + 1;
    }
  }

  /** From a code point's offset the boundary functions reach exactly the neighbouring code points. */
  lemma PreviousOffset(text: seq<CodePoint>, k: nat, p: nat)
    requires k <= |text|
    ensures IsPreviousBoundary(EncodeUtf8(text), Offset(text, k), p)
       <==> p == (if k == 0 then 0 else Offset(text, k - 1))
  {
    hide Offset, EncodeUtf8, IsContinuation;
    OffsetIsBoundary(text, k);
    if k == 0 {
      OffsetEnds(text);
    } else {
      OffsetIsBoundary(text, k - 1);
    }
  }

  lemma NextOffset(text: seq<CodePoint>, k: nat, p: nat)
    requires k <= |text|
    ensures IsNextBoundary(EncodeUtf8(text), Offset(text, k), p)
       <==> p == (if k == |text| then Bytes(text) else Offset(text, k + 1))
  {
    hide Offset, EncodeUtf8, IsContinuation;
    OffsetIsBoundary(text, k);
    if k < |text| {
      OffsetIsBoundary(text, k + 1);
    }
  }

  datatype KeyResult = Continue | Submit | Fail(code: ErrorCode)

  /** The state after a key is the one the specification names. */
  ghost predicate Follows(line: seq<Byte>, cursor: nat, historyIndex: nat, result: KeyResult, before: Editor,
                          outcome: Outcome)
  {
    match outcome
    case Editing(after) => result.Continue? && historyIndex == after.historyIndex && Shows(line, cursor, after)
    case Submitted => result.Submit? && line == EncodeUtf8(before.text)
    case Failed(code) => result == Fail(code)
  }

  ghost predicate UsableCompletion(completion: Completion) {
    completion.Some? ==>
      forall line :: WellFormed(line) && completion.value(line).Ok? ==> WellFormed(completion.value(line).value)
  }

  /** Deletes the code point after the cursor. */
  method EraseForward(line: BasicString, cursor: nat, ghost e: Editor)
    requires line.Valid() && Shows(line.Text(), cursor, e)
    modifies line
    ensures line.Valid()
    ensures Shows(line.Text(), cursor,
                  if e.cursor == |e.text| then e else e.(text := Erased(e.text, e.cursor, 1)))
  {
    hide EncodeUtf8, Utf8Of, Offset;
    var end := NextBoundary(line.Text(), cursor);
    NextOffset(e.text, e.cursor, end);
    OffsetEnds(e.text);
    if end > cursor {
      ErasedEncodes(e.text, e.cursor);
      var _ := line.Erase(cursor, end - cursor);
    } else if e.cursor < |e.text| {
      OffsetIsBoundary(e.text, e.cursor);
    }
  }

  /** Deletes the code point before the cursor. */
  method EraseBackward(line: BasicString, cursor: nat, ghost e: Editor) returns (cursor': nat)
    requires line.Valid() && Shows(line.Text(), cursor, e)
    modifies line
    ensures line.Valid()
    ensures Shows(line.Text(), cursor',
                  if e.cursor == 0 then e
                  else e.(text := Erased(e.text, e.cursor - 1, 1), cursor := e.cursor - 1))
  {
    hide EncodeUtf8, Utf8Of, Offset;
    OffsetIsBoundary(e.text, e.cursor);
    OffsetEnds(e.text);
    var begin := PreviousBoundary(line.Text(), cursor);
    PreviousOffset(e.text, e.cursor, begin);
    cursor' := cursor;
    if begin < cursor {
      ErasedEncodes(e.text, e.cursor - 1);
      var _ := line.Erase(begin, cursor - begin);
      cursor' := begin;
    } else if e.cursor > 0 {
      OffsetIsBoundary(e.text, e.cursor - 1);
    }
  }

  /** Puts one code point in front of the cursor. */
  method InsertCodePoint(line: BasicString, cursor: nat, c: CodePoint, ghost e: Editor) returns (cursor': nat)
    requires line.Valid() && Shows(line.Text(), cursor, e)
    modifies line
    ensures line.Valid()
    ensures Shows(line.Text(), cursor', Put(e, c))
  {
    hide EncodeUtf8, Utf8Of, Offset;
    var encoded := new Byte[4](_ => 0);
    var count := EncodeUtf8Into(c, encoded);
    InsertedEncodes(e.text, e.cursor, c);
    var _ := line.Insert(cursor, encoded[..count.value]);
    cursor' := cursor + count.value;
  }

  /** Replaces the line and puts the cursor at its end. */
  method ReplaceLine(line: BasicString, content: seq<Byte>, ghost e: Editor, ghost index: nat) returns (cursor: nat)
    requires line.Valid() && WellFormed(content)
    modifies line
    ensures line.Valid()
    ensures Shows(line.Text(), cursor, Recall(e, Decode(content), index))
  {
    WellFormedIsEncoded(content);
    OffsetEnds(Decode(content));
    line.Assign(content);
    cursor := line.size;
  }

  class LineEditor {
    var history: seq<seq<Byte>>
    var completion: Completion
    /** The lines the `OnLine` event has announced. */
    var onLine: seq<seq<Byte>>

    ghost predicate Valid()
      reads this
    {
      && (forall i :: 0 <= i < |history| ==> WellFormed(history[i]))
      && UsableCompletion(completion)
    }

    constructor (completion: Completion)
      requires UsableCompletion(completion)
      ensures Valid() && history == [] && onLine == []
    {
      history, this.completion, onLine := [], completion, [];
    }

    method HandleCharacter(line: BasicString, cursor: nat, historyIndex: nat, key: Keys.KeyEvent,
                           options: LineEditorOptions, ghost e: Editor)
      returns (result: KeyResult, cursor': nat)
      requires Valid() && line.Valid() && Shows(line.Text(), cursor, e) && e.historyIndex == historyIndex
      requires IsValidCodePoint(key.character)
      modifies line
      ensures line.Valid()
      ensures Follows(line.Text(), cursor', historyIndex, result, e, PressCharacter(e, key, completion, options))
    {
      hide EncodeUtf8, Utf8Of, Offset, WellFormed;
      result, cursor' := Continue, cursor;
      var character := key.character;
      if character == 13 || character == 10 {
        if options.allowMultiline && key.shift {
          if line.size == options.maximumBytes {
            return Fail(Overflow), cursor;
          }
          cursor' := InsertCodePoint(line, cursor, 10, e);
        } else {
          return Submit, cursor;
        }
      } else if character == 8 {
        cursor' := EraseBackward(line, cursor, e);
      } else if character == 9 && completion.Some? {
        var completed := completion.value(line.Text());
        if completed.Err? {
          return Fail(completed.code), cursor;
        }
        if |completed.value| > options.maximumBytes {
          return Fail(Overflow), cursor;
        }
        EncodedIsWellFormed(e.text);
        cursor' := ReplaceLine(line, completed.value, e, e.historyIndex);
      } else if character >= 32 || (options.allowMultiline && character == 9) {
        var encoded := new Byte[4](_ => 0);
        var count := EncodeUtf8Into(character, encoded);
        if line.size > options.maximumBytes || count.value > options.maximumBytes - line.size {
          return Fail(Overflow), cursor;
        }
        cursor' := InsertCodePoint(line, cursor, character, e);
      }
    }

    /** The body of the key loop. */
    method HandleKey(line: BasicString, cursor: nat, historyIndex: nat, key: Keys.KeyEvent,
                     options: LineEditorOptions, ghost e: Editor)
      returns (result: KeyResult, cursor': nat, historyIndex': nat)
      requires Valid() && line.Valid() && Shows(line.Text(), cursor, e)
      requires e.historyIndex == historyIndex <= |history|
      requires IsValidCodePoint(key.character)
      modifies line
      ensures line.Valid()
      ensures Follows(line.Text(), cursor', historyIndex', result, e,
                      Press(e, key, Texts(history), completion, options))
    {
      hide EncodeUtf8, Utf8Of, Offset, PressCharacter, WellFormed;
      OffsetEnds(e.text);
      result, cursor', historyIndex' := Continue, cursor, historyIndex;
      if key.code.Escape? {
        return Fail(Cancelled), cursor, historyIndex;
      }
      if key.code.Left? {
        OffsetIsBoundary(e.text, e.cursor);
        cursor' := PreviousBoundary(line.Text(), cursor);
        PreviousOffset(e.text, e.cursor, cursor');
      } else if key.code.Right? {
        cursor' := NextBoundary(line.Text(), cursor);
        NextOffset(e.text, e.cursor, cursor');
      } else if key.code.Home? {
        cursor' := 0;
      } else if key.code.End? {
        cursor' := line.size;
      } else if key.code.Delete? {
        EraseForward(line, cursor, e);
      } else if key.code.Up? && history != [] {
        if historyIndex != 0 {
          historyIndex' := historyIndex - 1;
        }
        cursor' := ReplaceLine(line, history[historyIndex'], e, historyIndex');
      } else if key.code.Down? && history != [] {
        if historyIndex + 1 < |history| {
          historyIndex' := historyIndex + 1;
          cursor' := ReplaceLine(line, history[historyIndex'], e, historyIndex');
        } else {
          historyIndex' := |history|;
          line.Clear();
          cursor' := line.size;
          EmptyLine();
        }
      } else if key.HasCharacter() {
        result, cursor' := HandleCharacter(line, cursor, historyIndex, key, options, e);
      }
    }

    /**
     Main result: for every sequence of keys carrying valid code points, and with well-formed history
     and completions, reading a line has exactly the outcome of the code-point editor's session; what
     is submitted is the encoding of that editor's text, so it is always well-formed.  `stop` is what
     waiting for a key fails with once the keys run out.
     */
    method ReadLine(keys: seq<Keys.KeyEvent>, options: LineEditorOptions, stop: ErrorCode)
      returns (r: Result<seq<Byte>>, ghost session: Result<seq<CodePoint>>)
      requires Valid() && forall i :: 0 <= i < |keys| ==> IsValidCodePoint(keys[i].character)
      modifies this`history, this`onLine
      ensures Valid()
      ensures session == Session(Editor([], 0, |old(history)|), keys, Texts(old(history)), completion, options, stop)
      ensures r == if session.Ok? then Ok(EncodeUtf8(session.value)) else Err(session.code)
      ensures r.Ok? ==> WellFormed(r.value)
      ensures onLine == if r.Ok? then old(onLine) + [r.value] else old(onLine)
      ensures history == old(history) + if r.Ok? && options.addToHistory && r.value != [] then [r.value] else []
    {
      hide EncodeUtf8, Utf8Of, Offset, Press, WellFormed;
      var line := new BasicString();
      var cursor: nat, historyIndex: nat := 0, |history|;
      ghost var e := Editor([], 0, |history|);
      session := Session(e, keys, Texts(history), completion, options, stop);
      EmptyLine();
      for i := 0 to |keys|
        invariant line.Valid() && fresh(line) && Shows(line.Text(), cursor, e)
        invariant e.historyIndex == historyIndex <= |history| && history == old(history) && onLine == old(onLine)
        invariant session == Session(e, keys[i..], Texts(history), completion, options, stop)
      {
        ghost var outcome := Press(e, keys[i], Texts(history), completion, options);
        var result, cursor', historyIndex' := HandleKey(line, cursor, historyIndex, keys[i], options, e);
        assert keys[i..][1..] == keys[i + 1..];
        match result
        case Fail(code) => return Err(code), session;
        case Submit =>
          EncodedIsWellFormed(e.text);
          var text := line.Text();
          if options.addToHistory && text != [] {
            history := history + [text];
          }
          onLine := onLine + [text];
          return Ok(text), session;
        case Continue =>
          cursor, historyIndex := cursor', historyIndex';
          e := outcome.editor;
      }
      return Err(stop), session;
    }
  }

  lemma EmptyLine()
    ensures EncodeUtf8([]) == [] && forall index: nat :: Shows([], 0, Editor([], 0, index))
  {
  }

  // ------------------------------------------------------------ the byte limit

  predicate RecallsHistory(key: Keys.KeyEvent, history: seq<seq<CodePoint>>) {
    (key.code.Up? || key.code.Down?) && history != []
  }

  predicate IsNewline(key: Keys.KeyEvent) { key.character == 13 || key.character == 10 }

  /** Erasing a code point removes its bytes. */
  lemma ErasedIsShorter(text: seq<CodePoint>, k: nat)
    requires k < |text|
    ensures Bytes(Erased(text, k, 1)) < Bytes(text)
  {
    OffsetIsBoundary(text, k);
    ErasedEncodes(text, k);
  }

  lemma PutIsLonger(e: Editor, c: CodePoint)
    requires e.cursor <= |e.text|
    ensures Bytes(Put(e, c).text) == Bytes(e.text) + |Utf8Of(c)|
  {
    InsertedEncodes(e.text, e.cursor, c);
  }

  /**
     The line never grows past the limit, except in one case: the source compares the size for
     equality when a newline is typed, so a recalled line that is already over the limit still takes it.
     */
  lemma GrowthRespectsLimit(e: Editor, key: Keys.KeyEvent, history: seq<seq<CodePoint>>, completion: Completion,
                            options: LineEditorOptions)
    requires InRange(e, history) && IsValidCodePoint(key.character)
    requires Press(e, key, history, completion, options).Editing? && !RecallsHistory(key, history)
    requires Bytes(Press(e, key, history, completion, options).editor.text) > Bytes(e.text)
    requires completion.Some? && completion.value(EncodeUtf8(e.text)).Ok? ==>
               WellFormed(completion.value(EncodeUtf8(e.text)).value)
    ensures Bytes(Press(e, key, history, completion, options).editor.text) <= options.maximumBytes
       <==> !(IsNewline(key) && Bytes(e.text) > options.maximumBytes)
  {
    hide Utf8Of, EncodeUtf8, Inserted, Erased, WellFormed;
    if e.cursor < |e.text| {
      ErasedIsShorter(e.text, e.cursor);
    }
    if e.cursor > 0 {
      ErasedIsShorter(e.text, e.cursor - 1);
    }
    PutIsLonger(e, key.character);
    PutIsLonger(e, 10);
    assert |Utf8Of(10)| == 1 by { assert Utf8Of(10) == [10] by { NewlineBytes(); } }
    if completion.Some? && completion.value(EncodeUtf8(e.text)).Ok? {
      WellFormedIsEncoded(completion.value(EncodeUtf8(e.text)).value);
    }
  }

  lemma NewlineBytes()
    ensures Utf8Of(10) == [10]
  {
  }

  /** Two letters recalled under a limit of one: the newline still goes in. */
  lemma OverlongLineTakesNewline()
    ensures var e := Editor([65, 65], 2, 0);
            var options := LineEditorOptions(1, true, true);
            var outcome := Press(e, Keys.KeyEvent(Keys.KeyCode.None, 13, true), [e.text], None, options);
            Bytes(e.text) > 1 && outcome == Editing(Put(e, 10)) && Bytes(outcome.editor.text) > Bytes(e.text)
  {
    var e := Editor([65, 65], 2, 0);
    PutIsLonger(e, 10);
    assert Bytes(e.text) == 2 by {
      assert e.text[1..] == [65] && Utf8Of(65) == [65];
    }
  }

  predicate WithinLimit(history: seq<seq<CodePoint>>, limit: nat) {
    forall i :: 0 <= i < |history| ==> Bytes(history[i]) <= limit
  }

  /** One key keeps the line within the limit when every history line is. */
  lemma PressWithinLimit(e: Editor, key: Keys.KeyEvent, history: seq<seq<CodePoint>>, completion: Completion,
                         options: LineEditorOptions)
    requires InRange(e, history) && IsValidCodePoint(key.character) && UsableCompletion(completion)
    requires WithinLimit(history, options.maximumBytes) && Bytes(e.text) <= options.maximumBytes
    requires Press(e, key, history, completion, options).Editing?
    ensures Bytes(Press(e, key, history, completion, options).editor.text) <= options.maximumBytes
  {
    hide PressCharacter, EncodeUtf8, Erased;
    if RecallsHistory(key, history) {
      assert EncodeUtf8([]) == [] by { EmptyLine(); }
    } else if Bytes(Press(e, key, history, completion, options).editor.text) > Bytes(e.text) {
      EncodedIsWellFormed(e.text);
      GrowthRespectsLimit(e, key, history, completion, options);
    }
  }

  lemma {:induction false} SessionWithinLimit(e: Editor, keys: seq<Keys.KeyEvent>, history: seq<seq<CodePoint>>,
                                              completion: Completion, options: LineEditorOptions, stop: ErrorCode)
    requires InRange(e, history) && forall i :: 0 <= i < |keys| ==> IsValidCodePoint(keys[i].character)
    requires UsableCompletion(completion) && WithinLimit(history, options.maximumBytes)
    requires Bytes(e.text) <= options.maximumBytes
    ensures var r := Session(e, keys, history, completion, options, stop);
            r.Ok? ==> Bytes(r.value) <= options.maximumBytes
    decreases |keys|
  {
    hide Press, EncodeUtf8, Bytes, UsableCompletion;
    if keys != [] {
      var outcome := Press(e, keys[0], history, completion, options);
      if outcome.Editing? {
        PressWithinLimit(e, keys[0], history, completion, options);
        SessionWithinLimit(outcome.editor, keys[1..], history, completion, options, stop);
      }
    }
  }

  const ENTER := Keys.KeyEvent(Keys.KeyCode.None, 13, false)
  const UP := Keys.KeyEvent(Keys.Up, 0, false)

  /** Up `times` times, then Enter. */
  function RecallKeys(times: nat): (keys: seq<Keys.KeyEvent>)
    ensures forall i :: 0 <= i < |keys| ==> IsValidCodePoint(keys[i].character)
  {
    if times == 0 then [ENTER] else [UP] + RecallKeys(times - 1)
  }

  lemma {:induction false} RecallSubmits(e: Editor, times: nat, history: seq<seq<CodePoint>>, completion: Completion,
                                         options: LineEditorOptions, stop: ErrorCode)
    requires InRange(e, history) && times <= e.historyIndex
    requires times == 0 ==> e.historyIndex < |history| && e.text == history[e.historyIndex]
    ensures Session(e, RecallKeys(times), history, completion, options, stop) == Ok(history[e.historyIndex - times])
    decreases times
  {
    hide Session, Press;
    var keys := RecallKeys(times);
    SessionStep(e, keys, history, completion, options, stop);
    UpOrEnter(e, history, completion, options);
    if times > 0 {
      var next := Recall(e, history[e.historyIndex - 1], e.historyIndex - 1);
      assert keys[1..] == RecallKeys(times - 1);
      RecallSubmits(next, times - 1, history, completion, options, stop);
    }
  }

  lemma UpOrEnter(e: Editor, history: seq<seq<CodePoint>>, completion: Completion, options: LineEditorOptions)
    requires InRange(e, history)
    ensures Press(e, ENTER, history, completion, options) == Submitted
    ensures e.historyIndex > 0 ==>
      Press(e, UP, history, completion, options) == Editing(Recall(e, history[e.historyIndex - 1], e.historyIndex - 1))
  {
  }

  /** A session takes its keys one by one. */
  lemma SessionStep(e: Editor, keys: seq<Keys.KeyEvent>, history: seq<seq<CodePoint>>, completion: Completion,
                    options: LineEditorOptions, stop: ErrorCode)
    requires InRange(e, history) && keys != []
    requires forall i :: 0 <= i < |keys| ==> IsValidCodePoint(keys[i].character)
    ensures var pressed, r := Press(e, keys[0], history, completion, options),
                              Session(e, keys, history, completion, options, stop);
            && (pressed.Editing? ==> r == Session(pressed.editor, keys[1..], history, completion, options, stop))
            && (pressed.Submitted? ==> r == Ok(e.text))
            && (pressed.Failed? ==> r == Err(pressed.code))
  {
    hide Press;
  }

  ghost predicate AlwaysWithinLimit(history: seq<seq<CodePoint>>, completion: Completion, options: LineEditorOptions) {
    forall keys: seq<Keys.KeyEvent> ::
      (forall i :: 0 <= i < |keys| ==> IsValidCodePoint(keys[i].character)) ==>
        SubmitsWithinLimit(keys, history, completion, options)
  }

  predicate SubmitsWithinLimit(keys: seq<Keys.KeyEvent>, history: seq<seq<CodePoint>>, completion: Completion,
                               options: LineEditorOptions)
    requires forall i :: 0 <= i < |keys| ==> IsValidCodePoint(keys[i].character)
  {
    var r := Session(Editor([], 0, |history|), keys, history, completion, options, Closed);
    r.Ok? ==> Bytes(r.value) <= options.maximumBytes
  }

  /** Every submitted line respects the limit exactly when every line already in the history does. */
  lemma LimitHoldsIffHistoryRespectsIt(history: seq<seq<CodePoint>>, completion: Completion, options: LineEditorOptions)
    requires UsableCompletion(completion)
    ensures AlwaysWithinLimit(history, completion, options) <==> WithinLimit(history, options.maximumBytes)
  {
    hide Session, Bytes, UsableCompletion;
    var start := Editor([], 0, |history|);
    if WithinLimit(history, options.maximumBytes) {
      assert Bytes([]) == 0 by { BytesOfNothing(); }
      forall keys: seq<Keys.KeyEvent> | forall i :: 0 <= i < |keys| ==> IsValidCodePoint(keys[i].character)
        ensures SubmitsWithinLimit(keys, history, completion, options)
      {
        SessionWithinLimit(start, keys, history, completion, options, Closed);
      }
    }
    if AlwaysWithinLimit(history, completion, options) {
      forall i | 0 <= i < |history| ensures Bytes(history[i]) <= options.maximumBytes {
        RecallSubmits(start, |history| - i, history, completion, options, Closed);
        assert SubmitsWithinLimit(RecallKeys(|history| - i), history, completion, options);
      }
    }
  }

  lemma BytesOfNothing()
    ensures Bytes([]) == 0
  {
  }
}
