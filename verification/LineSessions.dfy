/**
 What whole editing sessions submit: typing, moving, deleting and recalling, as the text that comes out
 when Enter is pressed.
 */
module LineSessions {
  import opened Core
  import opened Unicode
  import opened Utf
  import opened LineEditor
  import opened StringStorage
  import Keys = Terminal

  /** What a session is held against: everything but the keys. */
  datatype Desk =
    Desk(history: seq<seq<CodePoint>>, completion: Completion, options: LineEditorOptions, stop: ErrorCode)

  const LEFT := Keys.KeyEvent(Keys.Left, 0, false)
  const RIGHT := Keys.KeyEvent(Keys.Right, 0, false)
  const HOME := Keys.KeyEvent(Keys.Home, 0, false)
  const END := Keys.KeyEvent(Keys.End, 0, false)
  const DELETE := Keys.KeyEvent(Keys.KeyCode.Delete, 0, false)
  const DOWN := Keys.KeyEvent(Keys.Down, 0, false)
  const ESCAPE := Keys.KeyEvent(Keys.Escape, 0, false)
  const BACKSPACE := Keys.KeyEvent(Keys.KeyCode.None, 8, false)
  const SHIFT_ENTER := Keys.KeyEvent(Keys.KeyCode.None, 13, true)
  const TAB := Keys.KeyEvent(Keys.KeyCode.None, 9, false)

  type Strokes = keys: seq<Keys.KeyEvent> | forall i :: 0 <= i < |keys| ==> IsValidCodePoint(keys[i].character)

  /** The keys that type a text. */
  function Typed(text: seq<CodePoint>): (keys: Strokes)
    ensures |keys| == |text|
  {
    seq(|text|, i requires 0 <= i < |text| => Keys.KeyEvent(Keys.KeyCode.None, text[i], false))
  }

  predicate Printable(text: seq<CodePoint>) { forall i :: 0 <= i < |text| ==> text[i] >= 32 }

  /** One key, `n` times. */
  function Times(key: Keys.KeyEvent, n: nat): (keys: Strokes)
    requires IsValidCodePoint(key.character)
    ensures |keys| == n
  {
    seq(n, _ => key)
  }

  /** What a new line becomes under these keys. */
  function Submits(d: Desk, keys: Strokes): Result<seq<CodePoint>> { From(d, Editor([], 0, |d.history|), keys) }

  /** The rest of a session. */
  function From(d: Desk, e: Editor, keys: Strokes): Result<seq<CodePoint>>
    requires InRange(e, d.history)
  {
    Session(e, keys, d.history, d.completion, d.options, d.stop)
  }

  // ------------------------------------------------------------ one key, and one key again and again

  /** What a key leaves to do. */
  lemma Step(d: Desk, e: Editor, key: Keys.KeyEvent, rest: Strokes)
    requires InRange(e, d.history) && IsValidCodePoint(key.character)
    ensures var pressed, r := Press(e, key, d.history, d.completion, d.options), From(d, e, [key] + rest);
            && (pressed.Editing? ==> r == From(d, pressed.editor, rest))
            && (pressed.Submitted? ==> r == Ok(e.text))
            && (pressed.Failed? ==> r == Err(pressed.code))
  {
    hide Press;
    assert ([key] + rest)[1..] == rest;
  }

  lemma FirstOfTimes(key: Keys.KeyEvent, n: nat, rest: Strokes)
    requires n > 0 && IsValidCodePoint(key.character)
    ensures Times(key, n) + rest == [key] + (Times(key, n - 1) + rest)
  {
  }

  lemma NoTimes(key: Keys.KeyEvent, rest: Strokes)
    requires IsValidCodePoint(key.character)
    ensures Times(key, 0) + rest == rest
  {
  }

  /** The text in front of and behind the cursor. */
  function At(before: seq<CodePoint>, behind: seq<CodePoint>, index: nat): Editor {
    Editor(before + behind, |before|, index)
  }

  lemma AtInRange(d: Desk, before: seq<CodePoint>, behind: seq<CodePoint>, index: nat)
    requires index <= |d.history|
    ensures InRange(At(before, behind, index), d.history)
  {
  }

  lemma {:induction false} TypeMany(d: Desk, before: seq<CodePoint>, behind: seq<CodePoint>, index: nat,
                                    text: seq<CodePoint>, rest: Strokes)
    requires Printable(text) && index <= |d.history|
    requires Bytes(before + behind) + Bytes(text) <= d.options.maximumBytes
    ensures From(d, At(before, behind, index), Typed(text) + rest) == From(d, At(before + text, behind, index), rest)
    decreases |text|
  {
    hide Session, EncodeUtf8, Utf8Of, Press;
    if text == [] {
      assert Typed(text) + rest == rest && before + [] == before;
    } else {
      var c, more := text[0], text[1..];
      BytesSplit([c], more);
      BytesOne(c);
      assert [c] + more == text;
      TypeOne(d, before, behind, index, c);
      var key := Keys.KeyEvent(Keys.KeyCode.None, c, false);
      assert Typed(text) + rest == [key] + (Typed(more) + rest);
      Step(d, At(before, behind, index), key, Typed(more) + rest);
      TypeMany(d, before + [c], behind, index, more, rest);
      assert before + [c] + more == before + text;
    }
  }

  lemma BytesSplit(a: seq<CodePoint>, b: seq<CodePoint>)
    ensures Bytes(a + b) == Bytes(a) + Bytes(b)
  {
    EncodeUtf8Append(a, b);
  }

  lemma BytesOne(c: CodePoint)
    ensures Bytes([c]) == |Utf8Of(c)|
  {
    assert EncodeUtf8([c]) == Utf8Of(c) + EncodeUtf8([]);
  }

  lemma TypeOne(d: Desk, before: seq<CodePoint>, behind: seq<CodePoint>, index: nat, c: CodePoint)
    requires c >= 32 && index <= |d.history| && Bytes(before + behind) + |Utf8Of(c)| <= d.options.maximumBytes
    ensures Press(At(before, behind, index), Keys.KeyEvent(Keys.KeyCode.None, c, false), d.history, d.completion,
                  d.options)
         == Editing(At(before + [c], behind, index))
    ensures Bytes(before + [c] + behind) == Bytes(before + behind) + |Utf8Of(c)|
  {
    hide EncodeUtf8, Utf8Of;
    var e := At(before, behind, index);
    PutIsLonger(e, c);
    assert Put(e, c).text == before + [c] + behind;
  }

  lemma PressLeft(d: Desk, before: seq<CodePoint>, behind: seq<CodePoint>, index: nat)
    requires index <= |d.history|
    ensures Press(At(before, behind, index), LEFT, d.history, d.completion, d.options)
         == Editing(if before == [] then At(before, behind, index)
                    else At(before[..|before| - 1], before[|before| - 1..] + behind, index))
  {
    if before != [] {
      var front, last := before[..|before| - 1], before[|before| - 1..];
      assert before == front + last && front + (last + behind) == before + behind;
    }
  }

  lemma {:induction false} LeftMany(d: Desk, before: seq<CodePoint>, behind: seq<CodePoint>, index: nat, n: nat,
                                    rest: Strokes)
    requires index <= |d.history|
    ensures var k := |before| - Min(n, |before|);
            From(d, At(before, behind, index), Times(LEFT, n) + rest)
              == From(d, At(before[..k], before[k..] + behind, index), rest)
    decreases n
  {
    hide Session, Press, From, Times, At;
    var k := |before| - Min(n, |before|);
    if n == 0 {
      NoTimes(LEFT, rest);
      assert before[..k] == before && before[k..] + behind == behind;
    } else {
      FirstOfTimes(LEFT, n, rest);
      PressLeft(d, before, behind, index);
      AtInRange(d, before, behind, index);
      Step(d, At(before, behind, index), LEFT, Times(LEFT, n - 1) + rest);
      if before == [] {
        LeftMany(d, before, behind, index, n - 1, rest);
      } else {
        var front, last := before[..|before| - 1], before[|before| - 1..];
        LeftMany(d, front, last + behind, index, n - 1, rest);
        assert front[..k] == before[..k] && front[k..] + (last + behind) == before[k..] + behind;
      }
    }
  }

  lemma PressRight(d: Desk, before: seq<CodePoint>, behind: seq<CodePoint>, index: nat)
    requires index <= |d.history|
    ensures Press(At(before, behind, index), RIGHT, d.history, d.completion, d.options)
         == Editing(if behind == [] then At(before, behind, index) else At(before + behind[..1], behind[1..], index))
  {
    if behind != [] {
      assert behind == behind[..1] + behind[1..] && before + behind[..1] + behind[1..] == before + behind;
    }
  }

  lemma {:induction false} RightMany(d: Desk, before: seq<CodePoint>, behind: seq<CodePoint>, index: nat, n: nat,
                                     rest: Strokes)
    requires index <= |d.history|
    ensures var k := Min(n, |behind|);
            From(d, At(before, behind, index), Times(RIGHT, n) + rest)
              == From(d, At(before + behind[..k], behind[k..], index), rest)
    decreases n
  {
    hide Session, Press, From, Times, At;
    var k := Min(n, |behind|);
    AtInRange(d, before + behind[..k], behind[k..], index);
    if n == 0 {
      NoTimes(RIGHT, rest);
      assert before + behind[..k] == before && behind[k..] == behind;
    } else {
      FirstOfTimes(RIGHT, n, rest);
      PressRight(d, before, behind, index);
      AtInRange(d, before, behind, index);
      Step(d, At(before, behind, index), RIGHT, Times(RIGHT, n - 1) + rest);
      if behind == [] {
        RightMany(d, before, behind, index, n - 1, rest);
      } else {
        var one, more := behind[..1], behind[1..];
        RightMany(d, before + one, more, index, n - 1, rest);
        assert before + one + more[..k - 1] == before + behind[..k] && more[k - 1..] == behind[k..];
      }
    }
  }

  lemma {:induction false} BackspaceMany(d: Desk, before: seq<CodePoint>, behind: seq<CodePoint>, index: nat, n: nat,
                                         rest: Strokes)
    requires index <= |d.history|
    ensures From(d, At(before, behind, index), Times(BACKSPACE, n) + rest)
         == From(d, At(before[..|before| - Min(n, |before|)], behind, index), rest)
    decreases n
  {
    hide Session;
    if n == 0 {
      NoTimes(BACKSPACE, rest);
      assert before[..|before|] == before;
    } else {
      FirstOfTimes(BACKSPACE, n, rest);
      var e := At(before, behind, index);
      Step(d, e, BACKSPACE, Times(BACKSPACE, n - 1) + rest);
      if before == [] {
        BackspaceMany(d, before, behind, index, n - 1, rest);
      } else {
        var front := before[..|before| - 1];
        assert Erased(e.text, e.cursor - 1, 1) == front + behind;
        BackspaceMany(d, front, behind, index, n - 1, rest);
        assert front[..|before| - Min(n, |before|)] == before[..|before| - Min(n, |before|)];
      }
    }
  }

  lemma {:induction false} DeleteMany(d: Desk, before: seq<CodePoint>, behind: seq<CodePoint>, index: nat, n: nat,
                                      rest: Strokes)
    requires index <= |d.history|
    ensures From(d, At(before, behind, index), Times(DELETE, n) + rest)
         == From(d, At(before, behind[Min(n, |behind|)..], index), rest)
    decreases n
  {
    hide Session;
    if n == 0 {
      NoTimes(DELETE, rest);
      assert behind[0..] == behind;
    } else {
      FirstOfTimes(DELETE, n, rest);
      var e := At(before, behind, index);
      Step(d, e, DELETE, Times(DELETE, n - 1) + rest);
      if behind == [] {
        DeleteMany(d, before, behind, index, n - 1, rest);
      } else {
        assert Erased(e.text, e.cursor, 1) == before + behind[1..];
        DeleteMany(d, before, behind[1..], index, n - 1, rest);
        assert behind[1..][Min(n, |behind|) - 1..] == behind[Min(n, |behind|)..];
      }
    }
  }

  lemma HomeOnce(d: Desk, before: seq<CodePoint>, behind: seq<CodePoint>, index: nat, rest: Strokes)
    requires index <= |d.history|
    ensures From(d, At(before, behind, index), [HOME] + rest) == From(d, At([], before + behind, index), rest)
  {
    hide Session;
    Step(d, At(before, behind, index), HOME, rest);
    assert [] + (before + behind) == before + behind;
  }

  lemma EndOnce(d: Desk, before: seq<CodePoint>, behind: seq<CodePoint>, index: nat, rest: Strokes)
    requires index <= |d.history|
    ensures From(d, At(before, behind, index), [END] + rest) == From(d, At(before + behind, [], index), rest)
  {
    hide Session;
    Step(d, At(before, behind, index), END, rest);
    assert before + behind + [] == before + behind;
  }

  lemma EnterSubmits(d: Desk, before: seq<CodePoint>, behind: seq<CodePoint>, index: nat)
    requires index <= |d.history|
    ensures From(d, At(before, behind, index), [ENTER]) == Ok(before + behind)
  {
    hide Session;
    assert [ENTER] == [ENTER] + [];
    Step(d, At(before, behind, index), ENTER, []);
  }

  /** Typing into a new line, whatever comes behind. */
  lemma TypeFirst(d: Desk, text: seq<CodePoint>, rest: Strokes)
    requires Printable(text) && Bytes(text) <= d.options.maximumBytes
    ensures Submits(d, Typed(text) + rest) == From(d, At(text, [], |d.history|), rest)
  {
    hide Session;
    var nothing: seq<CodePoint> := [];
    assert nothing + text == text && nothing + nothing == nothing;
    BytesOfNothing();
    TypeMany(d, nothing, nothing, |d.history|, text, rest);
  }

  /** Typing somewhere in a line and pressing Enter. */
  lemma TypeLast(d: Desk, before: seq<CodePoint>, behind: seq<CodePoint>, text: seq<CodePoint>)
    requires Printable(text) && Bytes(before + behind) + Bytes(text) <= d.options.maximumBytes
    ensures From(d, At(before, behind, |d.history|), Typed(text) + [ENTER]) == Ok(before + text + behind)
  {
    hide Session;
    TypeMany(d, before, behind, |d.history|, text, [ENTER]);
    EnterSubmits(d, before + text, behind, |d.history|);
  }

  // ------------------------------------------------------------ whole sessions

  /** A new line is empty, and behind the whole history. */
  lemma NewLine(d: Desk)
    ensures Editor([], 0, |d.history|) == At([], [], |d.history|)
  {
  }

  /** What is typed is what is submitted. */
  lemma TypingSubmits(d: Desk, text: seq<CodePoint>)
    requires Printable(text) && Bytes(text) <= d.options.maximumBytes
    ensures Submits(d, Typed(text) + [ENTER]) == Ok(text)
  {
    hide Session;
    TypeFirst(d, text, [ENTER]);
    EnterSubmits(d, text, [], |d.history|);
    assert text + [] == text;
  }

  /** Home goes in front of everything. */
  lemma HomePutsInFront(d: Desk, t: seq<CodePoint>, s: seq<CodePoint>)
    requires Printable(t) && Printable(s) && Bytes(t) + Bytes(s) <= d.options.maximumBytes
    ensures Submits(d, Typed(t) + ([HOME] + (Typed(s) + [ENTER]))) == Ok(s + t)
  {
    hide Session;
    TypeFirst(d, t, [HOME] + (Typed(s) + [ENTER]));
    HomeOnce(d, t, [], |d.history|, Typed(s) + [ENTER]);
    assert t + [] == t && [] + t == t && [] + s == s;
    TypeLast(d, [], t, s);
  }

  /** End goes behind everything. */
  lemma EndPutsBehind(d: Desk, t: seq<CodePoint>, s: seq<CodePoint>)
    requires Printable(t) && Printable(s) && Bytes(t) + Bytes(s) <= d.options.maximumBytes
    ensures Submits(d, Typed(t) + ([HOME] + ([END] + (Typed(s) + [ENTER])))) == Ok(t + s)
  {
    hide Session;
    TypeFirst(d, t, [HOME] + ([END] + (Typed(s) + [ENTER])));
    HomeOnce(d, t, [], |d.history|, [END] + (Typed(s) + [ENTER]));
    EndOnce(d, [], t, |d.history|, Typed(s) + [ENTER]);
    assert t + [] == t && [] + t == t && t + s + [] == t + s;
    TypeLast(d, t, [], s);
  }

  /** Left and Right move by code points and stop at the ends. */
  lemma MovingPutsBetween(d: Desk, t: seq<CodePoint>, s: seq<CodePoint>, lefts: nat, rights: nat)
    requires Printable(t) && Printable(s) && Bytes(t) + Bytes(s) <= d.options.maximumBytes
    ensures var k := Min(|t|, |t| - Min(lefts, |t|) + rights);
            Submits(d, Typed(t) + (Times(LEFT, lefts) + (Times(RIGHT, rights) + (Typed(s) + [ENTER]))))
              == Ok(t[..k] + s + t[k..])
  {
    hide Session, From, Times, Typed;
    var last := Typed(s) + [ENTER];
    TypeFirst(d, t, Times(LEFT, lefts) + (Times(RIGHT, rights) + last));
    LeftMany(d, t, [], |d.history|, lefts, Times(RIGHT, rights) + last);
    var j := |t| - Min(lefts, |t|);
    assert t[j..] + [] == t[j..];
    RightMany(d, t[..j], t[j..], |d.history|, rights, last);
    var r := Min(rights, |t[j..]|);
    assert t[..j] + t[j..][..r] == t[..j + r] && t[j..][r..] == t[j + r..];
    assert t[..j + r] + t[j + r..] == t;
    TypeLast(d, t[..j + r], t[j + r..], s);
  }

  /** Backspace takes away the code points in front of the cursor, Delete those behind it. */
  lemma DeletingTakesAway(d: Desk, t: seq<CodePoint>, lefts: nat, backspaces: nat, deletes: nat)
    requires Printable(t) && Bytes(t) <= d.options.maximumBytes
    ensures var k := |t| - Min(lefts, |t|);
            Submits(d, Typed(t)
                       + (Times(LEFT, lefts) + (Times(BACKSPACE, backspaces) + (Times(DELETE, deletes) + [ENTER]))))
              == Ok(t[..k - Min(backspaces, k)] + t[Min(|t|, k + deletes)..])
  {
    hide Session, From, Times, Typed, At;
    var index := |d.history|;
    TypeFirst(d, t, Times(LEFT, lefts) + (Times(BACKSPACE, backspaces) + (Times(DELETE, deletes) + [ENTER])));
    LeftMany(d, t, [], index, lefts, Times(BACKSPACE, backspaces) + (Times(DELETE, deletes) + [ENTER]));
    var k := |t| - Min(lefts, |t|);
    assert t[k..] + [] == t[k..];
    BackspaceMany(d, t[..k], t[k..], index, backspaces, Times(DELETE, deletes) + [ENTER]);
    assert t[..k][..k - Min(backspaces, k)] == t[..k - Min(backspaces, k)];
    DeleteMany(d, t[..k - Min(backspaces, k)], t[k..], index, deletes, [ENTER]);
    assert t[k..][Min(deletes, |t| - k)..] == t[Min(|t|, k + deletes)..];
    EnterSubmits(d, t[..k - Min(backspaces, k)], t[Min(|t|, k + deletes)..], index);
  }

  lemma {:induction false} UpMany(d: Desk, text: seq<CodePoint>, index: nat, n: nat, rest: Strokes)
    requires d.history != [] && index <= |d.history|
    ensures var i := index - Min(n, index);
            From(d, At(text, [], index), Times(UP, n) + rest)
              == From(d, At(if n == 0 then text else d.history[i], [], i), rest)
    decreases n
  {
    hide Session;
    if n == 0 {
      NoTimes(UP, rest);
    } else {
      FirstOfTimes(UP, n, rest);
      Step(d, At(text, [], index), UP, Times(UP, n - 1) + rest);
      var i := if index == 0 then 0 else index - 1;
      assert d.history[i] + [] == d.history[i];
      UpMany(d, d.history[i], i, n - 1, rest);
    }
  }

  /** The line the index stands for: one of the history, or the empty one behind it. */
  function LineAt(history: seq<seq<CodePoint>>, index: nat): seq<CodePoint> {
    if index < |history| then history[index] else []
  }

  lemma PressDown(d: Desk, text: seq<CodePoint>, index: nat)
    requires d.history != [] && index <= |d.history|
    ensures var i := Min(index + 1, |d.history|);
            Press(At(text, [], index), DOWN, d.history, d.completion, d.options)
              == Editing(At(LineAt(d.history, i), [], i))
  {
    var i := Min(index + 1, |d.history|);
    assert LineAt(d.history, i) + [] == LineAt(d.history, i);
  }

  lemma {:induction false} DownMany(d: Desk, text: seq<CodePoint>, index: nat, n: nat, rest: Strokes)
    requires d.history != [] && index <= |d.history|
    ensures var i := Min(index + n, |d.history|);
            From(d, At(text, [], index), Times(DOWN, n) + rest)
              == From(d, At(if n == 0 then text else LineAt(d.history, i), [], i), rest)
    decreases n
  {
    hide Session, Press, From, Times, At, LineAt;
    AtInRange(d, text, [], index);
    if n == 0 {
      NoTimes(DOWN, rest);
    } else {
      FirstOfTimes(DOWN, n, rest);
      PressDown(d, text, index);
      Step(d, At(text, [], index), DOWN, Times(DOWN, n - 1) + rest);
      var i := Min(index + 1, |d.history|);
      DownMany(d, LineAt(d.history, i), i, n - 1, rest);
    }
  }

  /** Up goes back in the history and stops at its first line, Down comes forward to the empty line behind the last. */
  lemma RecallingWalks(d: Desk, ups: nat, downs: nat)
    requires d.history != []
    ensures Submits(d, Times(UP, ups) + (Times(DOWN, downs) + [ENTER]))
         == Ok(LineAt(d.history, |d.history| - Min(ups, |d.history|) + downs))
  {
    hide Session, From, Times, LineAt, At;
    NewLine(d);
    var n, keys := |d.history|, Times(DOWN, downs) + [ENTER];
    var nothing: seq<CodePoint> := [];
    assert nothing + nothing == nothing;
    UpMany(d, nothing, n, ups, keys);
    var i := n - Min(ups, n);
    var text := if ups == 0 then nothing else d.history[i];
    assert text == LineAt(d.history, i) by { NoneOrOld(d.history, i); }
    DownMany(d, text, i, downs, [ENTER]);
    var j := Min(i + downs, n);
    var line := if downs == 0 then text else LineAt(d.history, j);
    EnterSubmits(d, line, [], j);
    assert line + nothing == line;
    LineShown(d.history, text, i, downs);
  }

  lemma NoneOrOld(history: seq<seq<CodePoint>>, index: nat)
    ensures LineAt(history, index) == if index < |history| then history[index] else []
  {
  }

  lemma LineShown(history: seq<seq<CodePoint>>, text: seq<CodePoint>, index: nat, downs: nat)
    requires text == LineAt(history, index) && index <= |history|
    ensures LineAt(history, index + downs)
         == if downs == 0 then text else LineAt(history, Min(index + downs, |history|))
  {
  }

  /** A recalled line is edited like a typed one. */
  lemma RecalledIsEdited(d: Desk, ups: nat, s: seq<CodePoint>)
    requires 0 < ups <= |d.history| && Printable(s)
    requires Bytes(d.history[|d.history| - ups]) + Bytes(s) <= d.options.maximumBytes
    ensures Submits(d, Times(UP, ups) + (Typed(s) + [ENTER])) == Ok(d.history[|d.history| - ups] + s)
  {
    hide Session;
    var nothing: seq<CodePoint> := [];
    var line := d.history[|d.history| - ups];
    assert nothing + nothing == nothing && line + nothing == line;
    UpMany(d, nothing, |d.history|, ups, Typed(s) + [ENTER]);
    TypeMany(d, line, nothing, |d.history| - ups, s, [ENTER]);
    EnterSubmits(d, line + s, nothing, |d.history| - ups);
    assert line + s + nothing == line + s;
  }

  /** Escape cancels, and without Enter nothing is submitted. */
  lemma OnlyEnterSubmits(d: Desk, text: seq<CodePoint>, rest: Strokes)
    requires Printable(text) && Bytes(text) <= d.options.maximumBytes
    ensures Submits(d, Typed(text) + ([ESCAPE] + rest)) == Err(Cancelled)
    ensures Submits(d, Typed(text)) == Err(d.stop)
  {
    TypeFirst(d, text, [ESCAPE] + rest);
    Step(d, At(text, [], |d.history|), ESCAPE, rest);
    TypeFirst(d, text, []);
    assert Typed(text) + [] == Typed(text);
  }

  lemma {:induction false} TypeTooMuch(d: Desk, before: seq<CodePoint>, text: seq<CodePoint>, rest: Strokes)
    requires Printable(text) && Bytes(before) <= d.options.maximumBytes < Bytes(before) + Bytes(text)
    ensures From(d, At(before, [], |d.history|), Typed(text) + rest) == Err(Overflow)
    decreases |text|
  {
    hide Session, EncodeUtf8, Utf8Of;
    BytesOfNothing();
    assert before + [] == before;
    var c, more := text[0], text[1..];
    BytesSplit([c], more);
    BytesOne(c);
    assert [c] + more == text;
    var key := Keys.KeyEvent(Keys.KeyCode.None, c, false);
    assert Typed(text) + rest == [key] + (Typed(more) + rest);
    Step(d, At(before, [], |d.history|), key, Typed(more) + rest);
    if Bytes(before) + |Utf8Of(c)| <= d.options.maximumBytes {
      hide Press;
      TypeOne(d, before, [], |d.history|, c);
      assert before + [c] + [] == before + [c];
      TypeTooMuch(d, before + [c], more, rest);
    }
  }

  /** Typing past the limit fails, and only that: the limit counts the bytes of the UTF-8 form. */
  lemma TypingFitsOrFails(d: Desk, text: seq<CodePoint>)
    requires Printable(text)
    ensures Submits(d, Typed(text) + [ENTER])
         == if Bytes(text) <= d.options.maximumBytes then Ok(text) else Err(Overflow)
  {
    hide Session, EncodeUtf8;
    if Bytes(text) <= d.options.maximumBytes {
      TypingSubmits(d, text);
    } else {
      BytesOfNothing();
      var nothing: seq<CodePoint> := [];
      assert nothing + nothing == nothing;
      TypeTooMuch(d, nothing, text, [ENTER]);
    }
  }

  /** Shift and Enter break the line where that is allowed, and submit it where it is not. */
  lemma ShiftEnterBreaksTheLine(d: Desk, t: seq<CodePoint>, s: seq<CodePoint>)
    requires Printable(t) && Printable(s) && Bytes(t) + 1 + Bytes(s) <= d.options.maximumBytes
    ensures Submits(d, Typed(t) + ([SHIFT_ENTER] + (Typed(s) + [ENTER])))
         == Ok(if d.options.allowMultiline then t + [10] + s else t)
  {
    hide Session, EncodeUtf8;
    var nothing: seq<CodePoint> := [];
    assert t + nothing == t && t + [10] + nothing == t + [10];
    TypeFirst(d, t, [SHIFT_ENTER] + (Typed(s) + [ENTER]));
    Step(d, At(t, nothing, |d.history|), SHIFT_ENTER, Typed(s) + [ENTER]);
    if d.options.allowMultiline {
      NewlineBytes();
      BytesOne(10);
      BytesSplit(t, [10]);
      assert Put(At(t, nothing, |d.history|), 10) == At(t + [10], nothing, |d.history|);
      TypeLast(d, t + [10], nothing, s);
      assert t + [10] + s + nothing == t + [10] + s;
    }
  }

  /** Tab replaces the line by its completion, with the cursor behind it. */
  lemma TabCompletes(d: Desk, t: seq<CodePoint>, completed: seq<CodePoint>, s: seq<CodePoint>)
    requires Printable(t) && Printable(s) && Bytes(t) <= d.options.maximumBytes
    requires d.completion.Some? && d.completion.value(EncodeUtf8(t)) == Ok(EncodeUtf8(completed))
    requires Bytes(completed) + Bytes(s) <= d.options.maximumBytes
    ensures Submits(d, Typed(t) + ([TAB] + (Typed(s) + [ENTER]))) == Ok(completed + s)
  {
    hide Session, EncodeUtf8;
    var nothing: seq<CodePoint> := [];
    assert t + nothing == t && completed + nothing == completed && completed + s + nothing == completed + s;
    TypeFirst(d, t, [TAB] + (Typed(s) + [ENTER]));
    Step(d, At(t, nothing, |d.history|), TAB, Typed(s) + [ENTER]);
    EncodedIsWellFormed(completed);
    TypeLast(d, completed, nothing, s);
  }
}
