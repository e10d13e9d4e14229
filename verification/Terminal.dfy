/**
 The keyboard side of the terminal: firmware delivers one UTF-16 unit per key stroke, callers see
 code points.
 */
module Terminal {
  import opened Core
  import opened Unicode

  datatype KeyCode =
    | None | Up | Down | Right | Left | Home | End | Insert | Delete | PageUp | PageDown
    | FunctionKey(number: nat) | Escape | Unknown

  function MapScanCode(scanCode: Char16): KeyCode {
    match scanCode
    case 0 => KeyCode.None
    case 1 => Up
    case 2 => Down
    case 3 => Right
    case 4 => Left
    case 5 => Home
    case 6 => End
    case 7 => Insert
    case 8 => Delete
    case 9 => PageUp
    case 10 => PageDown
    case 23 => Escape
    case _ => if 11 <= scanCode <= 20 then FunctionKey(scanCode - 10) else Unknown
  }

  datatype KeyData = KeyData(scanCode: Char16, unicodeChar: Char16, shift: bool)

  /** The scan codes of the Simple Text Input Protocol that name keys, one after the other. */
  lemma ScanCodes(i: Char16)
    ensures var keys := [KeyCode.None, Up, Down, Right, Left, Home, End, Insert, Delete, PageUp, PageDown]
                          + [FunctionKey(1), FunctionKey(2), FunctionKey(3), FunctionKey(4), FunctionKey(5)]
                          + [FunctionKey(6), FunctionKey(7), FunctionKey(8), FunctionKey(9), FunctionKey(10)]
                          + [Unknown, Unknown, Escape];
            MapScanCode(i) == if i < |keys| then keys[i] else Unknown
  {
  }

  /** A character of 0 means that the event carries none. */
  datatype KeyEvent = KeyEvent(code: KeyCode, character: Char32, shift: bool) {
    predicate HasCharacter() { character != 0 }
  }

  function Units(keys: seq<KeyData>): (units: seq<Char16>)
    ensures |units| == |keys|
  {
    seq(|keys|, i requires 0 <= i < |keys| => keys[i].unicodeChar)
  }

  /** The characters a reader of the events sees. */
  function Visible(events: seq<KeyEvent>): seq<Char32> {
    if events == [] then []
    else
      var last := events[|events| - 1];
      Visible(events[..|events| - 1]) + if last.HasCharacter() then [last.character] else []
  }

  function NonZero(points: seq<CodePoint>): seq<Char32> {
    if points == [] then []
    else
      var last := points[|points| - 1];
      NonZero(points[..|points| - 1]) + if last != 0 then [last] else []
  }

  /** What the batch decoding of `items` types. */
  function Typed(items: seq<Item>): seq<Char32> { NonZero(Replaced(items)) }

  lemma TypedOne(items: seq<Item>, item: Item)
    ensures Typed(items + [item]) == Typed(items) + if ReplaceItem(item) != 0 then [ReplaceItem(item)] else []
  {
    assert Replaced(items + [item]) == Replaced(items) + [ReplaceItem(item)];
    assert Replaced(items + [item])[..|items|] == Replaced(items);
  }

  lemma VisibleOne(events: seq<KeyEvent>, event: KeyEvent)
    ensures Visible(events + [event]) == Visible(events) + if event.HasCharacter() then [event.character] else []
  {
    assert (events + [event])[..|events|] == events;
  }

  /** Having read `before` is, for every continuation, the same as having output `out` and read `after`. */
  ghost predicate Emits16(before: seq<Char16>, after: seq<Char16>, out: seq<Item>) {
    forall rest: seq<Char16> :: Utf16Items(before + rest) == out + Utf16Items(after + rest)
  }

  /** One more unit, with at most one high surrogate pending. */
  lemma NextUnit(read: seq<Char16>, pending: Char16, items: seq<Item>, unit: Char16)
    requires pending == 0 || IsHigh(pending)
    requires Emits16(read, if pending == 0 then [] else [pending], items)
    ensures IsHigh(unit) ==> Emits16(read + [unit], [unit], items + if pending == 0 then [] else [Bad])
    ensures IsLow(unit) ==>
      Emits16(read + [unit], [], items + [if pending == 0 then Bad else Char(JoinSurrogates(pending, unit))])
    ensures !IsHigh(unit) && !IsLow(unit) ==>
      Emits16(read + [unit], [], items + if pending == 0 then [Char(unit)] else [Bad, Char(unit)])
  {
    hide Utf16Items;
    forall rest: seq<Char16>
      ensures IsHigh(unit) ==>
        Utf16Items(read + [unit] + rest) == items + (if pending == 0 then [] else [Bad]) + Utf16Items([unit] + rest)
      ensures IsLow(unit) ==>
        Utf16Items(read + [unit] + rest)
          == items + [if pending == 0 then Bad else Char(JoinSurrogates(pending, unit))] + Utf16Items([] + rest)
      ensures !IsHigh(unit) && !IsLow(unit) ==>
        Utf16Items(read + [unit] + rest)
          == items + (if pending == 0 then [Char(unit)] else [Bad, Char(unit)]) + Utf16Items([] + rest)
    {
      assert read + [unit] + rest == read + ([unit] + rest);
      assert [] + rest == rest && [] + ([unit] + rest) == [unit] + rest;
      UnitAlone(unit, rest);
      if pending != 0 {
        UnitAfterHigh(pending, unit, rest);
      }
    }
  }

  lemma UnitAlone(unit: Char16, rest: seq<Char16>)
    ensures !IsHigh(unit) ==>
      Utf16Items([unit] + rest) == [if IsLow(unit) then Bad else Char(unit)] + Utf16Items(rest)
  {
    assert ([unit] + rest)[1..] == rest;
  }

  lemma UnitAfterHigh(high: Char16, unit: Char16, rest: seq<Char16>)
    requires IsHigh(high)
    ensures IsLow(unit) ==>
      Utf16Items([high] + ([unit] + rest)) == [Char(JoinSurrogates(high, unit))] + Utf16Items(rest)
    ensures !IsLow(unit) ==> Utf16Items([high] + ([unit] + rest)) == [Bad] + Utf16Items([unit] + rest)
  {
    var all := [high] + ([unit] + rest);
    assert all[1..] == [unit] + rest && all[2..] == rest;
  }

  class Terminal {
    /** Key strokes the firmware has not delivered yet. */
    var keyboard: seq<KeyData>
    var pendingHighSurrogate: Char16
    var queuedEvent: Option<KeyEvent>
    /** Units read, items they settled, events returned. */
    ghost var read: seq<Char16>
    ghost var settled: seq<Item>
    ghost var emitted: seq<KeyEvent>

    ghost function Pending(): seq<Char16>
      reads this
    {
      if pendingHighSurrogate == 0 then [] else [pendingHighSurrogate]
    }

    ghost function Queued(): seq<KeyEvent>
      reads this
    {
      if queuedEvent.Some? then [queuedEvent.value] else []
    }

    ghost predicate Valid()
      reads this
    {
      && (pendingHighSurrogate == 0 || IsHigh(pendingHighSurrogate))
      && Emits16(read, Pending(), settled)
      && Visible(emitted + Queued()) == Typed(settled)
      && (queuedEvent.Some? ==> IsValidCodePoint(queuedEvent.value.character))
    }

    constructor (keyboard: seq<KeyData>)
      ensures Valid() && this.keyboard == keyboard && queuedEvent == Option.None && read == [] && emitted == []
    {
      this.keyboard := keyboard;
      pendingHighSurrogate, queuedEvent := 0, Option.None;
      read, settled, emitted := [], [], [];
    }

    /** Turns one key stroke into an event, and queues a second one when the stroke exposes a lone high surrogate. */
    method Convert(native: KeyData) returns (event: KeyEvent)
      requires Valid() && queuedEvent == Option.None
      modifies this`pendingHighSurrogate, this`queuedEvent, this`read, this`settled, this`emitted
      ensures Valid() && emitted == old(emitted) + [event] && read == old(read) + [native.unicodeChar]
      ensures IsValidCodePoint(event.character)
      ensures pendingHighSurrogate == if IsHigh(native.unicodeChar) then native.unicodeChar else 0
      ensures var own := KeyEvent(MapScanCode(native.scanCode), native.unicodeChar, native.shift);
              var exposes :=
                old(pendingHighSurrogate) != 0 && !IsHigh(native.unicodeChar) && !IsLow(native.unicodeChar);
              if exposes then event == KeyEvent(KeyCode.None, REPLACEMENT, false) && queuedEvent == Some(own)
              else event == own.(character := event.character) && queuedEvent == Option.None
    {
      hide Emits16, Utf16Items, Typed, Visible;
      var character: Char32 := 0;
      var code := MapScanCode(native.scanCode);
      var unit := native.unicodeChar;
      NextUnit(read, pendingHighSurrogate, settled, unit);
      assert emitted + [] == emitted && read + [] == read;
      ghost var item := Bad;
      read := read + [unit];
      if IsHigh(unit) {
        if pendingHighSurrogate != 0 {
          character := REPLACEMENT;
        }
        pendingHighSurrogate := unit;
      } else if IsLow(unit) {
        if pendingHighSurrogate == 0 {
          character := REPLACEMENT;
        } else {
          character := JoinSurrogates(pendingHighSurrogate, unit);
          item := Char(character);
          pendingHighSurrogate := 0;
        }
      } else {
        if pendingHighSurrogate != 0 {
          pendingHighSurrogate := 0;
          event := KeyEvent(KeyCode.None, REPLACEMENT, false);
          queuedEvent := Some(KeyEvent(code, unit, native.shift));
          TypedOne(settled, Bad);
          TypedOne(settled + [Bad], Char(unit));
          VisibleOne(emitted, event);
          VisibleOne(emitted + [event], queuedEvent.value);
          assert settled + [Bad] + [Char(unit)] == settled + [Bad, Char(unit)];
          settled := settled + [Bad, Char(unit)];
          emitted := emitted + [event];
          return;
        }
        character := unit;
        item := Char(unit);
      }
      event := KeyEvent(code, character, native.shift);
      VisibleOne(emitted, event);
      TypedOne(settled, item);
      if !(IsHigh(unit) && character == 0) {
        settled := settled + [item];
      } else {
        assert settled + [] == settled;
      }
      emitted := emitted + [event];
      assert emitted + [] == emitted;
    }

    /** At most one event is ever queued, and it is delivered before another key is read. */
    method PollKey() returns (event: Option<KeyEvent>)
      requires Valid()
      modifies this
      ensures Valid() && read + Units(keyboard) == old(read + Units(keyboard))
      ensures old(queuedEvent).Some? ==> event == old(queuedEvent) && queuedEvent.None? && keyboard == old(keyboard)
      ensures old(queuedEvent).None? && old(keyboard) == [] ==> event.None? && queuedEvent.None? && keyboard == []
      ensures old(queuedEvent).None? && old(keyboard) != [] ==> event.Some? && keyboard == old(keyboard)[1..]
      ensures emitted == if event.Some? then old(emitted) + [event.value] else old(emitted)
      ensures event.Some? ==> IsValidCodePoint(event.value.character)
    {
      hide Emits16, Visible, Typed;
      if queuedEvent.Some? {
        event := queuedEvent;
        queuedEvent := Option.None;
        emitted := emitted + [event.value];
        assert emitted + [] == emitted;
        return;
      }
      if keyboard == [] {
        return Option.None;
      }
      var native := keyboard[0];
      assert Units(keyboard) == [native.unicodeChar] + Units(keyboard[1..]);
      keyboard := keyboard[1..];
      var converted := Convert(native);
      return Some(converted);
    }
  }

  /**
   Main result: polling a keyboard dry gives exactly the characters of the batch decoding of all its
   units (NUL units carry no character), except that a trailing high surrogate, which the batch
   decoding reports as malformed, is still pending.
   */
  method PollAll(keys: seq<KeyData>) returns (terminal: Terminal, events: seq<KeyEvent>)
    ensures terminal.Valid() && terminal.keyboard == [] && terminal.queuedEvent.None?
    ensures forall i :: 0 <= i < |events| ==> IsValidCodePoint(events[i].character)
    ensures Visible(events) + (if terminal.pendingHighSurrogate == 0 then [] else [REPLACEMENT])
         == Typed(Utf16Items(Units(keys)))
  {
    hide Emits16, Visible, Typed, Utf16Items;
    terminal := new Terminal(keys);
    events := [];
    while true
      invariant terminal.Valid() && terminal.emitted == events && fresh(terminal)
      invariant terminal.read + Units(terminal.keyboard) == Units(keys)
      invariant forall i :: 0 <= i < |events| ==> IsValidCodePoint(events[i].character)
      decreases |terminal.keyboard|, if terminal.queuedEvent.Some? then 1 else 0
    {
      var event := terminal.PollKey();
      if event.None? {
        break;
      }
      events := events + [event.value];
    }
    SettledAtEnd(terminal);
    assert terminal.read == terminal.read + Units([]) == Units(keys);
  }

  lemma SettledAtEnd(terminal: Terminal)
    requires terminal.Valid() && terminal.queuedEvent.None?
    ensures Visible(terminal.emitted) + (if terminal.pendingHighSurrogate == 0 then [] else [REPLACEMENT])
         == Typed(Utf16Items(terminal.read))
  {
    var pending := terminal.Pending();
    assert terminal.read + [] == terminal.read && pending + [] == pending && terminal.emitted + [] == terminal.emitted;
    assert Utf16Items(terminal.read) == terminal.settled + Utf16Items(pending);
    if pending == [] {
      assert terminal.settled + [] == terminal.settled;
    } else {
      assert pending[1..] == [] && Utf16Items(pending) == [Bad];
      TypedOne(terminal.settled, Bad);
    }
  }
}
