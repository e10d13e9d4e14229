/**
 The console output stack: bytes are buffered, line feeds become CR LF, the result is decoded as
 UTF-8 and handed to the firmware's OutputString as NUL-terminated UTF-16 strings.
 */
module Console {
  import opened Core
  import opened Unicode
  import opened Utf

  const CR: Byte := 0x0D
  const LF: Byte := 0x0A
  const WIDE_BUFFER_CAPACITY: nat := 128

  /** What a callee that stops at the terminating NUL sees of a buffer. */
  function UpToNul(buffer: seq<Char16>): (text: seq<Char16>)
    ensures text <= buffer && 0 !in text
  {
    if buffer == [] || buffer[0] == 0 then [] else [buffer[0]] + UpToNul(buffer[1..])
  }

  lemma {:induction false} UpToNulOf(text: seq<Char16>, after: seq<Char16>)
    requires 0 !in text
    ensures UpToNul(text + [0] + after) == text
  {
    if text == [] {
    } else {
      assert (text + [0] + after)[1..] == text[1..] + [0] + after;
      UpToNulOf(text[1..], after);
    }
  }

  /** A string that is well-formed UTF-16 on its own, so that no surrogate pair is cut. */
  predicate IsWideText(units: seq<Char16>) { Clean(Utf16Items(units)) }

  lemma WideTextAppend(units: seq<Char16>, c: CodePoint)
    requires IsWideText(units)
    ensures IsWideText(units + Utf16Of(c))
  {
    var points := Replaced(Utf16Items(units));
    EncodeDecodeUtf16(units);
    EncodeUtf16Append(points, [c]);
    assert EncodeUtf16([c]) == Utf16Of(c) + EncodeUtf16([]);
    assert units + Utf16Of(c) == EncodeUtf16(points + [c]);
    DecodeEncodeUtf16(points + [c]);
  }

  /** A callee never looks past a terminator. */
  lemma {:induction false} UpToNulShort(buffer: seq<Char16>, n: nat)
    requires n < |buffer| && buffer[n] == 0
    ensures |UpToNul(buffer)| <= n
  {
    if buffer[0] != 0 {
      UpToNulShort(buffer[1..], n - 1);
    }
  }

  /** No string shown is longer than the buffer; if no text contained a NUL they add up to it and are well formed. */
  ghost predicate ShowsFaithfully(calls: seq<seq<Char16>>, held: seq<Char16>, units: seq<Char16>) {
    && (forall i :: 0 <= i < |calls| ==> |calls[i]| <= WIDE_BUFFER_CAPACITY)
    && (0 !in units ==>
          && Flatten(calls) + held == units
          && IsWideText(held)
          && forall i :: 0 <= i < |calls| ==> IsWideText(calls[i]))
  }

  lemma ShowsNothingHeld(calls: seq<seq<Char16>>, units: seq<Char16>)
    requires ShowsFaithfully(calls, [], units) && 0 !in units
    ensures Flatten(calls) == units
  {
  }

  /** Each segment between flushes is decoded on its own. */
  function SegmentItems(segments: seq<seq<Byte>>): seq<Item> {
    if segments == [] then []
    else SegmentItems(segments[..|segments| - 1]) + Utf8Items(segments[|segments| - 1])
  }

  class ConsoleSink {
    const decoder: Utf8Decoder
    const wideBuffer: array<Char16>
    var wideLength: nat
    /** The strings OutputString has received. */
    var calls: seq<seq<Char16>>
    /** The byte strings written before each completed flush, and the bytes written since. */
    ghost var segments: seq<seq<Byte>>
    ghost var fed: seq<Byte>
    /** The pieces of `fed` decoded so far, and all units appended since construction. */
    ghost var items: seq<Item>
    ghost var units: seq<Char16>

    ghost predicate Valid()
      reads this, decoder, wideBuffer
    {
      && decoder.Valid()
      && wideBuffer.Length == WIDE_BUFFER_CAPACITY + 1 && wideLength <= WIDE_BUFFER_CAPACITY
      && Emits(fed, decoder.pending, items)
      && units == EncodeUtf16(Replaced(SegmentItems(segments) + items))
      && ShowsFaithfully(calls, wideBuffer[..wideLength], units)
    }

    constructor ()
      ensures Valid() && fresh(decoder) && fresh(wideBuffer)
      ensures segments == [] && fed == [] && calls == [] && units == [] && wideLength == 0
    {
      decoder := new Utf8Decoder();
      wideBuffer := new Char16[WIDE_BUFFER_CAPACITY + 1](_ => 0);
      wideLength := 0;
      calls, segments, fed, items, units := [], [], [], [], [];
      new;
      EmitsNothing([]);
    }

    method FlushWide()
      requires wideBuffer.Length == WIDE_BUFFER_CAPACITY + 1 && wideLength <= WIDE_BUFFER_CAPACITY
      requires ShowsFaithfully(calls, wideBuffer[..wideLength], units)
      modifies this`wideLength, this`calls, wideBuffer
      ensures wideLength == 0 && ShowsFaithfully(calls, [], units)
      ensures if old(wideLength) == 0 then calls == old(calls)
              else |calls| == |old(calls)| + 1 && old(calls) <= calls
    {
      if wideLength == 0 {
        assert wideBuffer[..0] == [];
        return;
      }
      ghost var held := wideBuffer[..wideLength];
      wideBuffer[wideLength] := 0;
      assert wideBuffer[..] == held + [0] + wideBuffer[wideLength + 1..];
      if 0 !in units {
        forall i | 0 <= i < |held| ensures held[i] != 0 {
          assert units[|Flatten(calls)| + i] == held[i];
        }
        UpToNulOf(held, wideBuffer[wideLength + 1..]);
        FlattenAppend(calls, held);
      }
      UpToNulShort(wideBuffer[..], wideLength);
      calls := calls + [UpToNul(wideBuffer[..])];
      wideLength := 0;
    }

    /** Copies units behind what is already held. */
    method Hold(encoded: seq<Char16>)
      requires wideLength + |encoded| <= wideBuffer.Length
      modifies this`wideLength, wideBuffer
      ensures wideLength == old(wideLength) + |encoded|
      ensures wideBuffer[..wideLength] == old(wideBuffer[..wideLength]) + encoded
    {
      for index := 0 to |encoded|
        invariant wideLength == old(wideLength) + index
        invariant wideBuffer[..wideLength] == old(wideBuffer[..wideLength]) + encoded[..index]
      {
        wideBuffer[wideLength] := encoded[index];
        wideLength := wideLength + 1;
      }
    }

    method Append(codePoint: CodePoint)
      requires wideBuffer.Length == WIDE_BUFFER_CAPACITY + 1 && wideLength <= WIDE_BUFFER_CAPACITY
      requires ShowsFaithfully(calls, wideBuffer[..wideLength], units)
      modifies this`wideLength, this`calls, this`units, wideBuffer
      ensures wideLength <= WIDE_BUFFER_CAPACITY
      ensures units == old(units) + Utf16Of(codePoint)
      ensures ShowsFaithfully(calls, wideBuffer[..wideLength], units)
    {
      hide Utf16Items, IsWideText, UpToNul, Flatten, ShowsFaithfully;
      var encoded := new Char16[2](_ => 0);
      var count := EncodeUtf16Into(codePoint, encoded);
      if wideLength + count.value > WIDE_BUFFER_CAPACITY {
        FlushWide();
        assert wideBuffer[..wideLength] == [];
      }
      ghost var held, before := wideBuffer[..wideLength], units;
      Hold(encoded[..count.value]);
      units := units + Utf16Of(codePoint);
      ShowsOneMore(calls, held, before, codePoint);
    }

    /** One byte, fed until the decoder consumes it. */
    method AcceptByte(b: Byte)
      requires Valid()
      modifies this, decoder, wideBuffer
      ensures Valid() && segments == old(segments) && fed == old(fed) + [b]
    {
      hide Utf8Items, Emits, EncodeUtf16, Replaced, ShowsFaithfully, SegmentItems, TailNeeded, IsIncomplete;
      ghost var settled := SegmentItems(segments);
      ghost var before := fed + [b];
      EmitsExtend(fed, decoder.pending, items, b);
      var consumed := false;
      while !consumed
        invariant decoder.Valid()
        invariant wideBuffer.Length == WIDE_BUFFER_CAPACITY + 1 && wideLength <= WIDE_BUFFER_CAPACITY
        invariant Emits(before, Unread(decoder.pending, b, consumed), items)
        invariant units == EncodeUtf16(Replaced(settled + items))
        invariant ShowsFaithfully(calls, wideBuffer[..wideLength], units)
        invariant segments == old(segments) && fed == old(fed)
        decreases if consumed then 0 else |decoder.pending| + 1
      {
        ghost var unread := Unread(decoder.pending, b, false);
        var decoded, emitted := decoder.Feed(b, Replace);
        consumed := decoded.value.consumed;
        EmitsTrans(before, unread, Unread(decoder.pending, b, consumed), items, emitted);
        if decoded.value.codePoint.Some? {
          Append(decoded.value.codePoint.value);
        }
        AppendEmitted(settled + items, emitted);
        assert settled + items + emitted == settled + (items + emitted);
        items := items + emitted;
      }
      fed := before;
    }

    /** Accepts all bytes: the console does not fail. */
    method WriteSome(bytes: seq<Byte>) returns (r: Result<nat>)
      requires Valid()
      modifies this, decoder, wideBuffer
      ensures Valid() && r == Ok(|bytes|)
      ensures segments == old(segments) && fed == old(fed) + bytes
      ensures wideLength == 0
    {
      hide Emits, EncodeUtf16, Replaced, ShowsFaithfully, SegmentItems;
      for index := 0 to |bytes|
        invariant Valid() && segments == old(segments) && fed == old(fed) + bytes[..index]
      {
        AcceptByte(bytes[index]);
      }
      assert bytes[..|bytes|] == bytes;
      FlushWide();
      assert wideBuffer[..0] == [];
      return Ok(|bytes|);
    }

    /** Ends the current segment: nothing stays pending and every unit has been shown. */
    method Flush()
      requires Valid()
      modifies this, decoder, wideBuffer
      ensures Valid() && wideLength == 0 && fed == []
      ensures segments == old(segments) + [old(fed)]
      ensures units == EncodeUtf16(Replaced(SegmentItems(segments)))
      ensures 0 !in units ==> Flatten(calls) == units
    {
      hide Utf8Items, EncodeUtf16, Replaced, Emits, ShowsFaithfully, TailNeeded, IsIncomplete, Flatten, SegmentItems;
      ghost var settled, done := SegmentItems(segments), segments + [fed];
      ghost var last := Utf8Items(decoder.pending);
      EmitsToEnd(fed, decoder.pending, items);
      var finished := decoder.Finish(Replace);
      if finished.value.Some? {
        Append(finished.value.value);
      }
      AppendEmitted(settled + items, last);
      assert settled + items + last == settled + (items + last);
      FlushWide();
      OneMoreSegment(segments, fed);
      segments, fed, items := done, [], [];
      assert SegmentItems(segments) + [] == SegmentItems(segments);
      assert wideBuffer[..0] == [] && decoder.pending == [];
      EmitsNothing([]);
      if 0 !in units {
        ShowsNothingHeld(calls, units);
      }
    }
  }

  lemma OneMoreSegment(segments: seq<seq<Byte>>, last: seq<Byte>)
    ensures SegmentItems(segments + [last]) == SegmentItems(segments) + Utf8Items(last)
  {
    hide Utf8Items;
    assert (segments + [last])[..|segments|] == segments;
  }

  lemma ShowsOneMore(calls: seq<seq<Char16>>, held: seq<Char16>, units: seq<Char16>, codePoint: CodePoint)
    requires ShowsFaithfully(calls, held, units)
    ensures ShowsFaithfully(calls, held + Utf16Of(codePoint), units + Utf16Of(codePoint))
  {
    if 0 !in units + Utf16Of(codePoint) {
      assert forall i :: 0 <= i < |units| ==> units[i] == (units + Utf16Of(codePoint))[i];
      WideTextAppend(held, codePoint);
      assert Flatten(calls) + (held + Utf16Of(codePoint)) == Flatten(calls) + held + Utf16Of(codePoint);
    }
  }
}
