/**
 The whole console pipeline, `BufferedSink<NewlineSink<ConsoleSink>>`: what reaches the firmware does
 not depend on how the text was cut into writes.
 */
module ConsoleStack {
  import opened Core
  import opened Unicode
  import opened Console
  import opened Sinks

  /** Every line feed follows a carriage return; `afterCr` says whether one stands right before the text. */
  predicate EveryLfFollowsCr(text: seq<int>, afterCr: bool) {
    forall i {:trigger text[i]} :: 0 <= i < |text| && text[i] == LF ==> if i == 0 then afterCr else text[i - 1] == CR
  }

  lemma {:induction false} ToCrLfFollows(bytes: seq<Byte>, afterCr: bool)
    ensures EveryLfFollowsCr(ToCrLf(bytes, afterCr), afterCr)
  {
    if bytes == [] {
    } else {
      ToCrLfFollows(bytes[1..], bytes[0] == CR);
      var rest := ToCrLf(bytes[1..], bytes[0] == CR);
      var text := ToCrLf(bytes, afterCr);
      var n := |CrLfStep(bytes[0], afterCr)|;
      forall i | 0 <= i < |text| && text[i] == LF ensures if i == 0 then afterCr else text[i - 1] == CR {
        if i >= n {
          assert text[i] == rest[i - n];
          assert i > n ==> text[i - 1] == rest[i - n - 1];
        }
      }
    }
  }

  /** What item a CR, an LF or a NUL can come from. */
  lemma FirstOfBytes(bytes: seq<Byte>)
    requires bytes != []
    ensures bytes[0] <= 0x7F ==> FirstTaken(bytes) == 1 && FirstItem(bytes) == Char(bytes[0])
    ensures bytes[0] > 0x7F ==> FirstItem(bytes) == Bad || FirstItem(bytes).codePoint > 0x7F
  {
    assert bytes[..1] == [bytes[0]];
  }

  function UnitsOf(bytes: seq<Byte>): seq<Char16> { EncodeUtf16(Replaced(Utf8Items(bytes))) }

  lemma UnitsOfFirst(bytes: seq<Byte>)
    requires bytes != []
    ensures UnitsOf(bytes) == Utf16Of(ReplaceItem(FirstItem(bytes))) + UnitsOf(bytes[FirstTaken(bytes)..])
  {
    hide FirstItem, FirstTaken, Utf16Of;
    assert Replaced(Utf8Items(bytes))[1..] == Replaced(Utf8Items(bytes[FirstTaken(bytes)..]));
  }

  /** The property survives decoding, because CR and LF only ever come from their own bytes. */
  lemma {:induction false} UnitsFollow(bytes: seq<Byte>, afterCr: bool)
    requires EveryLfFollowsCr(bytes, afterCr)
    ensures EveryLfFollowsCr(UnitsOf(bytes), afterCr)
    decreases |bytes|
  {
    if bytes == [] {
    } else {
      hide FirstItem, FirstTaken;
      var n, item := FirstTaken(bytes), FirstItem(bytes);
      FirstOfBytes(bytes);
      UnitsOfFirst(bytes);
      var first, rest := Utf16Of(ReplaceItem(item)), UnitsOf(bytes[n..]);
      forall i | 0 <= i < |bytes[n..]| && bytes[n..][i] == LF
        ensures if i == 0 then bytes[0] == CR else bytes[n..][i - 1] == CR
      {
        assert bytes[n..][i] == bytes[n + i] && bytes[n + i - 1] == CR;
      }
      UnitsFollow(bytes[n..], bytes[0] == CR);
      assert bytes[0] <= 0x7F ==> first == [bytes[0]];
      assert bytes[0] > 0x7F ==> forall i :: 0 <= i < |first| ==> first[i] > 0x7F;
      FollowsAppend(first, rest, afterCr, bytes[0] == CR);
    }
  }

  lemma FollowsAppend(first: seq<int>, rest: seq<int>, afterCr: bool, between: bool)
    requires first != [] && EveryLfFollowsCr(first, afterCr) && EveryLfFollowsCr(rest, between)
    requires between ==> first[|first| - 1] == CR
    ensures EveryLfFollowsCr(first + rest, afterCr)
  {
    var text := first + rest;
    forall i | 0 <= i < |text| && text[i] == LF ensures if i == 0 then afterCr else text[i - 1] == CR {
      if i < |first| {
        assert text[i] == first[i] && (i > 0 ==> text[i - 1] == first[i - 1]);
      } else {
        assert text[i] == rest[i - |first|];
        assert text[i - 1] == if i == |first| then first[i - 1] else rest[i - |first| - 1];
      }
    }
  }

  /** Text without NUL bytes decodes and encodes without NUL units. */
  lemma {:induction false} UnitsNulFree(bytes: seq<Byte>)
    requires 0 !in bytes
    ensures 0 !in UnitsOf(bytes)
    decreases |bytes|
  {
    if bytes == [] {
    } else {
      hide FirstItem, FirstTaken;
      var n, item := FirstTaken(bytes), FirstItem(bytes);
      FirstOfBytes(bytes);
      UnitsOfFirst(bytes);
      assert bytes[0] != 0;
      UnitsNulFree(bytes[n..]);
    }
  }

  lemma {:induction false} ToCrLfNulFree(bytes: seq<Byte>, afterCr: bool)
    requires 0 !in bytes
    ensures 0 !in ToCrLf(bytes, afterCr)
  {
    if bytes == [] {
    } else {
      assert bytes[0] != 0;
      ToCrLfNulFree(bytes[1..], bytes[0] == CR);
    }
  }

  /** What a flushed console shows, as a function of the bytes it was given. */
  predicate Shows(calls: seq<seq<Char16>>, bytes: seq<Byte>) {
    && Flatten(calls) == UnitsOf(ToCrLf(bytes, false))
    && EveryLfFollowsCr(Flatten(calls), false)
    && forall i :: 0 <= i < |calls| ==> |calls[i]| <= 128 && IsWideText(calls[i])
  }

  lemma FlushedShows(console: NewlineSink, bytes: seq<Byte>)
    requires console.Valid() && console.policy.CarriageReturnLineFeed? && console.accepted == bytes && 0 !in bytes
    requires |console.sink.segments| == 1 && console.sink.fed == []
    requires console.sink.units == EncodeUtf16(Replaced(SegmentItems(console.sink.segments)))
    requires 0 !in console.sink.units ==> Flatten(console.sink.calls) == console.sink.units
    ensures Shows(console.sink.calls, bytes)
  {
    hide IsWideText, Utf16Items, Utf8Items, EncodeUtf16, Replaced;
    var segment := console.sink.segments[0];
    assert console.sink.segments == [segment];
    assert Flatten([segment]) == segment + Flatten([]);
    assert segment == console.ended + ToCrLf(bytes, false) == ToCrLf(bytes, false);
    assert console.sink.segments[..0] == [] && SegmentItems([]) == [];
    assert SegmentItems(console.sink.segments) == [] + Utf8Items(segment) == Utf8Items(segment);
    ToCrLfNulFree(bytes, false);
    UnitsNulFree(segment);
    ToCrLfFollows(bytes, false);
    UnitsFollow(segment, false);
    assert console.sink.units == UnitsOf(segment);
    assert 0 !in console.sink.units;
    assert console.sink.Valid();
    assert ShowsFaithfully(console.sink.calls, console.sink.wideBuffer[..console.sink.wideLength], console.sink.units);
    assert Flatten(console.sink.calls) == UnitsOf(ToCrLf(bytes, false));
  }

  /**
   Main result: writing `chunks` one after the other and flushing once shows the UTF-16 of the
   replace-decoding of the CR LF form of the whole text, in strings of at most 128 units none of
   which cuts a surrogate pair.
   */
  method Transcript(chunks: seq<seq<Byte>>, capacity: nat) returns (calls: seq<seq<Char16>>)
    requires 0 < capacity
    ensures 0 !in Flatten(chunks) ==> Shows(calls, Flatten(chunks))
  {
    hide NewlineSink.Valid, Shows;
    assert Flatten(chunks[..0]) == [];
    var stack := new Sink.Console();
    var out := new BufferedSink(stack, capacity);
    for index := 0 to |chunks|
      invariant out.Valid() && fresh(out.Footprint())
      invariant stack.Segments() == [] && out.accepted == Flatten(chunks[..index])
    {
      FlattenAppend(chunks[..index], chunks[index]);
      assert chunks[..index] + [chunks[index]] == chunks[..index + 1];
      var r, written := WriteAll(out, chunks[index]);
      assert chunks[index][..written] == chunks[index];
    }
    assert chunks[..|chunks|] == chunks;
    var flushed := out.Flush();
    calls := stack.console.sink.calls;
    if 0 !in Flatten(chunks) {
      FlushedShows(stack.console, Flatten(chunks));
    }
  }
}
