/**
 Byte sinks: newline translation, buffering over a sink that may accept any prefix or fail, and
 writing everything.
 */
module Sinks {
  import opened Core
  import opened Unicode
  import opened Console

  // ------------------------------------------------ newline translation

  datatype Newline = Preserve | LineFeed | CarriageReturnLineFeed

  predicate EndsWithCr(bytes: seq<Byte>) { bytes != [] && bytes[|bytes| - 1] == CR }

  /** A line feed not already preceded by CR gets one. */
  function CrLfStep(b: Byte, afterCr: bool): seq<Byte> {
    if b == LF && !afterCr then [CR, LF] else [b]
  }

  /** A CR is held back until it is known whether a line feed follows, and then becomes one with it. */
  function LfStep(b: Byte, afterCr: bool): seq<Byte> {
    (if afterCr then [LF] else []) + if b == CR || (afterCr && b == LF) then [] else [b]
  }

  function Step(policy: Newline, b: Byte, afterCr: bool): seq<Byte> {
    match policy
    case Preserve => [b]
    case LineFeed => LfStep(b, afterCr)
    case CarriageReturnLineFeed => CrLfStep(b, afterCr)
  }

  /** What has been sent on when `bytes` have been accepted. */
  function Sent(policy: Newline, bytes: seq<Byte>, afterCr: bool): seq<Byte> {
    if bytes == [] then [] else Step(policy, bytes[0], afterCr) + Sent(policy, bytes[1..], bytes[0] == CR)
  }

  /** The CR LF translation of a text. */
  function ToCrLf(bytes: seq<Byte>, afterCr: bool): seq<Byte> { Sent(CarriageReturnLineFeed, bytes, afterCr) }

  /** The LF translation of a text: a CR held back at its end becomes a line feed. */
  function ToLf(bytes: seq<Byte>): seq<Byte> {
    Sent(LineFeed, bytes, false) + if EndsWithCr(bytes) then [LF] else []
  }

  lemma {:induction false} SentAppend(policy: Newline, a: seq<Byte>, b: Byte, afterCr: bool)
    ensures Sent(policy, a + [b], afterCr)
         == Sent(policy, a, afterCr) + Step(policy, b, if a == [] then afterCr else EndsWithCr(a))
  {
    hide Step;
    if a == [] {
      assert [] + [b] == [b] && Sent(policy, [b][1..], b == CR) == [];
      assert Step(policy, b, afterCr) + [] == Step(policy, b, afterCr);
    } else {
      assert (a + [b])[1..] == a[1..] + [b];
      SentAppend(policy, a[1..], b, a[0] == CR);
    }
  }

  /** The LF translation leaves no carriage return. */
  lemma {:induction false} SentLfHasNoCr(bytes: seq<Byte>, afterCr: bool)
    ensures CR !in Sent(LineFeed, bytes, afterCr)
  {
    if bytes != [] {
      SentLfHasNoCr(bytes[1..], bytes[0] == CR);
    }
  }

  /** Texts sent one after the other, the first ending in a CR exactly if the flag says so. */
  lemma {:induction false} SentConcat(policy: Newline, a: seq<Byte>, b: seq<Byte>, afterCr: bool)
    ensures Sent(policy, a + b, afterCr)
         == Sent(policy, a, afterCr) + Sent(policy, b, if a == [] then afterCr else EndsWithCr(a))
  {
    hide Step;
    if a == [] {
      assert a + b == b;
    } else {
      assert (a + b)[1..] == a[1..] + b;
      SentConcat(policy, a[1..], b, a[0] == CR);
    }
  }

  /** The LF translation undoes the CR LF translation: both forms of a text have the same LF form. */
  lemma LfUndoesCrLf(bytes: seq<Byte>)
    ensures ToLf(ToCrLf(bytes, false)) == ToLf(bytes)
  {
    LfOfCrLf(bytes, false);
    CrLfEnd(bytes, false);
  }

  lemma {:induction false} LfOfCrLf(bytes: seq<Byte>, afterCr: bool)
    ensures Sent(LineFeed, ToCrLf(bytes, afterCr), afterCr) == Sent(LineFeed, bytes, afterCr)
  {
    if bytes != [] {
      var step, rest := CrLfStep(bytes[0], afterCr), ToCrLf(bytes[1..], bytes[0] == CR);
      LfOfCrLf(bytes[1..], bytes[0] == CR);
      SentConcat(LineFeed, step, rest, afterCr);
      assert EndsWithCr(step) == (bytes[0] == CR);
      assert Sent(LineFeed, step, afterCr) == LfStep(bytes[0], afterCr) by {
        LfOfStep(bytes[0], afterCr);
      }
    }
  }

  lemma LfOfStep(b: Byte, afterCr: bool)
    ensures Sent(LineFeed, CrLfStep(b, afterCr), afterCr) == LfStep(b, afterCr)
  {
    var step := CrLfStep(b, afterCr);
    assert step[1..] == if b == LF && !afterCr then [LF] else [];
    if b == LF && !afterCr {
      assert Sent(LineFeed, [LF], true) == LfStep(LF, true) + Sent(LineFeed, [LF][1..], false);
    }
  }

  lemma {:induction false} CrLfEnd(bytes: seq<Byte>, afterCr: bool)
    ensures EndsWithCr(ToCrLf(bytes, afterCr)) == EndsWithCr(bytes)
  {
    if |bytes| > 1 {
      CrLfEnd(bytes[1..], bytes[0] == CR);
    } else if |bytes| == 1 {
      assert ToCrLf(bytes[1..], bytes[0] == CR) == [];
    }
  }

  class NewlineSink {
    const policy: Newline
    const sink: ConsoleSink
    var previousWasCarriageReturn: bool
    var pendingCarriageReturn: bool
    /** All bytes accepted since construction, and what they became. */
    ghost var accepted: seq<Byte>
    ghost var translated: seq<Byte>
    /** Where a flush has ended a text for good: what was sent up to there, and the bytes accepted since. */
    ghost var ended: seq<Byte>
    ghost var current: seq<Byte>

    ghost predicate Valid()
      reads this, sink, sink.decoder, sink.wideBuffer
    {
      && sink.Valid()
      && (if policy.LineFeed? then pendingCarriageReturn else previousWasCarriageReturn) == EndsWithCr(current)
      && translated == ended + Sent(policy, current, false)
      && (!policy.LineFeed? ==> ended == [] && current == accepted)
      && Flatten(sink.segments) + sink.fed == translated
    }

    constructor (policy: Newline)
      ensures Valid() && fresh(sink) && fresh(sink.decoder) && fresh(sink.wideBuffer) && this.policy == policy
      ensures accepted == [] && sink.segments == [] && sink.calls == [] && sink.units == []
    {
      hide ConsoleSink.Valid, ShowsFaithfully, EncodeUtf16, SegmentItems;
      this.policy := policy;
      sink := new ConsoleSink();
      previousWasCarriageReturn, pendingCarriageReturn := false, false;
      accepted, translated, ended, current := [], [], [], [];
      new;
      assert Flatten(sink.segments) == Sent(policy, current, false) == [];
    }

    /** One byte to the console. */
    method Pass(b: Byte)
      requires sink.Valid()
      modifies sink, sink.decoder, sink.wideBuffer
      ensures sink.Valid() && sink.segments == old(sink.segments) && sink.fed == old(sink.fed) + [b]
    {
      var _ := sink.WriteSome([b]);
    }

    /** One byte under the CR LF policy. */
    method PassCrLf(b: Byte)
      requires sink.Valid()
      modifies this`previousWasCarriageReturn, sink, sink.decoder, sink.wideBuffer
      ensures sink.Valid() && sink.segments == old(sink.segments) && previousWasCarriageReturn == (b == CR)
      ensures sink.fed == old(sink.fed) + CrLfStep(b, old(previousWasCarriageReturn))
    {
      hide ConsoleSink.Valid;
      if b == LF && !previousWasCarriageReturn {
        Pass(CR);
      }
      Pass(b);
      previousWasCarriageReturn := b == CR;
    }

    /** One byte under the LF policy. */
    method PassLf(b: Byte)
      requires sink.Valid()
      modifies this`previousWasCarriageReturn, this`pendingCarriageReturn, sink, sink.decoder, sink.wideBuffer
      ensures sink.Valid() && sink.segments == old(sink.segments) && pendingCarriageReturn == (b == CR)
      ensures sink.fed == old(sink.fed) + LfStep(b, old(pendingCarriageReturn))
    {
      hide ConsoleSink.Valid;
      if pendingCarriageReturn {
        Pass(LF);
        pendingCarriageReturn := false;
        if b == LF {
          return;
        }
      }
      if b == CR {
        pendingCarriageReturn := true;
        return;
      }
      Pass(b);
      previousWasCarriageReturn := false;
    }

    /** One byte of input: at most two bytes to the console. */
    method WriteByte(b: Byte)
      requires Valid()
      modifies this, sink, sink.decoder, sink.wideBuffer
      ensures Valid() && accepted == old(accepted) + [b] && sink.segments == old(sink.segments)
      ensures ended == old(ended) && current == old(current) + [b]
    {
      hide ConsoleSink.Valid, Sent, Flatten, CrLfStep, LfStep;
      ghost var before, fed := Flatten(sink.segments), sink.fed;
      SentAppend(policy, current, b, false);
      if policy.CarriageReturnLineFeed? {
        PassCrLf(b);
      } else if policy.LineFeed? {
        PassLf(b);
      } else {
        Pass(b);
        previousWasCarriageReturn := b == CR;
      }
      StepSent(before, fed, sink.fed, Step(policy, b, EndsWithCr(current)));
      accepted, current := accepted + [b], current + [b];
      translated := Flatten(sink.segments) + sink.fed;
    }

    lemma StepSent(before: seq<Byte>, fed: seq<Byte>, fed': seq<Byte>, step: seq<Byte>)
      requires fed' == fed + step
      ensures before + fed' == before + fed + step
    {
    }

    /** However the input is split into writes, the console receives the translation of all of it. */
    method WriteSome(bytes: seq<Byte>) returns (r: Result<nat>)
      requires Valid()
      modifies this, sink, sink.decoder, sink.wideBuffer
      ensures Valid() && r == Ok(|bytes|)
      ensures accepted == old(accepted) + bytes && sink.segments == old(sink.segments)
      ensures ended == old(ended) && current == old(current) + bytes
    {
      hide Valid;
      for index := 0 to |bytes|
        invariant Valid() && sink.segments == old(sink.segments)
        invariant accepted == old(accepted) + bytes[..index]
        invariant ended == old(ended) && current == old(current) + bytes[..index]
      {
        WriteByte(bytes[index]);
      }
      return Ok(|bytes|);
    }

    /** Sends a carriage return still held back, as a line feed, and flushes the console. */
    method Flush()
      requires Valid()
      modifies this, sink, sink.decoder, sink.wideBuffer
      ensures Valid() && accepted == old(accepted)
      ensures policy.LineFeed? ==> current == [] && translated == ended == old(ended) + ToLf(old(current))
      ensures !policy.LineFeed? ==> translated == old(translated) && current == old(current)
      ensures sink.fed == [] && Flatten(sink.segments) == translated
      ensures !policy.LineFeed? ==> sink.segments == old(sink.segments) + [old(sink.fed)]
      ensures sink.units == EncodeUtf16(Replaced(SegmentItems(sink.segments)))
      ensures 0 !in sink.units ==> Flatten(sink.calls) == sink.units
    {
      hide ConsoleSink.Valid, Flatten;
      if policy.LineFeed? {
        ghost var segments, fed := Flatten(sink.segments), sink.fed;
        if pendingCarriageReturn {
          var _ := sink.WriteSome([LF]);
          StepSent(segments, fed, sink.fed, [LF]);
          pendingCarriageReturn := false;
        }
        translated := segments + sink.fed;
        ended, current := translated, [];
        assert ended + [] == ended;
      }
      FlattenAppend(sink.segments, sink.fed);
      sink.Flush();
      assert translated + [] == translated;
    }
  }

  // ------------------------------------------------ sinks in general

  /**
   A byte sink as its callers see it: a borrowed reference either to the console's newline stage or to
   a sink about which nothing is known but the transfer contract.  It accepts some prefix, or fails
   having accepted nothing.
   */
  class Sink {
    const console: NewlineSink?
    ghost var received: seq<Byte>

    ghost function Footprint(): (objects: set<object>)
    {
      if console == null then {this}
      else {this, console, console.sink, console.sink.decoder, console.sink.wideBuffer}
    }

    ghost predicate Valid()
      reads Footprint()
    {
      console != null ==> console.Valid() && console.policy.CarriageReturnLineFeed? && console.accepted == received
    }

    /** What the console was given before each completed flush. */
    ghost function Segments(): seq<seq<Byte>>
      reads Footprint()
    {
      if console == null then [] else console.sink.segments
    }

    /** A console and its text are in step: everything written has been flushed and shown. */
    ghost predicate AllShown()
      reads Footprint()
    {
      console != null ==>
        && console.sink.fed == []
        && console.sink.units == EncodeUtf16(Replaced(SegmentItems(console.sink.segments)))
        && (0 !in console.sink.units ==> Flatten(console.sink.calls) == console.sink.units)
    }

    constructor Console()
      ensures Valid() && console != null && fresh(Footprint())
      ensures received == [] && console.sink.segments == [] && console.sink.calls == [] && console.sink.units == []
    {
      console := new NewlineSink(CarriageReturnLineFeed);
      received := [];
      new;
      hide NewlineSink.Valid;
    }

    constructor Unknown()
      ensures Valid() && console == null && received == [] && fresh(Footprint())
    {
      console, received := null, [];
    }

    method WriteSome(bytes: seq<Byte>) returns (r: Result<nat>)
      requires Valid()
      modifies Footprint()
      ensures Valid()
      ensures r.Ok? ==> r.value <= |bytes| && received == old(received) + bytes[..r.value]
      ensures r.Err? ==> received == old(received)
      ensures Segments() == old(Segments()) && (console != null ==> r == Ok(|bytes|))
    {
      if console != null {
        r := console.WriteSome(bytes);
        received := received + bytes;
        assert bytes[..|bytes|] == bytes;
      } else if * {
        var code: ErrorCode :| true;
        r := Err(code);
      } else {
        var n: nat :| n <= |bytes|;
        r := Ok(n);
        received := received + bytes[..n];
      }
    }

    method Flush() returns (r: Result<()>)
      requires Valid()
      modifies Footprint()
      ensures Valid() && received == old(received)
      ensures console != null ==> r.Ok? && Segments() == old(Segments()) + [old(console.sink.fed)]
      ensures r.Ok? ==> AllShown()
    {
      if console != null {
        console.Flush();
        r := Ok(());
      } else if * {
        var code: ErrorCode :| true;
        r := Err(code);
      } else {
        r := Ok(());
      }
    }
  }

  class BufferedSink {
    const sink: Sink
    const buffer: array<Byte>
    var length: nat
    /** Every byte a `WriteSome` has reported as accepted, in order. */
    ghost var accepted: seq<Byte>

    ghost function Footprint(): set<object> { {this, buffer} + sink.Footprint() }

    /** Conservation: what the sink has received followed by what is buffered is what has been accepted. */
    ghost predicate Valid()
      reads Footprint()
    {
      && this !in sink.Footprint() && buffer !in sink.Footprint()
      && sink.Valid() && 0 < buffer.Length && length <= buffer.Length
      && sink.received + buffer[..length] == accepted
    }

    constructor (sink: Sink, capacity: nat)
      requires sink.Valid() && 0 < capacity
      ensures Valid() && this.sink == sink && fresh(this) && fresh(buffer) && buffer.Length == capacity
      ensures accepted == sink.received && length == 0
    {
      this.sink := sink;
      buffer := new Byte[capacity](_ => 0);
      length, accepted := 0, sink.received;
    }

    /** Moves what the sink has not taken to the front of the buffer. */
    method Compact(written: nat)
      requires written <= length <= buffer.Length
      modifies this`length, buffer
      ensures length == old(length) - written <= buffer.Length
      ensures buffer[..length] == old(buffer[written..length])
    {
      if written != 0 {
        forall i | 0 <= i < length - written {
          buffer[i] := buffer[i + written];
        }
        length := length - written;
      }
    }

    /** Copies bytes behind what is already buffered. */
    method Hold(bytes: seq<Byte>)
      requires Valid() && length + |bytes| <= buffer.Length
      modifies this, buffer
      ensures Valid() && length == old(length) + |bytes| && accepted == old(accepted) + bytes
    {
      hide Sink.Valid, Sink.Segments, Sink.AllShown;
      ghost var held := buffer[..length];
      forall i | 0 <= i < |bytes| {
        buffer[length + i] := bytes[i];
      }
      assert buffer[..length + |bytes|] == held + bytes;
      length := length + |bytes|;
      accepted := accepted + bytes;
    }

    method FlushBuffer() returns (r: Result<()>)
      requires Valid()
      modifies Footprint()
      ensures Valid() && accepted == old(accepted)
      ensures length <= old(length) && (r.Ok? ==> length == 0)
      ensures sink.Segments() == old(sink.Segments()) && (sink.console != null ==> r.Ok?)
    {
      hide Sink.Valid, Sink.Segments, Sink.AllShown;
      var written := 0;
      assert buffer[0..length] == buffer[..length];
      while written < length
        invariant written <= length == old(length) && sink.Valid() && accepted == old(accepted)
        invariant sink.received + buffer[written..length] == accepted
        invariant sink.Segments() == old(sink.Segments())
      {
        ghost var left := buffer[written..length];
        var sent := sink.WriteSome(buffer[written..length]);
        assert buffer[written..length] == left;
        if sent.Err? {
          Compact(written);
          return Err(sent.code);
        }
        if sent.value == 0 {
          Compact(written);
          return Err(NoProgress);
        }
        written := written + sent.value;
        assert left == left[..sent.value] + buffer[written..length];
      }
      length := 0;
      return Ok(());
    }

    method WriteSome(bytes: seq<Byte>) returns (r: Result<nat>)
      requires Valid()
      modifies Footprint()
      ensures Valid()
      ensures r.Ok? ==>
        r.value <= |bytes| && accepted == old(accepted) + bytes[..r.value] && (r.value == 0 ==> bytes == [])
      ensures r.Err? ==> accepted == old(accepted)
      ensures sink.Segments() == old(sink.Segments()) && (sink.console != null ==> r == Ok(|bytes|))
    {
      hide Sink.Valid, Sink.Segments, Sink.AllShown;
      if bytes == [] {
        return Ok(0);
      }
      var taken := 0;
      while taken < |bytes|
        invariant taken <= |bytes| && Valid() && accepted == old(accepted) + bytes[..taken]
        invariant sink.Segments() == old(sink.Segments())
      {
        if length == buffer.Length {
          var flushed := FlushBuffer();
          if flushed.Err? {
            if taken != 0 {
              return Ok(taken);
            }
            return Err(flushed.code);
          }
        }
        var count := Min(buffer.Length - length, |bytes| - taken);
        Hold(bytes[taken..taken + count]);
        assert bytes[..taken + count] == bytes[..taken] + bytes[taken..taken + count];
        taken := taken + count;
      }
      return Ok(taken);
    }

    /** A successful flush leaves nothing behind. */
    method Flush() returns (r: Result<()>)
      requires Valid()
      modifies Footprint()
      ensures Valid() && accepted == old(accepted)
      ensures r.Ok? ==> length == 0 && sink.received == accepted
      ensures r.Ok? ==> sink.AllShown()
      ensures sink.console != null ==> r.Ok? && |sink.Segments()| == |old(sink.Segments())| + 1
    {
      r := FlushBuffer();
      if r.Err? {
        return;
      }
      r := sink.Flush();
    }
  }

  /** Writes everything or reports how it stopped; either way what was accepted is a prefix of `bytes`. */
  method WriteAll(sink: BufferedSink, bytes: seq<Byte>) returns (r: Result<()>, ghost written: nat)
    requires sink.Valid()
    modifies sink.Footprint()
    ensures sink.Valid() && written <= |bytes|
    ensures sink.accepted == old(sink.accepted) + bytes[..written]
    ensures r.Ok? ==> written == |bytes|
    ensures sink.sink.Segments() == old(sink.sink.Segments()) && (sink.sink.console != null ==> r.Ok?)
  {
    hide BufferedSink.Valid, Sink.Valid;
    written := 0;
    var done := 0;
    while done < |bytes|
      invariant written == done <= |bytes| && sink.Valid()
      invariant sink.accepted == old(sink.accepted) + bytes[..done]
      invariant sink.sink.Segments() == old(sink.sink.Segments())
    {
      var sent := sink.WriteSome(bytes[done..]);
      if sent.Err? {
        return Err(sent.code), written;
      }
      if sent.value == 0 {
        return Err(NoProgress), written;
      }
      assert bytes[..done] + bytes[done..][..sent.value] == bytes[..done + sent.value];
      done := done + sent.value;
      written := done;
    }
    return Ok(()), written;
  }
}
