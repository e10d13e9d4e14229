/**
 The incremental UTF-8 decoder, the two encoders and the two converters.
 Each is an imperative program over fields, arrays or growing output, proved against the batch
 specification of module `Unicode`.
 */
module Utf {
  import opened Core
  import opened Unicode

  datatype InvalidEncodingPolicy = Reject | Replace
  datatype Utf8DecodeStep = Utf8DecodeStep(codePoint: Option<CodePoint>, consumed: bool)

  /** The beginning of a character: its lead byte and some, but not all, of its continuation bytes. */
  predicate IsIncomplete(bytes: seq<Byte>) {
    && bytes != [] && TailNeeded(bytes[0]).Some? && |bytes| <= TailNeeded(bytes[0]).value
    && forall i :: 1 <= i < |bytes| ==> IsContinuation(bytes[i])
  }

  /** Having read `before` is, for every continuation, the same as having output `out` and read `after`. */
  ghost predicate Emits(before: seq<Byte>, after: seq<Byte>, out: seq<Item>) {
    forall rest: seq<Byte> :: Utf8Items(before + rest) == out + Utf8Items(after + rest)
  }

  /** `items` have been decoded from the front of `source`, and decoding `left` gives the rest. */
  ghost predicate Decoded(source: seq<Byte>, items: seq<Item>, left: seq<Byte>) {
    Utf8Items(source) == items + Utf8Items(left)
  }

  lemma Advance(source: seq<Byte>, items: seq<Item>, before: seq<Byte>, after: seq<Byte>, out: seq<Item>,
                rest: seq<Byte>)
    requires Decoded(source, items, before + rest) && Emits(before, after, out)
    ensures Decoded(source, items + out, after + rest)
  {
    assert items + (out + Utf8Items(after + rest)) == items + out + Utf8Items(after + rest);
  }

  /** A malformed piece already decoded makes the whole input malformed. */
  lemma AdvanceBad(source: seq<Byte>, items: seq<Item>, before: seq<Byte>, after: seq<Byte>, rest: seq<Byte>)
    requires Decoded(source, items, before + rest) && Emits(before, after, [Bad])
    ensures !Clean(Utf8Items(source))
  {
    Advance(source, items, before, after, [Bad], rest);
    assert Utf8Items(source)[|items|] == Bad;
  }

  lemma EmitsNothing(bytes: seq<Byte>)
    ensures Emits(bytes, bytes, [])
  {
  }

  lemma EmitsTrans(x: seq<Byte>, y: seq<Byte>, z: seq<Byte>, first: seq<Item>, second: seq<Item>)
    requires Emits(x, y, first) && Emits(y, z, second)
    ensures Emits(x, z, first + second)
  {
    forall rest: seq<Byte> ensures Utf8Items(x + rest) == first + second + Utf8Items(z + rest) {
      assert first + (second + Utf8Items(z + rest)) == first + second + Utf8Items(z + rest);
    }
  }

  lemma EmitsExtend(before: seq<Byte>, after: seq<Byte>, out: seq<Item>, b: Byte)
    requires Emits(before, after, out)
    ensures Emits(before + [b], after + [b], out)
  {
    forall rest: seq<Byte> ensures Utf8Items(before + [b] + rest) == out + Utf8Items(after + [b] + rest) {
      assert before + [b] + rest == before + ([b] + rest) && after + [b] + rest == after + ([b] + rest);
    }
  }

  lemma EmitsToEnd(before: seq<Byte>, after: seq<Byte>, out: seq<Item>)
    requires Emits(before, after, out)
    ensures Utf8Items(before) == out + Utf8Items(after)
  {
    assert before + [] == before && after + [] == after;
  }

  /** What stays unread after a byte: the incomplete character, and the byte itself if it was not consumed. */
  function Unread(pending: seq<Byte>, b: Byte, consumed: bool): seq<Byte> {
    if consumed then pending else pending + [b]
  }

  /** One byte at a character boundary. */
  lemma FeedAtBoundary(b: Byte)
    ensures TailNeeded(b) == None ==> Emits([b], [], [Bad])
    ensures TailNeeded(b) == Some(0) ==> Emits([b], [], [Char(b)])
    ensures TailNeeded(b).Some? && TailNeeded(b).value > 0 ==> IsIncomplete([b])
  {
    forall rest: seq<Byte>
      ensures TailNeeded(b) == None ==> Utf8Items([b] + rest) == [Bad] + Utf8Items([] + rest)
      ensures TailNeeded(b) == Some(0) ==> Utf8Items([b] + rest) == [Char(b)] + Utf8Items([] + rest)
    {
      assert ([b] + rest)[1..] == rest && [] + rest == rest;
      assert ([b] + rest)[..1] == [b];
    }
  }

  /** A byte that is not a continuation byte ends an incomplete character and is looked at again. */
  lemma FeedInterrupts(pending: seq<Byte>, b: Byte)
    requires IsIncomplete(pending) && !IsContinuation(b)
    ensures Emits(pending + [b], [b], [Bad])
  {
    forall rest: seq<Byte> ensures Utf8Items(pending + [b] + rest) == [Bad] + Utf8Items([b] + rest) {
      assert pending + [b] + rest == pending + ([b] + rest);
      ShortTailIsBad(pending, [b] + rest);
    }
  }

  /** A lead byte followed by too few continuation bytes is one malformed piece. */
  lemma ShortTailIsBad(pending: seq<Byte>, rest: seq<Byte>)
    requires IsIncomplete(pending) && (rest == [] || !IsContinuation(rest[0]))
    ensures Utf8Items(pending + rest) == [Bad] + Utf8Items(rest)
  {
    var all := pending + rest;
    assert all[1..] == pending[1..] + rest;
    TailLengthOver(pending[1..], rest, TailNeeded(pending[0]).value);
    assert TailLength(all[1..], TailNeeded(pending[0]).value) == |pending| - 1;
    assert all[|pending|..] == rest;
  }

  /** A continuation byte either extends the incomplete character or completes it. */
  lemma FeedContinues(pending: seq<Byte>, b: Byte)
    requires IsIncomplete(pending) && IsContinuation(b)
    ensures if |pending| < TailNeeded(pending[0]).value then IsIncomplete(pending + [b])
            else IsGathered(pending + [b]) && Emits(pending + [b], [], [Assemble(pending + [b])])
  {
    hide Utf8Items, Assemble;
    if |pending| == TailNeeded(pending[0]).value {
      var full := pending + [b];
      forall rest: seq<Byte> ensures Utf8Items(full + rest) == [Assemble(full)] + Utf8Items([] + rest) {
        Utf8ItemsOfGathered(full, rest);
        assert [] + rest == rest;
      }
    }
  }

  /** An incomplete character at the end of input is one malformed piece. */
  lemma IncompleteAtEnd(pending: seq<Byte>)
    requires IsIncomplete(pending)
    ensures Utf8Items(pending) == [Bad]
  {
    ShortTailIsBad(pending, []);
    assert pending + [] == pending;
  }

  lemma PayloadOfLead(b: Byte)
    ensures Payload([b]) == LeadBits(b)
  {
  }

  /** How the value of a complete character is judged. */
  lemma AssembleValue(bytes: seq<Byte>)
    requires bytes != []
    ensures Assemble(bytes) == if Payload(bytes) >= LeadMinimum(bytes[0]) && IsValidCodePoint(Payload(bytes))
                               then Char(Payload(bytes)) else Bad
  {
  }

  /** The byte the decoder stumbles over: it starts nothing, continues nothing, or completes no character. */
  predicate Offends(pending: seq<Byte>, b: Byte) {
    if pending == [] then TailNeeded(b) == None
    else !IsContinuation(b) || TailNeeded(pending[0]) == Some(|pending|)
  }

  class Utf8Decoder {
    var codePoint: Char32
    var minimum: Char32
    var remaining: Byte
    /** The bytes read since the last character boundary. */
    ghost var pending: seq<Byte>

    ghost predicate Valid()
      reads this
    {
      if pending == [] then codePoint == 0 && minimum == 0 && remaining == 0
      else
        && IsIncomplete(pending)
        && codePoint == Payload(pending)
        && minimum == LeadMinimum(pending[0])
        && remaining == TailNeeded(pending[0]).value + 1 - |pending|
    }

    constructor ()
      ensures Valid() && pending == []
    {
      codePoint, minimum, remaining, pending := 0, 0, 0, [];
    }

    lemma PendingIsIncomplete()
      requires Valid()
      ensures pending == [] || IsIncomplete(pending)
    {
    }

    predicate Complete()
      reads this
      requires Valid()
      ensures Complete() <==> pending == []
    {
      remaining == 0
    }

    method Reset()
      modifies this
      ensures Valid() && pending == []
    {
      codePoint, minimum, remaining, pending := 0, 0, 0, [];
    }

    /** Reads one byte.  `emitted` is what the batch decoding says of it; the result reports that under the policy. */
    method Feed(b: Byte, policy: InvalidEncodingPolicy) returns (r: Result<Utf8DecodeStep>, ghost emitted: seq<Item>)
      requires Valid()
      modifies this
      ensures Valid() && |emitted| <= 1
      ensures r.Err? <==> policy.Reject? && emitted == [Bad]
      ensures r.Err? ==> r.code == InvalidEncoding && pending == []
      ensures r.Err? ==> exists after :: Emits(old(pending) + [b], after, [Bad])
      ensures r.Err? ==> Offends(old(pending), b)
      ensures r.Ok? ==>
        && r.value.codePoint == (if emitted == [] then None else Some(ReplaceItem(emitted[0])))
        && Emits(old(pending) + [b], Unread(pending, b, r.value.consumed), emitted)
        && (!r.value.consumed ==> old(pending) != [] && pending == [] && emitted == [Bad])
        && (if emitted == [] then pending == old(pending) + [b] else pending == [])
        && (r.value.consumed && old(pending) != [] ==> IsContinuation(b))
    {
      hide Emits, Utf8Items, Payload, Assemble;
      EmitsNothing(pending + [b]);
      if remaining == 0 {
        FeedAtBoundary(b);
        PayloadOfLead(b);
        assert pending + [b] == [b];
        if b <= 0x7F {
          return Ok(Utf8DecodeStep(Some(b), true)), [Char(b)];
        }
        if 0xC2 <= b <= 0xDF {
          codePoint, minimum, remaining := LeadBits(b), 0x80, 1;
          pending := [b];
          return Ok(Utf8DecodeStep(None, true)), [];
        }
        if 0xE0 <= b <= 0xEF {
          codePoint, minimum, remaining := LeadBits(b), 0x800, 2;
          pending := [b];
          return Ok(Utf8DecodeStep(None, true)), [];
        }
        if 0xF0 <= b <= 0xF4 {
          codePoint, minimum, remaining := LeadBits(b), 0x10000, 3;
          pending := [b];
          return Ok(Utf8DecodeStep(None, true)), [];
        }
        if policy.Replace? {
          return Ok(Utf8DecodeStep(Some(REPLACEMENT), true)), [Bad];
        }
        return Err(InvalidEncoding), [Bad];
      }
      if !IsContinuation(b) {
        FeedInterrupts(pending, b);
        Reset();
        if policy.Replace? {
          assert pending + [b] == [b];
          return Ok(Utf8DecodeStep(Some(REPLACEMENT), false)), [Bad];
        }
        return Err(InvalidEncoding), [Bad];
      }
      FeedContinues(pending, b);
      PayloadAppend(pending, b);
      PayloadBound(pending);
      codePoint := codePoint * 64 + SixBits(b);
      remaining := remaining - 1;
      ghost var full := pending + [b];
      if remaining != 0 {
        pending := full;
        return Ok(Utf8DecodeStep(None, true)), [];
      }
      var value := codePoint;
      var valid := value >= minimum && IsValidCodePoint(value);
      Reset();
      AssembleValue(full);
      if !valid {
        if policy.Replace? {
          return Ok(Utf8DecodeStep(Some(REPLACEMENT), true)), [Bad];
        }
        return Err(InvalidEncoding), [Bad];
      }
      return Ok(Utf8DecodeStep(Some(value), true)), [Char(value)];
    }

    /** Ends the input. */
    method Finish(policy: InvalidEncodingPolicy) returns (r: Result<Option<CodePoint>>)
      requires Valid()
      modifies this
      ensures Valid() && pending == []
      ensures Utf8Items(old(pending)) == if old(pending) == [] then [] else [Bad]
      ensures r == if old(pending) == [] then Ok(None)
                   else if policy.Replace? then Ok(Some(REPLACEMENT)) else Err(InvalidEncoding)
    {
      if Complete() {
        return Ok(None);
      }
      IncompleteAtEnd(pending);
      Reset();
      if policy.Replace? {
        return Ok(Some(REPLACEMENT));
      }
      return Err(InvalidEncoding);
    }
  }

  /** Gathering never overflows the 32-bit accumulator. */
  lemma PayloadBound(pending: seq<Byte>)
    requires IsIncomplete(pending)
    ensures Payload(pending) * 64 + 63 < 0x1_0000_0000
  {
    PayloadByLength(pending);
  }

  method EncodeUtf8Into(codePoint: Char32, output: array<Byte>) returns (r: Result<nat>)
    requires output.Length == 4
    modifies output
    ensures r == if IsValidCodePoint(codePoint) then Ok(|Utf8Of(codePoint)|) else Err(InvalidEncoding)
    ensures r.Ok? ==> output[..r.value] == Utf8Of(codePoint)
  {
    if !IsValidCodePoint(codePoint) {
      return Err(InvalidEncoding);
    }
    if codePoint <= 0x7F {
      output[0] := codePoint;
      return Ok(1);
    }
    if codePoint <= 0x7FF {
      output[0] := 0xC0 + codePoint / 64;
      output[1] := 0x80 + codePoint % 64;
      return Ok(2);
    }
    if codePoint <= 0xFFFF {
      output[0] := 0xE0 + codePoint / 4096;
      output[1] := 0x80 + codePoint / 64 % 64;
      output[2] := 0x80 + codePoint % 64;
      return Ok(3);
    }
    output[0] := 0xF0 + codePoint / 262144;
    output[1] := 0x80 + codePoint / 4096 % 64;
    output[2] := 0x80 + codePoint / 64 % 64;
    output[3] := 0x80 + codePoint % 64;
    return Ok(4);
  }

  method EncodeUtf16Into(codePoint: Char32, output: array<Char16>) returns (r: Result<nat>)
    requires output.Length == 2
    modifies output
    ensures r == if IsValidCodePoint(codePoint) then Ok(|Utf16Of(codePoint)|) else Err(InvalidEncoding)
    ensures r.Ok? ==> output[..r.value] == Utf16Of(codePoint)
  {
    if !IsValidCodePoint(codePoint) {
      return Err(InvalidEncoding);
    }
    if codePoint <= 0xFFFF {
      output[0] := codePoint;
      return Ok(1);
    }
    var offset := codePoint - 0x10000;
    output[0] := 0xD800 + offset / 1024;
    output[1] := 0xDC00 + offset % 1024;
    return Ok(2);
  }

  /** What converting should give: the encoding of the decoded text, or a rejection of malformed input. */
  function Converted<T>(items: seq<Item>, encoded: seq<T>, policy: InvalidEncodingPolicy): Result<seq<T>> {
    if policy.Replace? || Clean(items) then Ok(encoded) else Err(InvalidEncoding)
  }

  method Utf16ToUtf8(source: seq<Char16>, policy: InvalidEncodingPolicy) returns (r: Result<seq<Byte>>)
    ensures r == Converted(Utf16Items(source), EncodeUtf8(Replaced(Utf16Items(source))), policy)
  {
    var output: seq<Byte> := [];
    var encoded := new Byte[4](_ => 0);
    var index := 0;
    ghost var items: seq<Item> := [];
    assert output == EncodeUtf8(Replaced(items));
    hide EncodeUtf8, Utf8Of, Replaced;
    while index < |source|
      invariant 0 <= index <= |source|
      invariant Decoded16(source, items, source[index..])
      invariant output == EncodeUtf8(Replaced(items))
      invariant policy.Reject? ==> Clean(items)
    {
      var codePoint: Char32 := source[index];
      ghost var item, left := Char(REPLACEMENT), source[index..];
      if IsHigh(source[index]) {
        if index + 1 < |source| && IsLow(source[index + 1]) {
          codePoint := JoinSurrogates(source[index], source[index + 1]);
          item := Char(codePoint);
          index := index + 1;
        } else if policy.Replace? {
          codePoint, item := REPLACEMENT, Bad;
        } else {
          Advance16(source, items, left, Bad, source[index + 1..]);
          assert Utf16Items(source)[|items|] == Bad;
          return Err(InvalidEncoding);
        }
      } else if IsLow(source[index]) {
        if policy.Replace? {
          codePoint, item := REPLACEMENT, Bad;
        } else {
          Advance16(source, items, left, Bad, source[index + 1..]);
          assert Utf16Items(source)[|items|] == Bad;
          return Err(InvalidEncoding);
        }
      } else {
        item := Char(codePoint);
      }
      index := index + 1;
      Advance16(source, items, left, item, source[index..]);
      AppendItemUtf8(items, item);
      var count := EncodeUtf8Into(codePoint, encoded);
      output := output + encoded[..count.value];
      items := items + [item];
    }
    assert items == Utf16Items(source);
    return Ok(output);
  }

  ghost predicate Decoded16(source: seq<Char16>, items: seq<Item>, left: seq<Char16>) {
    Utf16Items(source) == items + Utf16Items(left)
  }

  lemma Advance16(source: seq<Char16>, items: seq<Item>, left: seq<Char16>, item: Item, left': seq<Char16>)
    requires Decoded16(source, items, left) && Utf16Items(left) == [item] + Utf16Items(left')
    ensures Decoded16(source, items + [item], left')
  {
  }

  lemma AppendItemUtf8(items: seq<Item>, item: Item)
    ensures EncodeUtf8(Replaced(items + [item])) == EncodeUtf8(Replaced(items)) + Utf8Of(ReplaceItem(item))
  {
    assert Replaced(items + [item]) == Replaced(items) + [ReplaceItem(item)];
    EncodeUtf8Append(Replaced(items), [ReplaceItem(item)]);
    assert EncodeUtf8([ReplaceItem(item)]) == Utf8Of(ReplaceItem(item)) + EncodeUtf8([]);
  }

  /** The converter's answers in terms of the grammar, and the reserve it makes up front. */
  lemma Utf8ToUtf16Meaning(source: seq<Byte>, policy: InvalidEncodingPolicy)
    ensures var r := Converted(Utf8Items(source), EncodeUtf16(Replaced(Utf8Items(source))), policy);
            && (policy.Reject? ==> (r.Ok? <==> WellFormed(source)))
            && (policy.Replace? ==> r.Ok?)
            && (r.Ok? ==> |r.value| <= |source| && Clean(Utf16Items(r.value)))
  {
    AcceptsExactlyTheGrammar(source);
    Utf16NoLonger(source);
    DecodeEncodeUtf16(Replaced(Utf8Items(source)));
  }

  method AppendCodePoint(output: seq<Char16>, codePoint: CodePoint) returns (output': seq<Char16>)
    ensures output' == output + Utf16Of(codePoint)
  {
    var encoded := new Char16[2](_ => 0);
    var count := EncodeUtf16Into(codePoint, encoded);
    output' := output;
    for unit := 0 to count.value
      invariant output' == output + encoded[..unit]
    {
      output' := output' + [encoded[unit]];
    }
  }

  /** `output` is the UTF-16 of the items decoded so far, all of them acceptable to the policy. */
  ghost predicate Produced(output: seq<Char16>, items: seq<Item>, policy: InvalidEncodingPolicy) {
    output == EncodeUtf16(Replaced(items)) && (policy.Reject? ==> Clean(items))
  }

  /** The body of the conversion loop: one source byte, fed until it is consumed. */
  method ConvertByte(decoder: Utf8Decoder, b: Byte, policy: InvalidEncodingPolicy, output: seq<Char16>,
                     ghost source: seq<Byte>, ghost items: seq<Item>, ghost rest: seq<Byte>)
    returns (r: Result<seq<Char16>>, ghost items': seq<Item>)
    requires decoder.Valid()
    requires Decoded(source, items, decoder.pending + [b] + rest) && Produced(output, items, policy)
    modifies decoder
    ensures decoder.Valid()
    ensures r.Ok? ==> Decoded(source, items', decoder.pending + rest) && Produced(r.value, items', policy)
    ensures r.Err? ==> r.code == InvalidEncoding && policy.Reject? && !Clean(Utf8Items(source))
  {
    hide Utf8Items, Emits, EncodeUtf16, Replaced;
    var text := output;
    items' := items;
    var consumed := false;
    while !consumed
      invariant decoder.Valid()
      invariant Decoded(source, items', Unread(decoder.pending, b, consumed) + rest)
      invariant Produced(text, items', policy)
      decreases if consumed then 0 else |decoder.pending| + 1
    {
      ghost var before := decoder.pending + [b];
      var decoded, emitted := decoder.Feed(b, policy);
      if decoded.Err? {
        ghost var after :| Emits(before, after, [Bad]);
        AdvanceBad(source, items', before, after, rest);
        return Err(decoded.code), items';
      }
      consumed := decoded.value.consumed;
      Advance(source, items', before, Unread(decoder.pending, b, consumed), emitted, rest);
      if decoded.value.codePoint.Some? {
        text := AppendCodePoint(text, decoded.value.codePoint.value);
      }
      AppendEmitted(items', emitted);
      items' := items' + emitted;
    }
    return Ok(text), items';
  }

  method Utf8ToUtf16(source: seq<Byte>, policy: InvalidEncodingPolicy) returns (r: Result<seq<Char16>>)
    ensures r == Converted(Utf8Items(source), EncodeUtf16(Replaced(Utf8Items(source))), policy)
  {
    hide Emits, Utf8Items;
    var output: seq<Char16> := [];
    var decoder := new Utf8Decoder();
    ghost var items: seq<Item> := [];
    assert [] + source[0..] == source;
    for index := 0 to |source|
      invariant decoder.Valid()
      invariant Decoded(source, items, decoder.pending + source[index..])
      invariant Produced(output, items, policy)
    {
      ghost var rest := source[index + 1..];
      assert decoder.pending + source[index..] == decoder.pending + [source[index]] + rest;
      var converted, items' := ConvertByte(decoder, source[index], policy, output, source, items, rest);
      if converted.Err? {
        return converted;
      }
      output, items := converted.value, items';
    }
    assert decoder.pending + source[|source|..] == decoder.pending;
    ghost var last := Utf8Items(decoder.pending);
    assert Utf8Items(source) == items + last;
    var finished := decoder.Finish(policy);
    assert last == [] || (last == [Bad] && Utf8Items(source)[|items|] == Bad);
    if finished.Err? {
      return Err(finished.code);
    }
    if finished.value.Some? {
      output := AppendCodePoint(output, finished.value.value);
    }
    AppendEmitted(items, last);
    assert output == EncodeUtf16(Replaced(items + last));
    assert policy.Replace? || items + last == items;
    return Ok(output);
  }

  lemma AppendEmitted(items: seq<Item>, emitted: seq<Item>)
    requires |emitted| <= 1
    ensures EncodeUtf16(Replaced(items + emitted))
         == EncodeUtf16(Replaced(items)) + (if emitted == [] then [] else Utf16Of(ReplaceItem(emitted[0])))
  {
    assert Replaced(items + emitted) == Replaced(items) + Replaced(emitted);
    EncodeUtf16Append(Replaced(items), Replaced(emitted));
  }
}
