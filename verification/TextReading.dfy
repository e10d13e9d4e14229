/**
 Reading text from a buffered source: code points, whitespace-separated tokens and lines, each
 against a specification on the bytes still to come.
 */
module TextReading {
  import opened Core
  import opened Unicode
  import opened Utf
  import opened Sources

  datatype ReadTextOptions = ReadTextOptions(maximumSize: nat, invalidEncoding: InvalidEncodingPolicy)

  predicate IsWhitespace(b: Byte) {
    b == 32 || b == 9 || b == 13 || b == 10 || b == 12 || b == 11
  }

  predicate IsLineEnd(b: Byte) { b == 13 || b == 10 }

  /** Which bytes end a piece of text: white space for a token, CR or LF for a line. */
  datatype Stop = AtWhitespace | AtLineEnd {
    predicate At(b: Byte) { if AtWhitespace? then IsWhitespace(b) else IsLineEnd(b) }
  }

  // ------------------------------------------------------------ the specification

  /** How many leading bytes are white space. */
  function Blank(bytes: seq<Byte>): (n: nat)
    ensures n <= |bytes| && (n < |bytes| ==> !IsWhitespace(bytes[n]))
    ensures forall i :: 0 <= i < n ==> IsWhitespace(bytes[i])
  {
    if bytes == [] || !IsWhitespace(bytes[0]) then 0 else 1 + Blank(bytes[1..])
  }

  /** How many leading bytes come before the first one that stops the piece. */
  function Run(bytes: seq<Byte>, stop: Stop): (n: nat)
    ensures n <= |bytes| && (n < |bytes| ==> stop.At(bytes[n]))
    ensures forall i :: 0 <= i < n ==> !stop.At(bytes[i])
  {
    if bytes == [] || stop.At(bytes[0]) then 0 else 1 + Run(bytes[1..], stop)
  }

  /** The first thing wrong with a piece that decodes to `items`, `size` bytes of output already used. */
  function Fault(items: seq<Item>, size: nat, options: ReadTextOptions): Option<ErrorCode> {
    if items == [] then None
    else if size >= options.maximumSize then Some(Overflow)
    else if items[0].Bad? && options.invalidEncoding.Reject? then Some(InvalidEncoding)
    else
      var grown := size + |Utf8Of(ReplaceItem(items[0]))|;
      if grown > options.maximumSize then Some(Overflow) else Fault(items[1..], grown, options)
  }

  /** A piece of text and the bytes left behind it. */
  datatype Piece = Piece(text: seq<Byte>, rest: seq<Byte>)

  /** The decoded text up to the first stop, and what stands behind it. */
  function PieceItems(bytes: seq<Byte>, stop: Stop): seq<Item> { Utf8Items(bytes[..Run(bytes, stop)]) }
  function Behind(bytes: seq<Byte>, stop: Stop): seq<Byte> { bytes[Run(bytes, stop)..] }

  function PieceOf(bytes: seq<Byte>, stop: Stop, options: ReadTextOptions): Result<Piece> {
    var items := PieceItems(bytes, stop);
    match Fault(items, 0, options)
    case Some(code) => Err(code)
    case None => Ok(Piece(EncodeUtf8(Replaced(items)), Behind(bytes, stop)))
  }

  function TokenOf(remaining: seq<Byte>, options: ReadTextOptions): Result<Piece> {
    var bytes := remaining[Blank(remaining)..];
    if bytes == [] then Err(EndOfFile) else PieceOf(bytes, AtWhitespace, options)
  }

  /** How many bytes the line terminator in front takes: CR, LF or CR LF. */
  function TerminatorLength(bytes: seq<Byte>): (n: nat)
    ensures n <= |bytes|
  {
    if bytes == [] || !IsLineEnd(bytes[0]) then 0
    else if bytes[0] == 13 && |bytes| > 1 && bytes[1] == 10 then 2
    else 1
  }

  function LineOf(remaining: seq<Byte>, options: ReadTextOptions, keepTerminator: bool): Result<Piece> {
    if remaining == [] then Err(EndOfFile)
    else match PieceOf(remaining, AtLineEnd, options)
      case Err(code) => Err(code)
      case Ok(piece) =>
        var n := TerminatorLength(piece.rest);
        Ok(Piece(if keepTerminator then piece.text + piece.rest[..n] else piece.text, piece.rest[n..]))
  }

  // ------------------------------------------------------------ decoding piece by piece

  lemma FirstInFrontOf(front: seq<Byte>, rest: seq<Byte>)
    requires front != [] && (rest == [] || !IsContinuation(rest[0]))
    ensures FirstTaken(front + rest) == FirstTaken(front) && FirstItem(front + rest) == FirstItem(front)
  {
    hide Assemble;
    var all, need := front + rest, TailNeeded(front[0]);
    assert all[1..] == front[1..] + rest;
    if need.Some? {
      TailInFrontOf(front[1..], rest, need.value);
      if FirstTaken(front) == need.value + 1 {
        assert all[..need.value + 1] == front[..need.value + 1];
      }
    }
  }

  lemma ItemsByFirst(bytes: seq<Byte>)
    requires bytes != []
    ensures Utf8Items(bytes) == [FirstItem(bytes)] + Utf8Items(bytes[FirstTaken(bytes)..])
  {
  }

  lemma NoItems()
    ensures Utf8Items([]) == []
  {
  }

  /** Bytes in front of something that is not a continuation byte decode on their own. */
  lemma {:induction false} DecodeInFrontOf(front: seq<Byte>, rest: seq<Byte>)
    requires rest == [] || !IsContinuation(rest[0])
    ensures Utf8Items(front + rest) == Utf8Items(front) + Utf8Items(rest)
    decreases |front|
  {
    hide FirstTaken, FirstItem, IsContinuation, Utf8Items;
    if front == [] {
      NoItems();
      assert front + rest == rest;
    } else {
      var all, n := front + rest, FirstTaken(front);
      FirstInFrontOf(front, rest);
      ItemsByFirst(front);
      ItemsByFirst(all);
      assert all[n..] == front[n..] + rest;
      DecodeInFrontOf(front[n..], rest);
    }
  }

  lemma {:induction false} TailInFrontOf(front: seq<Byte>, rest: seq<Byte>, limit: nat)
    requires rest == [] || !IsContinuation(rest[0])
    ensures TailLength(front + rest, limit) == TailLength(front, limit)
  {
    if front == [] {
      assert front + rest == rest;
    } else if limit > 0 {
      assert (front + rest)[1..] == front[1..] + rest;
      TailInFrontOf(front[1..], rest, limit - 1);
    }
  }

  /**
   How many bytes go before the decoder stumbles over a malformed piece in front: none if its first byte
   starts nothing, otherwise those in front of the byte that does not continue it or that completes it.
   */
  function Stumble(bytes: seq<Byte>): (n: nat)
    requires bytes != []
    ensures n <= |bytes|
  {
    match TailNeeded(bytes[0])
    case None => 0
    case Some(need) => if FirstTaken(bytes) <= need then FirstTaken(bytes) else need
  }

  /** What is pending and the byte that offends give the place. */
  lemma StumblesAt(pending: seq<Byte>, b: Byte, rest: seq<Byte>)
    requires (pending == [] || IsIncomplete(pending)) && Offends(pending, b)
    ensures Stumble(pending + ([b] + rest)) == |pending|
  {
    var bytes := pending + ([b] + rest);
    if pending != [] {
      var need := TailNeeded(pending[0]).value;
      assert bytes[1..] == pending[1..] + ([b] + rest);
      TailLengthOver(pending[1..], [b] + rest, need);
      assert ([b] + rest)[1..] == rest;
    }
  }

  /** One code point's worth of reading: what came off the front of `before`. */
  ghost predicate ReadsItem(before: seq<Byte>, after: seq<Byte>, r: Result<CodePoint>, policy: InvalidEncodingPolicy) {
    match r
    case Ok(c) =>
      && before != [] && Suffixed(before, after)
      && Utf8Items(before) == [Utf8Items(before)[0]] + Utf8Items(after)
      && c == ReplaceItem(Utf8Items(before)[0])
      && (policy.Replace? || Utf8Items(before)[0].Char?)
    case Err(code) =>
      || (code.EndOfFile? && before == [] == after)
      || (code.InvalidEncoding? && policy.Reject? && before != [] && Utf8Items(before)[0].Bad?
            && after == before[Stumble(before)..])
      || Interrupted(r)
  }

  /** `after` is `before` without a first byte and some continuation bytes. */
  ghost predicate Suffixed(before: seq<Byte>, after: seq<Byte>) {
    && |after| < |before| && after == before[|before| - |after|..]
    && forall i :: 1 <= i < |before| - |after| ==> IsContinuation(before[i])
  }

  /** A run is as long as its stop-free front and the run behind that. */
  lemma {:induction false} RunOver(bytes: seq<Byte>, n: nat, stop: Stop)
    requires n <= |bytes| && forall i :: 0 <= i < n ==> !stop.At(bytes[i])
    ensures Run(bytes, stop) == n + Run(bytes[n..], stop)
  {
    if n == 0 {
      assert bytes[0..] == bytes;
    } else {
      assert bytes[1..][n - 1..] == bytes[n..];
      RunOver(bytes[1..], n - 1, stop);
    }
  }

  /** Moving over an item's bytes stays inside the run. */
  lemma RunAfterItem(before: seq<Byte>, after: seq<Byte>, stop: Stop)
    requires before != [] && !stop.At(before[0]) && Suffixed(before, after)
    ensures Run(before, stop) == |before| - |after| + Run(after, stop)
    ensures Behind(before, stop) == Behind(after, stop)
    ensures Behind(before, stop) != [] ==> !IsContinuation(Behind(before, stop)[0])
  {
    hide Run, IsContinuation;
    var k := |before| - |after|;
    forall i | 0 <= i < k ensures !stop.At(before[i]) {
      if i > 0 {
        ContinuationIsNoStop(before[i], stop);
      }
    }
    RunOver(before, k, stop);
    if Behind(before, stop) != [] {
      ContinuationIsNoStop(before[Run(before, stop)], stop);
    }
  }

  /** Reading one item off the front of the input reads the first item of the piece in front. */
  lemma NextItem(before: seq<Byte>, after: seq<Byte>, stop: Stop)
    requires before != [] && !stop.At(before[0]) && Suffixed(before, after)
    requires Utf8Items(before) == [Utf8Items(before)[0]] + Utf8Items(after)
    ensures PieceItems(before, stop) == [Utf8Items(before)[0]] + PieceItems(after, stop)
    ensures Behind(before, stop) == Behind(after, stop)
  {
    hide Utf8Items, Run, IsContinuation, Suffixed, Stop.At;
    RunAfterItem(before, after, stop);
    var n, m := Run(before, stop), Run(after, stop);
    assert before == before[..n] + before[n..] && after == after[..m] + after[m..];
    ItemInFront(before[..n], after[..m], Behind(before, stop), Utf8Items(before)[0]);
  }

  lemma ContinuationIsNoStop(b: Byte, stop: Stop)
    ensures IsContinuation(b) ==> !stop.At(b)
  {
  }

  lemma ItemInFront(piece: seq<Byte>, left: seq<Byte>, back: seq<Byte>, item: Item)
    requires back == [] || !IsContinuation(back[0])
    requires Utf8Items(piece + back) == [item] + Utf8Items(left + back)
    ensures Utf8Items(piece) == [item] + Utf8Items(left)
  {
    hide Utf8Items;
    DecodeInFrontOf(piece, back);
    DecodeInFrontOf(left, back);
    assert Utf8Items(piece) + Utf8Items(back) == [item] + Utf8Items(left) + Utf8Items(back);
    SameFront(Utf8Items(piece), [item] + Utf8Items(left), Utf8Items(back));
  }

  lemma SameFront<T>(a: seq<T>, b: seq<T>, back: seq<T>)
    requires a + back == b + back
    ensures a == b
  {
    assert |a| == |b| && a == (a + back)[..|a|] && b == (b + back)[..|b|];
  }

  class TextReader {
    const source: BufferedSource

    ghost function Footprint(): set<object> { {this, source, source.source, source.buffer} }

    ghost predicate Valid()
      reads Footprint()
    {
      source.Valid()
    }

    ghost function Remaining(): seq<Byte>
      reads Footprint()
      requires Valid()
    {
      source.Remaining()
    }

    constructor (source: BufferedSource)
      requires source.Valid()
      ensures Valid() && this.source == source
    {
      this.source := source;
    }

    /** The input broke off or ended, perhaps inside a character. */
    static method AtEnd(decoder: Utf8Decoder, policy: InvalidEncodingPolicy, code: ErrorCode)
      returns (r: Result<CodePoint>)
      requires decoder.Valid()
      modifies decoder
      ensures code.EndOfFile? ==> ReadsItem(old(decoder.pending), [], r, policy) && !Interrupted(r)
      ensures !code.EndOfFile? ==> r == Err(code)
    {
      if code.EndOfFile? && !decoder.Complete() {
        ghost var pending := decoder.pending;
        var finished := decoder.Finish(policy);
        MalformedEnd(pending, pending);
        if finished.Err? {
          return Err(finished.code);
        }
        if finished.value.Some? {
          return Ok(finished.value.value);
        }
      }
      return Err(code);
    }

    method ConsumeOne() returns (r: Result<()>)
      requires Valid() && Remaining() != []
      modifies source, source.source, source.buffer
      ensures Valid() && source.Skew() == old(source.Skew())
      ensures Remaining() == if r.Ok? then old(Remaining())[1..] else old(Remaining())
      ensures r.Err? ==> Interrupted(r) && !source.source.reliable
    {
      hide BufferedSource.Valid, BufferedSource.Remaining, BufferedSource.Skew;
      ghost var taken;
      r, taken := source.Consume(1);
    }

    /** Gives the byte in front to the decoder, and moves over it unless the decoder wants to see it again. */
    method FeedByte(decoder: Utf8Decoder, policy: InvalidEncodingPolicy, byte: Byte, ghost before: seq<Byte>)
      returns (r: Result<Option<CodePoint>>)
      requires Valid() && decoder.Valid() && before == decoder.pending + Remaining()
      requires Remaining() != [] && Remaining()[0] == byte
      modifies source, source.source, source.buffer, decoder
      ensures Valid() && source.Skew() == old(source.Skew())
      ensures r == Ok(None) ==>
        decoder.Valid() && before == decoder.pending + Remaining() && |Remaining()| < |old(Remaining())|
      ensures r != Ok(None) ==>
        ReadsItem(before, Remaining(), if r.Ok? then Ok(r.value.value) else Err(r.code), policy)
      ensures Interrupted(r) ==> !source.source.reliable
    {
      hide BufferedSource.Valid, BufferedSource.Remaining, BufferedSource.Skew, Emits, ReadsItem, IsIncomplete,
        Utf8Decoder.Valid;
      ghost var left, pending, rest := Remaining(), decoder.pending, Remaining()[1..];
      decoder.PendingIsIncomplete();
      assert left == [byte] + rest;
      assert pending + [byte] + rest == pending + ([byte] + rest) == before;
      var decoded, emitted := decoder.Feed(byte, policy);
      if decoded.Err? {
        StumblesAt(pending, byte, rest);
        assert before[|pending|..] == left;
        FirstIsBad(before, pending + [byte], rest, Remaining());
        return Err(decoded.code);
      }
      if emitted != [] {
        assert Unread([], byte, false) == [byte] && emitted == [emitted[0]];
        FirstIsEmitted(before, pending, byte, rest, decoded.value.consumed, emitted[0], policy);
      }
      if decoded.value.consumed {
        var consumed := ConsumeOne();
        if consumed.Err? {
          BreakingOff(before, Remaining(), consumed.code, policy);
          return Err(consumed.code);
        }
      }
      return Ok(decoded.value.codePoint);
    }

    /** Looks at the next byte and gives it to the decoder; `before` is what the decoder has not reported yet. */
    method FeedNext(decoder: Utf8Decoder, policy: InvalidEncodingPolicy, ghost before: seq<Byte>)
      returns (r: Result<Option<CodePoint>>)
      requires Valid() && decoder.Valid() && before == decoder.pending + Remaining()
      modifies source, source.source, source.buffer, decoder
      ensures Valid() && source.Skew() == old(source.Skew())
      ensures r == Ok(None) ==>
        decoder.Valid() && before == decoder.pending + Remaining() && |Remaining()| < |old(Remaining())|
      ensures r != Ok(None) ==>
        ReadsItem(before, Remaining(), if r.Ok? then Ok(r.value.value) else Err(r.code), policy)
      ensures Interrupted(r) ==> !source.source.reliable
    {
      hide BufferedSource.Valid, BufferedSource.Remaining, BufferedSource.Skew, BufferedSource.At, ReadsItem,
        Utf8Decoder.Valid;
      var byte := source.Peek(0);
      if byte.Err? {
        assert byte.code.EndOfFile? ==> before == decoder.pending && Remaining() == [];
        BreakingOff(before, Remaining(), byte.code, policy);
        var ended := AtEnd(decoder, policy, byte.code);
        if ended.Err? {
          return Err(ended.code);
        }
        return Ok(Some(ended.value));
      }
      r := FeedByte(decoder, policy, byte.value, before);
    }

    /** Decodes one code point, or one malformed piece under the policy, off the front. */
    method ReadCodePoint(policy: InvalidEncodingPolicy) returns (r: Result<CodePoint>)
      requires Valid()
      modifies source, source.source, source.buffer
      ensures Valid() && source.Skew() == old(source.Skew())
      ensures ReadsItem(old(Remaining()), Remaining(), r, policy)
      ensures Interrupted(r) ==> !source.source.reliable
    {
      hide BufferedSource.Valid, BufferedSource.Remaining, BufferedSource.Skew, Utf8Decoder.Valid, ReadsItem;
      var decoder := new Utf8Decoder();
      ghost var before := Remaining();
      while true
        invariant Valid() && source.Skew() == old(source.Skew()) && fresh(decoder) && decoder.Valid()
        invariant before == decoder.pending + Remaining()
        decreases |Remaining()|
      {
        var step := FeedNext(decoder, policy, before);
        if step.Err? {
          return Err(step.code);
        }
        if step.value.Some? {
          return Ok(step.value.value);
        }
      }
      assert false;
      r := Err(Closed);
    }

    /**
     One turn of a reading loop: checks the size, decodes one code point of the piece in front and
     appends its UTF-8 form.
     */
    method AppendCodePoint(text: seq<Byte>, options: ReadTextOptions, ghost stop: Stop)
      returns (r: Result<seq<Byte>>, ghost item: Item)
      requires Valid() && Remaining() != [] && !stop.At(Remaining()[0])
      modifies source, source.source, source.buffer
      ensures Valid() && source.Skew() == old(source.Skew())
      ensures r.Ok? ==>
        && |Remaining()| < |old(Remaining())|
        && r.value == text + Utf8Of(ReplaceItem(item))
        && Behind(Remaining(), stop) == Behind(old(Remaining()), stop)
        && PieceItems(old(Remaining()), stop) == [item] + PieceItems(Remaining(), stop)
      ensures if r.Ok?
              then Fault(PieceItems(old(Remaining()), stop), |text|, options)
                   == Fault(PieceItems(Remaining(), stop), |r.value|, options)
              else Fault(PieceItems(old(Remaining()), stop), |text|, options) == Some(r.code) || Interrupted(r)
      ensures Interrupted(r) ==> !source.source.reliable
    {
      hide BufferedSource.Valid, BufferedSource.Remaining, BufferedSource.Skew, Utf8Items, Utf8Of, PieceItems, Behind,
        Stop.At;
      item := Bad;
      ghost var before := Remaining();
      ghost var items := PieceItems(before, stop);
      PieceBegins(before, stop);
      if |text| >= options.maximumSize {
        return Err(Overflow), item;
      }
      var codePoint := ReadCodePoint(options.invalidEncoding);
      if codePoint.Err? {
        return Err(codePoint.code), item;
      }
      item := Utf8Items(before)[0];
      NextItem(before, Remaining(), stop);
      var encoded := new Byte[4](_ => 0);
      var count := EncodeUtf8Into(codePoint.value, encoded);
      if count.value > options.maximumSize - |text| {
        return Err(Overflow), item;
      }
      return Ok(text + encoded[..count.value]), item;
    }

    /** Skips white space and reads the word behind it. */
    method ReadToken(options: ReadTextOptions) returns (r: Result<seq<Byte>>)
      requires Valid()
      modifies source, source.source, source.buffer
      ensures Valid() && source.Skew() == old(source.Skew())
      ensures r.Ok? ==> TokenOf(old(Remaining()), options) == Ok(Piece(r.value, Remaining()))
      ensures r.Err? ==> TokenOf(old(Remaining()), options) == Err(r.code) || Interrupted(r)
      ensures Interrupted(r) ==> !source.source.reliable
    {
      hide BufferedSource.Valid, BufferedSource.Remaining, BufferedSource.Skew, BufferedSource.At, InPiece, TokenOf;
      ghost var before := Remaining();
      while true
        invariant Valid() && source.Skew() == old(source.Skew())
        invariant TokenOf(before, options) == TokenOf(Remaining(), options)
        decreases |Remaining()|
      {
        var byte := source.Peek(0);
        TokenAfter(Remaining(), options);
        if byte.Err? {
          return Err(byte.code);
        }
        if !IsWhitespace(byte.value) {
          break;
        }
        var consumed := ConsumeOne();
        if consumed.Err? {
          return Err(consumed.code);
        }
      }
      ghost var start := Remaining();
      TokenAfter(start, options);
      var token: seq<Byte> := [];
      BeginPiece(start, AtWhitespace, options);
      while true
        invariant Valid() && source.Skew() == old(source.Skew())
        invariant InPiece(start, Remaining(), token, AtWhitespace, options)
        invariant token == [] ==> Remaining() == start
        decreases |Remaining()|
      {
        var byte := source.Peek(0);
        EndPiece(start, Remaining(), token, AtWhitespace, options);
        if byte.Err? {
          if byte.code.EndOfFile? && token != [] {
            return Ok(token);
          }
          return Err(byte.code);
        }
        if IsWhitespace(byte.value) {
          return Ok(token);
        }
        ghost var left := Remaining();
        var appended, item := AppendCodePoint(token, options, AtWhitespace);
        if appended.Err? {
          FailPiece(start, left, token, AtWhitespace, options);
          return Err(appended.code);
        }
        StepPiece(start, left, Remaining(), token, item, AtWhitespace, options);
        token := appended.value;
      }
      assert false;
      r := Err(Closed);
    }

    /** Moves over the terminator in front, or over its carriage return if the source breaks off behind that. */
    method EndLine(text: seq<Byte>, first: Byte, keepTerminator: bool) returns (r: Result<seq<Byte>>)
      requires Valid() && Remaining() != [] && Remaining()[0] == first && IsLineEnd(first)
      modifies source, source.source, source.buffer
      ensures Valid() && source.Skew() == old(source.Skew())
      ensures r.Ok? ==>
        exists n: nat :: EndsWith(old(Remaining()), n, source.source.reliable) && Remaining() == old(Remaining())[n..]
                 && r.value == if keepTerminator then text + old(Remaining())[..n] else text
      ensures r.Err? ==> Interrupted(r) && !source.source.reliable
    {
      hide BufferedSource.Valid, BufferedSource.Remaining, BufferedSource.Skew, BufferedSource.At;
      ghost var before := Remaining();
      var line := text;
      var consumed := ConsumeOne();
      if consumed.Err? {
        return Err(consumed.code);
      }
      if keepTerminator {
        line := line + [first];
      }
      ghost var reliable := source.source.reliable;
      assert before == [first] + Remaining() && before[..1] == [first];
      assert first != 13 || Remaining() == [] || Remaining()[0] != 10 || !reliable ==> EndsWith(before, 1, reliable);
      if first == 13 {
        var next := source.Peek(0);
        if next.Ok? && next.value == 10 {
          assert before == [first, 10] + Remaining()[1..] && before[..2] == [first, 10];
          assert EndsWith(before, 2, reliable);
          assert text + [first] + [10] == text + [first, 10];
          consumed := ConsumeOne();
          if consumed.Err? {
            return Err(consumed.code);
          }
          if keepTerminator {
            line := line + [10];
          }
        }
      }
      return Ok(line);
    }

    /**
     Reads up to a line terminator and over it.  A source that breaks off between a carriage return and
     its line feed leaves the line feed behind; nothing else can come out wrong.
     */
    method ReadLine(options: ReadTextOptions, keepTerminator: bool) returns (r: Result<seq<Byte>>)
      requires Valid()
      modifies source, source.source, source.buffer
      ensures Valid() && source.Skew() == old(source.Skew())
      ensures r.Ok? ==>
        var line := LineOf(old(Remaining()), options, keepTerminator);
        || line == Ok(Piece(r.value, Remaining()))
        || (!source.source.reliable && SplitTerminator(line, r.value, Remaining(), keepTerminator))
      ensures r.Err? ==> LineOf(old(Remaining()), options, keepTerminator) == Err(r.code) || Interrupted(r)
      ensures Interrupted(r) ==> !source.source.reliable
    {
      hide BufferedSource.Valid, BufferedSource.Remaining, BufferedSource.Skew, BufferedSource.At, InPiece, PieceOf,
        TerminatorLength;
      ghost var start := Remaining();
      var line: seq<Byte> := [];
      BeginPiece(start, AtLineEnd, options);
      while true
        invariant Valid() && source.Skew() == old(source.Skew())
        invariant InPiece(start, Remaining(), line, AtLineEnd, options)
        invariant line == [] ==> Remaining() == start
        invariant Remaining() != [] ==> start != []
        invariant line != [] ==> start != []
        decreases |Remaining()|
      {
        var byte := source.Peek(0);
        ghost var left := Remaining();
        EndPiece(start, left, line, AtLineEnd, options);
        if byte.Err? {
          if byte.code.EndOfFile? && line != [] {
            NoTerminator(line);
            return Ok(line);
          }
          return Err(byte.code);
        }
        if IsLineEnd(byte.value) {
          r := EndLine(line, byte.value, keepTerminator);
          if r.Ok? {
            LineEnds(start, line, left, Remaining(), r.value, source.source.reliable, options, keepTerminator);
          }
          return;
        }
        var appended, item := AppendCodePoint(line, options, AtLineEnd);
        if appended.Err? {
          FailPiece(start, left, line, AtLineEnd, options);
          return Err(appended.code);
        }
        StepPiece(start, left, Remaining(), line, item, AtLineEnd, options);
        line := appended.value;
      }
      assert false;
      r := Err(Closed);
    }

    /** A checkpoint is the reported position: it names the reader's place exactly when that is the true one. */
    method Save() returns (r: Result<nat>)
      requires Valid()
      ensures r == Ok(source.logicalPosition) && r.value <= |source.source.data|
      ensures Remaining() == source.source.data[r.value..] <==> source.Skew() == 0
    {
      source.RemainingFromAt();
      return Ok(source.logicalPosition);
    }

    method Restore(checkpoint: nat) returns (r: Result<()>)
      requires Valid()
      modifies source, source.source
      ensures Valid()
      ensures r.Ok? ==> checkpoint <= |source.source.data|
      ensures r.Err? ==>
        (checkpoint > |source.source.data| && r.code.InvalidArgument?) || (Interrupted(r) && !source.source.reliable)
      ensures r.Ok? ==>
        Remaining() == source.source.data[checkpoint..] && source.Skew() == 0 && source.logicalPosition == checkpoint
      ensures r.Err? ==> Remaining() == old(Remaining()) && source.Skew() == old(source.Skew())
    {
      var position := source.Seek(checkpoint);
      if position.Err? {
        return Err(position.code);
      }
      return Ok(());
    }
  }

  /** `n` bytes end the line in front: its terminator, or the first half of one if the source may break off. */
  ghost predicate EndsWith(bytes: seq<Byte>, n: nat, reliable: bool) {
    1 <= n <= |bytes| && (n == TerminatorLength(bytes) || (!reliable && n == 1 && TerminatorLength(bytes) == 2))
  }

  /** The line was ended by a carriage return whose line feed is still to come. */
  predicate SplitTerminator(line: Result<Piece>, text: seq<Byte>, rest: seq<Byte>, keepTerminator: bool) {
    && line.Ok? && rest == [10] + line.value.rest
    && line.value.text == if keepTerminator then text + [10] else text
  }

  /** What a line read up to its terminator and over it is. */
  lemma LineEnds(start: seq<Byte>, text: seq<Byte>, left: seq<Byte>, rest: seq<Byte>, line: seq<Byte>, reliable: bool,
                 options: ReadTextOptions, keepTerminator: bool)
    requires start != [] && PieceOf(start, AtLineEnd, options) == Ok(Piece(text, left))
    requires exists n: nat :: EndsWith(left, n, reliable) && rest == left[n..]
                      && line == if keepTerminator then text + left[..n] else text
    ensures var whole := LineOf(start, options, keepTerminator);
            || whole == Ok(Piece(line, rest))
            || (!reliable && SplitTerminator(whole, line, rest, keepTerminator))
  {
    hide PieceOf;
    var n: nat :|
      EndsWith(left, n, reliable) && rest == left[n..] && line == if keepTerminator then text + left[..n] else text;
    if n != TerminatorLength(left) {
      assert left == [13, 10] + left[2..];
      assert left[..2] == left[..1] + [10] && left[1..] == [10] + left[2..];
    }
  }

  lemma NoTerminator(line: seq<Byte>)
    ensures TerminatorLength([]) == 0 && line + [] == line
  {
  }

  /** How the token in front is found: white space is dropped, then a word or nothing is left. */
  lemma TokenAfter(remaining: seq<Byte>, options: ReadTextOptions)
    ensures remaining == [] ==> TokenOf(remaining, options) == Err(EndOfFile)
    ensures remaining != [] && IsWhitespace(remaining[0]) ==>
      TokenOf(remaining, options) == TokenOf(remaining[1..], options)
    ensures remaining != [] && !IsWhitespace(remaining[0]) ==>
      TokenOf(remaining, options) == PieceOf(remaining, AtWhitespace, options)
  {
    hide PieceOf;
    if remaining != [] {
      if IsWhitespace(remaining[0]) {
        assert remaining[1..][Blank(remaining[1..])..] == remaining[Blank(remaining)..];
      } else {
        assert remaining[0..] == remaining;
      }
    }
  }

  // ------------------------------------------------------------ a piece being read

  /** `text` has been read off the front of `start`, and reading `left` gives the rest of the piece. */
  ghost predicate InPiece(start: seq<Byte>, left: seq<Byte>, text: seq<Byte>, stop: Stop, options: ReadTextOptions) {
    && Behind(start, stop) == Behind(left, stop)
    && Fault(PieceItems(start, stop), 0, options) == Fault(PieceItems(left, stop), |text|, options)
    && EncodeUtf8(Replaced(PieceItems(start, stop))) == text + EncodeUtf8(Replaced(PieceItems(left, stop)))
  }

  lemma BeginPiece(start: seq<Byte>, stop: Stop, options: ReadTextOptions)
    ensures InPiece(start, start, [], stop, options)
  {
  }

  lemma StepPiece(start: seq<Byte>, left: seq<Byte>, left': seq<Byte>, text: seq<Byte>, item: Item, stop: Stop,
                  options: ReadTextOptions)
    requires InPiece(start, left, text, stop, options) && Behind(left', stop) == Behind(left, stop)
    requires PieceItems(left, stop) == [item] + PieceItems(left', stop)
    requires Fault(PieceItems(left, stop), |text|, options)
          == Fault(PieceItems(left', stop), |text + Utf8Of(ReplaceItem(item))|, options)
    ensures InPiece(start, left', text + Utf8Of(ReplaceItem(item)), stop, options)
  {
    hide PieceItems, Behind, Fault, Utf8Of;
    var items, items' := PieceItems(left, stop), PieceItems(left', stop);
    assert Replaced(items)[1..] == Replaced(items') && Replaced(items)[0] == ReplaceItem(item);
    assert EncodeUtf8(Replaced(items)) == Utf8Of(ReplaceItem(item)) + EncodeUtf8(Replaced(items'));
  }

  lemma EndPiece(start: seq<Byte>, left: seq<Byte>, text: seq<Byte>, stop: Stop, options: ReadTextOptions)
    requires InPiece(start, left, text, stop, options)
    ensures left == [] || stop.At(left[0]) ==> PieceOf(start, stop, options) == Ok(Piece(text, left))
  {
    if left == [] || stop.At(left[0]) {
      assert left[..0] == [] && left[0..] == left;
      assert PieceItems(left, stop) == [];
      assert text + [] == text;
    }
  }

  lemma FailPiece(start: seq<Byte>, left: seq<Byte>, text: seq<Byte>, stop: Stop, options: ReadTextOptions)
    requires InPiece(start, left, text, stop, options)
    ensures forall code :: Fault(PieceItems(left, stop), |text|, options) == Some(code) ==>
              PieceOf(start, stop, options) == Err(code)
  {
  }

  /** The piece in front of a non-empty input that does not start with a stop begins with the input's first item. */
  lemma PieceBegins(bytes: seq<Byte>, stop: Stop)
    requires bytes != [] && !stop.At(bytes[0])
    ensures PieceItems(bytes, stop) != [] && Utf8Items(bytes) != []
    ensures PieceItems(bytes, stop)[0] == Utf8Items(bytes)[0]
  {
    var n := Run(bytes, stop);
    hide IsContinuation, FirstItem, FirstTaken, Utf8Items, Stop.At, Run;
    var front, back := bytes[..n], bytes[n..];
    if n < |bytes| {
      ContinuationIsNoStop(bytes[n], stop);
    }
    assert bytes == front + back;
    DecodeInFrontOf(front, back);
    ItemsByFirst(front);
  }

  lemma MalformedEnd(before: seq<Byte>, pending: seq<Byte>)
    requires IsIncomplete(pending) && before == pending
    ensures before != [] && Suffixed(before, []) && Utf8Items(before) == [Bad] && Utf8Items([]) == []
    ensures before[Stumble(before)..] == []
  {
    IncompleteAtEnd(pending);
    TailLengthOver(pending[1..], [], TailNeeded(pending[0]).value);
    assert pending[1..] + [] == pending[1..];
  }

  lemma BreakingOff(before: seq<Byte>, after: seq<Byte>, code: ErrorCode, policy: InvalidEncodingPolicy)
    ensures Interrupted<CodePoint>(Err(code)) ==> ReadsItem(before, after, Err(code), policy)
  {
  }

  lemma FirstIsBad(before: seq<Byte>, fed: seq<Byte>, rest: seq<Byte>, left: seq<Byte>)
    requires before == fed + rest && fed != [] && exists after :: Emits(fed, after, [Bad])
    requires left == before[Stumble(before)..]
    ensures ReadsItem(before, left, Err(InvalidEncoding), Reject)
  {
    var after :| Emits(fed, after, [Bad]);
    assert Utf8Items(fed + rest) == [Bad] + Utf8Items(after + rest);
  }

  lemma FirstIsEmitted(before: seq<Byte>, pending: seq<Byte>, b: Byte, rest: seq<Byte>, consumed: bool, item: Item,
                       policy: InvalidEncodingPolicy)
    requires before == pending + ([b] + rest) && (pending == [] || IsIncomplete(pending))
    requires consumed && pending != [] ==> IsContinuation(b)
    requires Emits(pending + [b], if consumed then [] else [b], [item]) && (!consumed ==> pending != [])
    requires policy.Replace? || item.Char?
    ensures ReadsItem(before, if consumed then rest else [b] + rest, Ok(ReplaceItem(item)), policy)
  {
    var after := if consumed then rest else [b] + rest;
    assert before == pending + [b] + rest;
    assert (if consumed then [] else [b]) + rest == after;
    assert before[|before| - |after|..] == after;
  }

  // ------------------------------------------------------------ nothing is lost

  /** A piece without a fault is well formed under the Reject policy. */
  lemma {:induction false} NoFaultIsClean(items: seq<Item>, size: nat, options: ReadTextOptions)
    requires options.invalidEncoding.Reject? && Fault(items, size, options) == None
    ensures Clean(items)
    decreases |items|
  {
    if items != [] {
      NoFaultIsClean(items[1..], size + |Utf8Of(ReplaceItem(items[0]))|, options);
      assert items == [items[0]] + items[1..];
    }
  }

  /** Under the Reject policy a piece is read unchanged: its text and what is left make up the input. */
  lemma PieceIsLossless(bytes: seq<Byte>, stop: Stop, options: ReadTextOptions)
    requires options.invalidEncoding.Reject? && PieceOf(bytes, stop, options).Ok?
    ensures var piece := PieceOf(bytes, stop, options).value;
            piece.text + piece.rest == bytes && |piece.text| == Run(bytes, stop)
  {
    hide Fault, Utf8Items, Run;
    var n := Run(bytes, stop);
    NoFaultIsClean(PieceItems(bytes, stop), 0, options);
    EncodeDecodeUtf8(bytes[..n]);
    assert bytes == bytes[..n] + bytes[n..];
  }

  /** Main result for tokens: white space, the token byte for byte, and the rest, which starts with white space. */
  lemma TokensAreLossless(remaining: seq<Byte>, options: ReadTextOptions)
    requires options.invalidEncoding.Reject? && TokenOf(remaining, options).Ok?
    ensures var piece := TokenOf(remaining, options).value;
            && remaining == remaining[..Blank(remaining)] + piece.text + piece.rest
            && piece.text != [] && (forall b :: b in piece.text ==> !IsWhitespace(b))
            && (piece.rest == [] || IsWhitespace(piece.rest[0]))
  {
    var bytes := remaining[Blank(remaining)..];
    assert remaining == remaining[..Blank(remaining)] + bytes;
    hide PieceOf, IsWhitespace, Blank;
    var piece := TokenOf(remaining, options).value;
    PieceIsLossless(bytes, AtWhitespace, options);
    PieceStops(bytes, AtWhitespace, options);
    var blank := remaining[..Blank(remaining)];
    assert blank + (piece.text + piece.rest) == blank + piece.text + piece.rest;
  }

  lemma PieceStops(bytes: seq<Byte>, stop: Stop, options: ReadTextOptions)
    requires options.invalidEncoding.Reject? && PieceOf(bytes, stop, options).Ok?
    ensures var piece := PieceOf(bytes, stop, options).value;
            && (piece.rest == [] || stop.At(piece.rest[0]))
            && (forall b :: b in piece.text ==> !stop.At(b))
            && (bytes != [] && !stop.At(bytes[0]) ==> piece.text != [])
  {
    hide Fault, Utf8Items, Stop.At;
    PieceIsLossless(bytes, stop, options);
    var piece := PieceOf(bytes, stop, options).value;
    assert piece.text == bytes[..Run(bytes, stop)];
  }

  /** Main result for lines: a kept line and what is left make up the input. */
  lemma LinesAreLossless(remaining: seq<Byte>, options: ReadTextOptions)
    requires options.invalidEncoding.Reject? && LineOf(remaining, options, true).Ok?
    ensures var piece := LineOf(remaining, options, true).value;
            piece.text + piece.rest == remaining && piece.text != []
  {
    hide PieceOf;
    PieceIsLossless(remaining, AtLineEnd, options);
    PieceStops(remaining, AtLineEnd, options);
    var piece := PieceOf(remaining, AtLineEnd, options).value;
    var n := TerminatorLength(piece.rest);
    assert piece.text + piece.rest[..n] + piece.rest[n..] == piece.text + piece.rest;
    if piece.text == [] {
      assert piece.rest == remaining;
    }
  }
}
