/**
 Typed extraction from a text reader: one token per value, all of them or none.  A failed extraction
 goes back to the checkpoint taken before it, and destinations are written only after every value
 has been parsed.
 */
module Extraction {
  import opened Core
  import opened Utf
  import opened Sources
  import opened TextReading

  type Parser<!V> = seq<Byte> -> Result<V>

  /** Values are read as tokens under the reader's default options. */
  const TOKEN_OPTIONS := ReadTextOptions(65536, Reject)

  datatype Scanned<+T> = Scanned(value: T, rest: seq<Byte>)

  // ------------------------------------------------------------ the specification

  function ScanOf<V>(remaining: seq<Byte>, parse: Parser<V>): Result<Scanned<V>> {
    match TokenOf(remaining, TOKEN_OPTIONS)
    case Err(code) => Err(code)
    case Ok(token) =>
      match parse(token.text)
      case Err(code) => Err(code)
      case Ok(value) => Ok(Scanned(value, token.rest))
  }

  /** One value after the other. */
  function ScanAllOf<V>(remaining: seq<Byte>, parsers: seq<Parser<V>>): (r: Result<Scanned<seq<V>>>)
    ensures r.Ok? ==> |r.value.value| == |parsers|
  {
    if parsers == [] then Ok(Scanned([], remaining))
    else match ScanOf(remaining, parsers[0])
      case Err(code) => Err(code)
      case Ok(first) =>
        match ScanAllOf(first.rest, parsers[1..])
        case Err(code) => Err(code)
        case Ok(others) => Ok(Scanned([first.value] + others.value, others.rest))
  }

  /** Values already read, in front of what comes next. */
  function InFrontOf<V>(values: seq<V>, next: Result<Scanned<seq<V>>>): Result<Scanned<seq<V>>> {
    match next
    case Err(code) => Err(code)
    case Ok(others) => Ok(Scanned(values + others.value, others.rest))
  }

  /** Extracting in one go or in two gives the same values and leaves the same bytes. */
  lemma {:induction false} ScanSplits<V>(remaining: seq<Byte>, front: seq<Parser<V>>, back: seq<Parser<V>>)
    ensures match ScanAllOf(remaining, front)
            case Err(code) => ScanAllOf(remaining, front + back) == Err(code)
            case Ok(first) =>
              ScanAllOf(remaining, front + back) == InFrontOf(first.value, ScanAllOf(first.rest, back))
    decreases |front|
  {
    hide ScanOf;
    if front == [] {
      assert front + back == back;
      if ScanAllOf(remaining, back).Ok? {
        var second := ScanAllOf(remaining, back).value;
        assert [] + second.value == second.value;
      }
    } else {
      assert (front + back)[1..] == front[1..] + back;
      match ScanOf(remaining, front[0])
      case Err(_) =>
      case Ok(one) =>
        ScanSplits(one.rest, front[1..], back);
        if ScanAllOf(one.rest, front[1..]).Ok? {
          var first := ScanAllOf(one.rest, front[1..]).value;
          if ScanAllOf(first.rest, back).Ok? {
            var second := ScanAllOf(first.rest, back).value;
            assert [one.value] + (first.value + second.value) == [one.value] + first.value + second.value;
          }
        }
    }
  }

  /** Writing the values to their destinations in order; a destination named twice keeps the later value. */
  function Committed<V>(store: seq<V>, targets: seq<nat>, values: seq<V>): (after: seq<V>)
    requires |targets| == |values| && forall i :: 0 <= i < |targets| ==> targets[i] < |store|
    ensures |after| == |store|
    decreases |targets|
  {
    if targets == [] then store else Committed(store[targets[0] := values[0]], targets[1..], values[1..])
  }

  predicate Distinct(targets: seq<nat>) {
    forall i, j :: 0 <= i < j < |targets| ==> targets[i] != targets[j]
  }

  /** Distinct destinations each get their own value, and nothing else changes. */
  lemma {:induction false} CommittedAt<V>(store: seq<V>, targets: seq<nat>, values: seq<V>)
    requires |targets| == |values| && forall i :: 0 <= i < |targets| ==> targets[i] < |store|
    requires Distinct(targets)
    ensures forall i :: 0 <= i < |targets| ==> Committed(store, targets, values)[targets[i]] == values[i]
    ensures forall k :: 0 <= k < |store| && k !in targets ==> Committed(store, targets, values)[k] == store[k]
    decreases |targets|
  {
    if targets != [] {
      var next, after := store[targets[0] := values[0]], Committed(store, targets, values);
      CommittedAt(next, targets[1..], values[1..]);
      assert after == Committed(next, targets[1..], values[1..]);
      assert targets[0] !in targets[1..];
      forall i | 0 <= i < |targets| ensures after[targets[i]] == values[i] {
        if i > 0 {
          assert targets[1..][i - 1] == targets[i] && values[1..][i - 1] == values[i];
        }
      }
    }
  }

  // ------------------------------------------------------------ the program

  method Scan<V>(reader: TextReader, parse: Parser<V>) returns (r: Result<V>)
    requires reader.Valid()
    modifies reader.source, reader.source.source, reader.source.buffer
    ensures reader.Valid() && reader.source.Skew() == old(reader.source.Skew())
    ensures r.Ok? ==> ScanOf(old(reader.Remaining()), parse) == Ok(Scanned(r.value, reader.Remaining()))
    ensures r.Err? ==> ScanOf(old(reader.Remaining()), parse) == Err(r.code) || !reader.source.source.reliable
  {
    hide TextReader.Valid, TextReader.Remaining, BufferedSource.Valid, BufferedSource.Skew, TokenOf;
    var token := reader.ReadToken(TOKEN_OPTIONS);
    if token.Err? {
      return Err(token.code);
    }
    r := parse(token.value);
  }

  /** Reads the values one after the other; `done` are the ones already read. */
  method ScanInto<V>(reader: TextReader, parsers: seq<Parser<V>>, done: seq<V>) returns (r: Result<seq<V>>)
    requires reader.Valid()
    modifies reader.source, reader.source.source, reader.source.buffer
    ensures reader.Valid() && reader.source.Skew() == old(reader.source.Skew())
    ensures r.Ok? ==>
      InFrontOf(done, ScanAllOf(old(reader.Remaining()), parsers)) == Ok(Scanned(r.value, reader.Remaining()))
    ensures r.Err? ==> ScanAllOf(old(reader.Remaining()), parsers) == Err(r.code) || !reader.source.source.reliable
    decreases |parsers|
  {
    hide TextReader.Valid, TextReader.Remaining, BufferedSource.Valid, BufferedSource.Skew, ScanOf;
    if parsers == [] {
      assert done + [] == done;
      return Ok(done);
    }
    var first := Scan(reader, parsers[0]);
    if first.Err? {
      return Err(first.code);
    }
    ghost var others := ScanAllOf<V>(reader.Remaining(), parsers[1..]);
    r := ScanInto(reader, parsers[1..], done + [first.value]);
    if others.Ok? {
      assert done + [first.value] + others.value.value == done + ([first.value] + others.value.value);
    }
  }

  /**
   Main result: an extraction of any number of values either takes exactly their tokens, or goes back
   to the position it reported before.  That is where it started, for every input and every failure,
   if and only if the reported position was the true one: the source was wrapped at offset 0, or has
   been repositioned through the buffer since.  Only a source that breaks off can keep it from going
   back; then that failure is reported, and the reader stays where the first one left it.
   */
  method Extract<V>(reader: TextReader, parsers: seq<Parser<V>>) returns (r: Result<seq<V>>, ghost restored: bool)
    requires reader.Valid()
    modifies reader.source, reader.source.source, reader.source.buffer
    ensures reader.Valid() && (reader.source.source.reliable ==> restored)
    ensures r.Ok? ==> ScanAllOf(old(reader.Remaining()), parsers) == Ok(Scanned(r.value, reader.Remaining()))
    ensures r.Ok? || !restored ==> reader.source.Skew() == old(reader.source.Skew())
    ensures r.Err? ==> ScanAllOf(old(reader.Remaining()), parsers) == Err(r.code) || !reader.source.source.reliable
    ensures r.Err? && restored ==> reader.source.logicalPosition == old(reader.source.logicalPosition)
    ensures r.Err? && restored ==> (reader.Remaining() == old(reader.Remaining()) <==> old(reader.source.Skew()) == 0)
    ensures r.Err? && restored ==> reader.Remaining() == reader.source.source.data[reader.source.logicalPosition..]
    ensures !restored ==> r.Err? && Interrupted(r)
  {
    hide BufferedSource.Valid, BufferedSource.Skew, ScanAllOf, BufferedSource.Remaining, BufferedSource.At;
    restored := true;
    var checkpoint := reader.Save();
    var scanned := ScanInto(reader, parsers, []);
    if scanned.Err? {
      var back := reader.Restore(checkpoint.value);
      if back.Err? {
        return Err(back.code), false;
      }
      return Err(scanned.code), true;
    }
    NothingInFront(ScanAllOf(old(reader.Remaining()), parsers));
    return Ok(scanned.value), true;
  }

  lemma NothingInFront<V>(next: Result<Scanned<seq<V>>>)
    ensures InFrontOf([], next) == next
  {
    if next.Ok? {
      assert [] + next.value.value == next.value.value;
    }
  }

  /** Extraction into destinations: all of them are written, in order, or none. */
  method ExtractInto<V>(reader: TextReader, parsers: seq<Parser<V>>, store: array<V>, targets: seq<nat>)
    returns (r: Result<()>, ghost restored: bool)
    requires reader.Valid() && |targets| == |parsers|
    requires forall i :: 0 <= i < |targets| ==> targets[i] < store.Length
    requires {store as object} !! reader.Footprint()
    modifies store, reader.source, reader.source.source, reader.source.buffer
    ensures reader.Valid() && (reader.source.source.reliable ==> restored)
    ensures r.Err? ==> store[..] == old(store[..])
    ensures r.Err? && restored ==> (reader.Remaining() == old(reader.Remaining()) <==> old(reader.source.Skew()) == 0)
    ensures r.Err? && restored ==> reader.source.logicalPosition == old(reader.source.logicalPosition)
    ensures !restored ==> r.Err? && Interrupted(r) && reader.source.Skew() == old(reader.source.Skew())
    ensures r.Err? ==> ScanAllOf(old(reader.Remaining()), parsers) == Err(r.code) || !reader.source.source.reliable
    ensures r.Ok? ==>
      var scanned := ScanAllOf(old(reader.Remaining()), parsers);
      && scanned.Ok? && reader.Remaining() == scanned.value.rest
      && store[..] == Committed(old(store[..]), targets, scanned.value.value)
  {
    hide TextReader.Valid, BufferedSource.Valid, BufferedSource.Skew, TextReader.Remaining, ScanAllOf;
    var values, back := Extract(reader, parsers);
    restored := back;
    if values.Err? {
      return Err(values.code), back;
    }
    CommitInto(store, targets, values.value);
    return Ok(()), back;
  }

  method CommitInto<V>(store: array<V>, targets: seq<nat>, values: seq<V>)
    requires |targets| == |values| && forall i :: 0 <= i < |targets| ==> targets[i] < store.Length
    modifies store
    ensures store[..] == Committed(old(store[..]), targets, values)
    decreases |targets|
  {
    if targets != [] {
      store[targets[0]] := values[0];
      assert store[..] == old(store[..])[targets[0] := values[0]];
      CommitInto(store, targets[1..], values[1..]);
    }
  }

  /**
   The usual case in full: a text in memory, wrapped at `offset`.  A failed extraction leaves the
   reader and the destinations as they were exactly when `offset` is 0.
   */
  method ExtractFromMemory<V>(data: seq<Byte>, offset: nat, capacity: nat, parsers: seq<Parser<V>>,
                              store: array<V>, targets: seq<nat>)
    returns (r: Result<()>, reader: TextReader)
    requires offset <= |data| && 0 < capacity && |targets| == |parsers|
    requires forall i :: 0 <= i < |targets| ==> targets[i] < store.Length
    modifies store
    ensures reader.Valid()
    ensures r.Ok? <==> ScanAllOf(data[offset..], parsers).Ok?
    ensures r.Ok? ==>
      var scanned := ScanAllOf(data[offset..], parsers).value;
      reader.Remaining() == scanned.rest && store[..] == Committed(old(store[..]), targets, scanned.value)
    ensures r.Err? ==> ScanAllOf(data[offset..], parsers) == Err(r.code) && store[..] == old(store[..])
    ensures r.Err? ==> (reader.Remaining() == data[offset..] <==> offset == 0)
    ensures r.Err? ==> reader.source.logicalPosition == 0
  {
    hide BufferedSource.Valid, BufferedSource.Skew, ScanAllOf, Committed;
    var source := new Source(data, true, offset);
    var buffered := new BufferedSource(source, capacity);
    reader := new TextReader(buffered);
    var outcome, restored := ExtractInto(reader, parsers, store, targets);
    r := outcome;
  }
}
