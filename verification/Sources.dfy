/**
 Byte sources: the in-memory source, sources that transfer less or fail, reading exactly so many
 bytes, reading everything, and the buffered source as a refinement of a plain byte stream.
 */
module Sources {
  import opened Core

  datatype ReadCount = ReadCount(count: nat, end: bool)

  /** A transfer that the source broke off; never the fault of the data. */
  predicate Interrupted<T>(r: Result<T>) {
    r.Err? && (r.code.Firmware? || r.code.NoProgress? || r.code.Closed?)
  }

  /**
   A seekable source of `data`.  A reliable one is the in-memory source: every read transfers as much
   as fits, and reports the end exactly when it is reached.  Of any other source only this is known:
   it transfers some prefix of what is left, or fails having transferred nothing, reports the end only
   at the end, and repositions itself or fails to, staying where it was.
   */
  class Source {
    const data: seq<Byte>
    const reliable: bool
    var position: nat

    ghost predicate Valid()
      reads this
    {
      position <= |data|
    }

    constructor (data: seq<Byte>, reliable: bool, position: nat)
      requires position <= |data|
      ensures Valid() && this.data == data && this.reliable == reliable && this.position == position
    {
      this.data, this.reliable, this.position := data, reliable, position;
    }

    /** Reads into `destination[from..to]`. */
    method ReadSome(destination: array<Byte>, from: nat, to: nat) returns (r: Result<ReadCount>)
      requires Valid() && from <= to <= destination.Length
      modifies this, destination
      ensures Valid()
      ensures r.Err? ==> Interrupted(r) && !reliable && position == old(position)
      ensures r.Ok? ==>
        && from + r.value.count <= to && position == old(position) + r.value.count
        && destination[from..from + r.value.count] == data[old(position)..position]
        && (r.value.end ==> position == |data|)
        && (reliable ==> r.value.count == Min(to - from, |data| - old(position)))
        && (reliable && position == |data| ==> r.value.end)
      ensures destination[..from] == old(destination[..from]) && destination[to..] == old(destination[to..])
    {
      var most := if to - from < |data| - position then to - from else |data| - position;
      var count := most;
      var end := position + count == |data|;
      if !reliable {
        var failure := BreakOff();
        if failure.Err? {
          return Err(failure.code);
        }
        count :| 0 <= count <= most;
        end :| end ==> position + count == |data|;
      }
      forall i | 0 <= i < count {
        destination[from + i] := data[position + i];
      }
      position := position + count;
      return Ok(ReadCount(count, end));
    }

    /** Whether the device fails this time, and how. */
    method BreakOff() returns (r: Result<()>)
      ensures r.Err? ==> Interrupted(r) && r.code != NoProgress
    {
      var fails: bool, closed: bool := *, *;
      return if !fails then Ok(()) else if closed then Err(Closed) else Err(Firmware);
    }

    method Seek(target: nat) returns (r: Result<nat>)
      requires Valid()
      modifies this
      ensures Valid()
      ensures r.Ok? ==> r.value == target <= |data| && position == target
      ensures r.Err? ==> position == old(position)
      ensures r.Err? ==> (target > |data| && r.code.InvalidArgument?) || (Interrupted(r) && !reliable)
    {
      if !reliable {
        var failure := BreakOff();
        if failure.Err? {
          return Err(failure.code);
        }
      }
      if target > |data| {
        return Err(InvalidArgument);
      }
      position := target;
      return Ok(target);
    }
  }

  /** Fills the destination, or says why it could not; a reliable source fails only for want of bytes. */
  method ReadExact(source: Source, destination: array<Byte>) returns (r: Result<()>)
    requires source.Valid()
    modifies source, destination
    ensures source.Valid() && old(source.position) <= source.position
    ensures source.position <= old(source.position) + destination.Length
    ensures var taken := source.data[old(source.position)..source.position];
            destination[..|taken|] == taken
    ensures r.Ok? ==> source.position == old(source.position) + destination.Length
    ensures r == Err(UnexpectedEndOfFile) ==> source.position == |source.data|
    ensures !Interrupted(r) || !source.reliable
    ensures source.reliable ==>
      r == if old(source.position) + destination.Length <= |source.data| then Ok(()) else Err(UnexpectedEndOfFile)
  {
    var read := 0;
    ghost var start := source.position;
    while read < destination.Length
      invariant source.Valid() && read <= destination.Length && source.position == start + read
      invariant destination[..read] == source.data[start..source.position]
    {
      ghost var before := source.position;
      ghost var kept := destination[..read];
      var transferred := source.ReadSome(destination, read, destination.Length);
      if transferred.Err? {
        return Err(transferred.code);
      }
      ghost var count := transferred.value.count;
      assert destination[..read + count] == kept + destination[read..read + count];
      assert source.data[start..source.position] == source.data[start..before] + source.data[before..source.position];
      read := read + transferred.value.count;
      if transferred.value.end && read < destination.Length {
        return Err(UnexpectedEndOfFile);
      }
      if transferred.value.count == 0 {
        return Err(NoProgress);
      }
    }
    return Ok(());
  }

  const CHUNK := 4096

  /** Reads until the source reports its end; success returns exactly what was left. */
  method ReadAll(source: Source, maximumSize: nat) returns (r: Result<seq<Byte>>)
    requires source.Valid()
    modifies source
    ensures source.Valid()
    ensures r.Ok? ==> r.value == source.data[old(source.position)..] && |r.value| <= maximumSize
    ensures r == Err(Overflow) ==> |source.data| - old(source.position) > maximumSize
    ensures source.reliable ==> (r.Ok? <==> |source.data| - old(source.position) <= maximumSize)
  {
    var bytes: seq<Byte> := [];
    ghost var start := source.position;
    var buffer := new Byte[CHUNK](_ => 0);
    while true
      invariant source.Valid() && fresh(buffer) && start <= source.position
      invariant bytes == source.data[start..source.position] && |bytes| <= maximumSize
      decreases |source.data| - source.position
    {
      ghost var before := source.position;
      var transferred := source.ReadSome(buffer, 0, CHUNK);
      if transferred.Err? {
        return Err(transferred.code);
      }
      var count := transferred.value.count;
      if |bytes| > maximumSize || count > maximumSize - |bytes| {
        return Err(Overflow);
      }
      assert buffer[0..0 + count] == buffer[..count];
      assert source.data[start..source.position] == source.data[start..before] + source.data[before..source.position];
      bytes := bytes + buffer[..count];
      if transferred.value.end {
        return Ok(bytes);
      }
      if count == 0 {
        return Err(NoProgress);
      }
    }
    assert false;
    r := Ok([]);
  }

  /** What a byte stream with `capacity` bytes of lookahead answers to a peek. */
  function PeekOf(remaining: seq<Byte>, lookahead: nat, capacity: nat): Result<Byte> {
    if lookahead < |remaining| && lookahead < capacity then Ok(remaining[lookahead])
    else if |remaining| <= capacity then Err(EndOfFile)
    else Err(Unsupported)
  }

  /** Bytes read behind those already held continue them. */
  lemma Stitch(data: seq<Byte>, at: nat, before: nat, now: nat, held: seq<Byte>)
    requires at <= before <= now <= |data| && held == data[at..before]
    ensures held + data[before..now] == data[at..now]
    ensures held + data[before..now] + data[now..] == held + data[before..]
  {
  }

  class BufferedSource {
    const source: Source
    const buffer: array<Byte>
    var position: nat
    var length: nat
    var logicalPosition: nat
    var end: bool

    ghost predicate Valid()
      reads this, source, buffer
    {
      && source.Valid() && 0 < buffer.Length && position <= length <= buffer.Length
      && length - position <= source.position
      && buffer[position..length] == source.data[source.position - (length - position)..source.position]
      && (end ==> source.position == |source.data|)
      && (source.reliable && position < length && source.position == |source.data| ==> end)
      && logicalPosition + (length - position) <= source.position
    }

    /** The bytes still to come: the buffered ones, then the source's. */
    ghost function Remaining(): seq<Byte>
      reads this, source, buffer
      requires Valid()
    {
      buffer[position..length] + source.data[source.position..]
    }

    /** Where the next byte stands in the source's data. */
    ghost function At(): nat
      reads this, source, buffer
      requires Valid()
    {
      source.position - (length - position)
    }

    /** How far the reported position lags behind the true one. */
    ghost function Skew(): nat
      reads this, source, buffer
      requires Valid()
    {
      At() - logicalPosition
    }

    lemma RemainingFromAt()
      requires Valid()
      ensures At() <= |source.data| && Remaining() == source.data[At()..] && logicalPosition == At() - Skew()
    {
    }

    /** Wraps a source where it stands; the reported position starts at 0 wherever that is. */
    constructor (source: Source, capacity: nat)
      requires source.Valid() && 0 < capacity
      ensures Valid() && fresh(buffer) && this.source == source && buffer.Length == capacity
      ensures Remaining() == source.data[source.position..] && Skew() == source.position && logicalPosition == 0
    {
      this.source := source;
      buffer := new Byte[capacity](_ => 0);
      position, length, logicalPosition, end := 0, 0, 0, false;
    }

    method Fill() returns (r: Result<()>)
      requires Valid() && position == length
      modifies this, source, buffer
      ensures Valid() && Remaining() == old(Remaining()) && At() == old(At()) && logicalPosition == old(logicalPosition)
      ensures r.Err? ==> Interrupted(r) && !source.reliable
      ensures r.Ok? && length == position ==> end
    {
      position, length := 0, 0;
      if end {
        return Ok(());
      }
      ghost var before := source.position;
      var transferred := source.ReadSome(buffer, 0, buffer.Length);
      if transferred.Err? {
        return Err(transferred.code);
      }
      length := transferred.value.count;
      assert buffer[0..0 + length] == buffer[0..length];
      assert source.data[before..] == source.data[before..source.position] + source.data[source.position..];
      end := transferred.value.end;
      if length == 0 && !end {
        return Err(NoProgress);
      }
      return Ok(());
    }

    /** Moves `count` buffered bytes out. */
    method Take(destination: array<Byte>, count: nat)
      requires Valid() && destination != buffer && count <= length - position && count <= destination.Length
      modifies this`position, this`logicalPosition, destination
      ensures Valid() && Skew() == old(Skew()) && position == old(position) + count
      ensures destination[..count] == old(Remaining())[..count] && Remaining() == old(Remaining())[count..]
    {
      ghost var all, at: nat := buffer[..], position;
      ghost var unread := all[at..length];
      forall i | 0 <= i < count {
        destination[i] := buffer[position + i];
      }
      assert buffer[..] == all && buffer[at..length] == unread;
      assert forall i :: 0 <= i < count ==> destination[i] == all[at + i] == unread[i];
      assert destination[..count] == unread[..count];
      position := position + count;
      logicalPosition := logicalPosition + count;
      assert buffer[position..length] == all[at + count..length] == unread[count..];
    }

    /** Takes a prefix of the remaining bytes: at least one if there is one, unless the source broke off. */
    method ReadSome(destination: array<Byte>) returns (r: Result<ReadCount>)
      requires Valid() && destination != buffer
      modifies this, source, buffer, destination
      ensures Valid() && Skew() == old(Skew())
      ensures r.Err? ==> Interrupted(r) && !source.reliable && Remaining() == old(Remaining())
      ensures r.Ok? ==>
        && r.value.count <= destination.Length && r.value.count <= |old(Remaining())|
        && destination[..r.value.count] == old(Remaining())[..r.value.count]
        && Remaining() == old(Remaining())[r.value.count..]
        && (r.value.end ==> Remaining() == [])
        && (r.value.count == 0 ==> destination.Length == 0 || old(Remaining()) == [])
    {
      if destination.Length == 0 {
        return Ok(ReadCount(0, false));
      }
      if position == length {
        var filled := Fill();
        if filled.Err? {
          return Err(filled.code);
        }
        if length == 0 {
          return Ok(ReadCount(0, end));
        }
      }
      var count := Min(destination.Length, length - position);
      Take(destination, count);
      return Ok(ReadCount(count, end && position == length));
    }

    /** Moves the unread bytes to the front of the buffer. */
    method Compact()
      requires Valid()
      modifies this`position, this`length, buffer
      ensures Valid() && Remaining() == old(Remaining()) && At() == old(At())
      ensures position == 0 && length == old(length) - old(position)
    {
      ghost var unread := buffer[position..length];
      if position != 0 && length > position {
        forall i | 0 <= i < length - position {
          buffer[i] := buffer[position + i];
        }
        length := length - position;
        position := 0;
        assert buffer[0..length] == unread;
      } else if position == length {
        position, length := 0, 0;
      }
    }

    /** Reads more behind what is buffered. */
    method Extend() returns (r: Result<()>)
      requires Valid() && position == 0 && length < buffer.Length && !end
      modifies this`length, this`end, source, buffer
      ensures Valid() && Remaining() == old(Remaining()) && At() == old(At())
      ensures r.Err? ==> Interrupted(r) && !source.reliable
      ensures r.Ok? ==> source.position > old(source.position) || end
    {
      ghost var at, before, held := source.position - length, source.position, buffer[0..length];
      var transferred := source.ReadSome(buffer, length, buffer.Length);
      assert buffer[0..length] == held;
      if transferred.Err? {
        return Err(transferred.code);
      }
      var count := transferred.value.count;
      assert buffer[0..length + count] == held + buffer[length..length + count];
      Stitch(source.data, at, before, source.position, held);
      length := length + count;
      end := transferred.value.end;
      if count == 0 && !end {
        return Err(NoProgress);
      }
      return Ok(());
    }

    /** Looks ahead without moving: nothing observable changes, whatever is asked for. */
    method Peek(lookahead: nat) returns (r: Result<Byte>)
      requires Valid()
      modifies this`position, this`length, this`end, source, buffer
      ensures Valid() && Remaining() == old(Remaining()) && At() == old(At()) && Skew() == old(Skew())
      ensures r.Ok? ==> lookahead < |Remaining()| && r.value == Remaining()[lookahead] && position + lookahead < length
      ensures r == Err(EndOfFile) ==> |Remaining()| <= lookahead
      ensures r == Err(Unsupported) ==> buffer.Length <= lookahead
      ensures Interrupted(r) ==> !source.reliable
      ensures lookahead == 0 ==> r != Err(Unsupported)
      ensures r == PeekOf(Remaining(), lookahead, buffer.Length) || Interrupted(r)
           || (r == Err(Unsupported) && !source.reliable)
    {
      while position + lookahead >= length
        invariant Valid() && Remaining() == old(Remaining()) && At() == old(At())
        decreases |source.data| - source.position, !end
      {
        Compact();
        if end || length == buffer.Length {
          return Err(if end then EndOfFile else Unsupported);
        }
        var extended := Extend();
        if extended.Err? {
          return Err(extended.code);
        }
      }
      return Ok(buffer[position + lookahead]);
    }

    /** Skips `count` bytes, or as many as there are before reporting why not. */
    method Consume(count: nat) returns (r: Result<()>, ghost taken: nat)
      requires Valid()
      modifies this, source, buffer
      ensures Valid() && Skew() == old(Skew()) && taken <= count && taken <= |old(Remaining())|
      ensures Remaining() == old(Remaining())[taken..]
      ensures r.Ok? <==> taken == count
      ensures r.Err? ==> Interrupted(r) || (r.code.EndOfFile? && Remaining() == [])
      ensures source.reliable ==> r == if count <= |old(Remaining())| then Ok(()) else Err(EndOfFile)
    {
      taken := 0;
      for index := 0 to count
        invariant Valid() && Skew() == old(Skew()) && taken == index <= |old(Remaining())|
        invariant Remaining() == old(Remaining())[taken..]
      {
        var value := Peek(0);
        if value.Err? {
          return Err(value.code), taken;
        }
        Step();
        taken := taken + 1;
      }
      return Ok(()), taken;
    }

    /** Moves over the next buffered byte. */
    method Step()
      requires Valid() && position < length
      modifies this`position, this`logicalPosition
      ensures Valid() && Skew() == old(Skew()) && Remaining() == old(Remaining())[1..] && At() == old(At()) + 1
    {
      position := position + 1;
      logicalPosition := logicalPosition + 1;
    }

    /** Repositions the source and forgets what was buffered, after which the reported position is the true one,
     or fails with the source and changes nothing. */
    method Seek(target: nat) returns (r: Result<nat>)
      requires Valid()
      modifies this, source
      ensures Valid()
      ensures r.Ok? ==> r.value == target <= |source.data|
      ensures r.Ok? ==> Remaining() == source.data[target..] && Skew() == 0 && logicalPosition == target
      ensures r.Err? ==> (target > |source.data| && r.code.InvalidArgument?) || (Interrupted(r) && !source.reliable)
      ensures r.Err? ==> Remaining() == old(Remaining()) && Skew() == old(Skew())
    {
      r := source.Seek(target);
      if r.Err? {
        return;
      }
      position, length, logicalPosition, end := 0, 0, target, false;
    }
  }
}
