/**
 The MSF container of program databases: `Open` parses the super block and the stream directory;
 `ReadStream` makes the scattered blocks of a stream look like one contiguous run of bytes.
 */
module Msf {
  import opened Core

  const DELETED_STREAM := MAX_UINT32
  const SUPER_BLOCK_SIZE: nat := 56
  const MAGIC: seq<Byte> := [
    0x4D, 0x69, 0x63, 0x72, 0x6F, 0x73, 0x6F, 0x66, 0x74, 0x20, 0x43, 0x2F, 0x43, 0x2B, 0x2B, 0x20,
    0x4D, 0x53, 0x46, 0x20, 0x37, 0x2E, 0x30, 0x30, 0x0D, 0x0A, 0x1A, 0x44, 0x53, 0, 0, 0
  ]

  datatype MsfError =
    | InvalidArgument | InvalidMsf | InvalidSuperBlock | InvalidStreamDirectory | InvalidStream
    | OutOfBounds | IntegerOverflow

  datatype Outcome = Success | Failure(error: MsfError)

  datatype StreamDescriptor = StreamDescriptor(size: nat, blockBegin: nat, blockCount: nat)

  // ------------------------------------------------ arithmetic helpers

  /** Little-endian. */
  function ReadU32(bytes: seq<Byte>, at: nat): (v: nat)
    requires at + 4 <= |bytes|
    ensures v <= MAX_UINT32
  {
    var low: nat := bytes[at];
    var second: nat := bytes[at + 1];
    var third: nat := bytes[at + 2];
    var high: nat := bytes[at + 3];
    low + 0x100 * second + 0x1_0000 * third + 0x100_0000 * high
  }

  predicate IsPowerOfTwo(v: nat) {
    v == 1 || (v > 0 && v % 2 == 0 && IsPowerOfTwo(v / 2))
  }

  function AlignUp(value: nat, alignment: nat): nat {
    if alignment == 0 then value else (value + alignment - 1) / alignment * alignment
  }

  /** Whole blocks that hold `size` bytes. */
  function BlocksFor(size: nat, blockSize: nat): nat
    requires blockSize > 0
  {
    AlignUp(size, blockSize) / blockSize
  }

  lemma BlocksForIsCeiling(size: nat, blockSize: nat)
    requires blockSize > 0
    ensures var n := BlocksFor(size, blockSize);
            size <= n * blockSize && (n > 0 ==> (n - 1) * blockSize < size) && (size == 0 ==> n == 0)
  {
    var q := (size + blockSize - 1) / blockSize;
    assert q * blockSize <= size + blockSize - 1 < q * blockSize + blockSize;
    MultipleDivides(q, blockSize);
    assert (q - 1) * blockSize == q * blockSize - blockSize;
  }

  lemma MultipleDivides(q: nat, d: nat)
    requires d > 0
    ensures q * d / d == q
  {
    var n := q * d;
    var r, m := n / d, n % d;
    assert n == r * d + m;
    QuotientUnique(q, d, r, m);
  }

  /** Division with remainder has one answer. */
  lemma QuotientUnique(q: nat, d: nat, r: nat, m: nat)
    requires d > 0 && m < d && q * d == r * d + m
    ensures q == r
  {
    MulMono(d, r + 1, q);
    MulMono(d, q, r);
    assert (r + 1) * d == r * d + d;
    assert q < r ==> (q + 1) * d <= r * d by {
      MulMono(d, q + 1, r);
    }
    assert (q + 1) * d == q * d + d;
  }

  /** Multiplication with a check that the 64-bit product does not wrap. */
  function CheckedMul(a: nat, b: nat): (product: Option<nat>)
    ensures product == if a * b <= MAX_UINT64 then Some(a * b) else None
  {
    if a != 0 && b > MAX_UINT64 / a then
      ProductTooLarge(a, b);
      None
    else
      ProductFits(a, b);
      Some(a * b)
  }

  lemma ProductTooLarge(a: nat, b: nat)
    requires a != 0 && b > MAX_UINT64 / a
    ensures a * b > MAX_UINT64
  {
    var q := MAX_UINT64 / a;
    assert a * q + MAX_UINT64 % a == MAX_UINT64;
    MulMono(a, q + 1, b);
    assert a * (q + 1) == a * q + a;
  }

  lemma ProductFits(a: nat, b: nat)
    requires a == 0 || b <= MAX_UINT64 / a
    ensures a * b <= MAX_UINT64
  {
    if a != 0 {
      var q := MAX_UINT64 / a;
      assert a * q <= MAX_UINT64;
      MulMono(a, b, q);
    }
  }

  // ------------------------------------------------ blocks

  predicate BlocksInRange(data: seq<Byte>, blockSize: nat, blocks: seq<nat>) {
    forall i :: 0 <= i < |blocks| ==> blocks[i] * blockSize + blockSize <= |data|
  }

  /** The contents of the blocks, one after the other. */
  function Joined(data: seq<Byte>, blockSize: nat, blocks: seq<nat>): (bytes: seq<Byte>)
    requires BlocksInRange(data, blockSize, blocks)
    ensures |bytes| == |blocks| * blockSize
  {
    if blocks == [] then []
    else
      var last := |blocks| - 1;
      var start := blocks[last] * blockSize;
      assert |blocks| * blockSize == last * blockSize + blockSize;
      Joined(data, blockSize, blocks[..last]) + data[start..start + blockSize]
  }

  /** Where the bytes of one block end up. */
  lemma BlockBounds(count: nat, blockSize: nat, block: nat, offset: nat)
    requires block < count && offset <= blockSize
    ensures block * blockSize + offset <= count * blockSize
  {
    MulMono(blockSize, block + 1, count);
    assert (block + 1) * blockSize == block * blockSize + blockSize;
  }

  lemma {:induction false} JoinedAt(data: seq<Byte>, blockSize: nat, blocks: seq<nat>, block: nat, offset: nat)
    requires BlocksInRange(data, blockSize, blocks) && block < |blocks| && offset < blockSize
    ensures block * blockSize + offset < |blocks| * blockSize
    ensures Joined(data, blockSize, blocks)[block * blockSize + offset] == data[blocks[block] * blockSize + offset]
  {
    var last := |blocks| - 1;
    BlockBounds(|blocks|, blockSize, block, offset + 1);
    if block < last {
      JoinedAt(data, blockSize, blocks[..last], block, offset);
    }
  }

  /** A piece of one block is the piece of the joined contents at that block's place. */
  lemma JoinedPiece(data: seq<Byte>, blockSize: nat, blocks: seq<nat>, block: nat, start: nat, take: nat, from: nat,
                    at: nat)
    requires BlocksInRange(data, blockSize, blocks) && block < |blocks| && start + take <= blockSize
    requires from == block * blockSize + start && at == blocks[block] * blockSize + start
    ensures from + take <= |blocks| * blockSize && at + take <= |data|
    ensures Joined(data, blockSize, blocks)[from..from + take] == data[at..at + take]
  {
    hide Joined;
    BlockBounds(|blocks|, blockSize, block, start + take);
    assert at + take <= |data|;
    var piece, source := Joined(data, blockSize, blocks)[from..from + take], data[at..at + take];
    forall i | 0 <= i < take ensures piece[i] == source[i] {
      JoinedAt(data, blockSize, blocks, block, start + i);
    }
  }

  // ------------------------------------------------ the file format

  datatype SuperBlock = SuperBlock(blockSize: nat, numBlocks: nat, directoryBytes: nat, blockMapAddress: nat)

  function SuperBlockOf(data: seq<Byte>): SuperBlock
    requires |data| >= SUPER_BLOCK_SIZE
  {
    SuperBlock(ReadU32(data, 32), ReadU32(data, 40), ReadU32(data, 44), ReadU32(data, 52))
  }

  /** The super block describes blocks that lie inside the file. */
  predicate GoodSuperBlock(data: seq<Byte>) {
    && |data| >= SUPER_BLOCK_SIZE && data[..32] == MAGIC
    && var h := SuperBlockOf(data);
    && IsPowerOfTwo(h.blockSize) && h.blockSize >= 512 && h.numBlocks != 0 && h.directoryBytes != 0
    && h.numBlocks * h.blockSize <= |data|
  }

  /** Entry `i` of a table of 32-bit numbers that starts at `base`. */
  function Entry(bytes: seq<Byte>, base: nat, i: nat): (v: nat)
    requires base + 4 * i + 4 <= |bytes|
    ensures v <= MAX_UINT32
  {
    ReadU32(bytes, base + 4 * i)
  }

  /** The block map of the directory. */
  predicate GoodBlockMap(data: seq<Byte>)
    requires GoodSuperBlock(data)
  {
    var h := SuperBlockOf(data);
    var count := BlocksFor(h.directoryBytes, h.blockSize);
    && h.blockMapAddress * h.blockSize + 4 * count <= |data|
    && EntriesBelow(data, h.blockMapAddress * h.blockSize, count, h.numBlocks)
  }

  function BlockMap(data: seq<Byte>): (blocks: seq<nat>)
    requires GoodSuperBlock(data) && GoodBlockMap(data)
    ensures |blocks| == BlocksFor(SuperBlockOf(data).directoryBytes, SuperBlockOf(data).blockSize)
  {
    var h := SuperBlockOf(data);
    var count := BlocksFor(h.directoryBytes, h.blockSize);
    var base := h.blockMapAddress * h.blockSize;
    assert base + 4 * count <= |data|;
    seq(count, i requires 0 <= i < count => Entry(data, base, i))
  }

  lemma InRangeBlock(data: seq<Byte>, blockSize: nat, blockCount: nat, block: nat)
    requires blockCount * blockSize <= |data| && block < blockCount
    ensures block * blockSize + blockSize <= |data|
  {
    assert (block + 1) * blockSize <= blockCount * blockSize;
  }

  lemma BlocksAreInRange(data: seq<Byte>, blockSize: nat, blockCount: nat, blocks: seq<nat>)
    requires blockCount * blockSize <= |data| && forall i :: 0 <= i < |blocks| ==> blocks[i] < blockCount
    ensures BlocksInRange(data, blockSize, blocks)
  {
    forall i | 0 <= i < |blocks| ensures blocks[i] * blockSize + blockSize <= |data| {
      InRangeBlock(data, blockSize, blockCount, blocks[i]);
    }
  }

  /** The stream directory: the joined directory blocks, cut to the directory's size. */
  function Directory(data: seq<Byte>): (dir: seq<Byte>)
    requires GoodSuperBlock(data) && GoodBlockMap(data)
    ensures |dir| == SuperBlockOf(data).directoryBytes
  {
    var h := SuperBlockOf(data);
    BlocksAreInRange(data, h.blockSize, h.numBlocks, BlockMap(data));
    BlocksForIsCeiling(h.directoryBytes, h.blockSize);
    Joined(data, h.blockSize, BlockMap(data))[..h.directoryBytes]
  }

  function BlockCountOf(size: nat, blockSize: nat): nat
    requires blockSize > 0
  {
    if size == DELETED_STREAM then 0 else BlocksFor(size, blockSize)
  }

  /** Blocks of the first `n` streams. */
  function BlocksBefore(dir: seq<Byte>, blockSize: nat, n: nat): nat
    requires blockSize > 0 && 4 + 4 * n <= |dir|
  {
    if n == 0 then 0
    else BlocksBefore(dir, blockSize, n - 1) + BlockCountOf(Entry(dir, 4, n - 1), blockSize)
  }

  predicate EntriesBelow(bytes: seq<Byte>, base: nat, n: nat, limit: nat)
    requires base + 4 * n <= |bytes|
  {
    forall k :: 0 <= k < n ==> Entry(bytes, base, k) < limit
  }

  /** The numbers in `values` are the table entries at `base`. */
  predicate EntriesAre(bytes: seq<Byte>, base: nat, values: seq<nat>)
    requires base + 4 * |values| <= |bytes|
  {
    forall k :: 0 <= k < |values| ==> values[k] == Entry(bytes, base, k)
  }

  /** The directory lists a size for every stream and an existing block for every block of every stream. */
  predicate GoodDirectory(dir: seq<Byte>, blockSize: nat, blockCount: nat)
    requires blockSize > 0
  {
    && 4 <= |dir|
    && var count := ReadU32(dir, 0);
    && 4 + 4 * count <= |dir|
    && var total := BlocksBefore(dir, blockSize, count);
    && 4 + 4 * count + 4 * total <= |dir| && total <= MAX_UINT32
    && EntriesBelow(dir, 4 + 4 * count, total, blockCount)
  }

  lemma {:induction false} BlocksBeforeGrows(dir: seq<Byte>, blockSize: nat, n: nat, m: nat)
    requires blockSize > 0 && n <= m && 4 + 4 * m <= |dir|
    ensures BlocksBefore(dir, blockSize, n) <= BlocksBefore(dir, blockSize, m)
  {
    if n < m {
      BlocksBeforeGrows(dir, blockSize, n, m - 1);
    }
  }

  /** The descriptors and block numbers a directory lists. */
  ghost predicate IsLayout(dir: seq<Byte>, blockSize: nat, streams: seq<StreamDescriptor>, blocks: seq<nat>) {
    && blockSize > 0 && 4 <= |dir| && |streams| == ReadU32(dir, 0) && 4 + 4 * |streams| + 4 * |blocks| <= |dir|
    && |blocks| == BlocksBefore(dir, blockSize, |streams|)
    && (forall i :: 0 <= i < |streams| ==> IsDescriptor(dir, blockSize, i, streams[i]))
    && EntriesAre(dir, 4 + 4 * |streams|, blocks)
  }

  predicate IsDescriptor(dir: seq<Byte>, blockSize: nat, i: nat, d: StreamDescriptor)
    requires blockSize > 0 && 8 + 4 * i <= |dir|
  {
    && d.size == Entry(dir, 4, i)
    && d.blockBegin == BlocksBefore(dir, blockSize, i)
    && d.blockCount == BlockCountOf(d.size, blockSize)
  }

  lemma DescriptorEnds(dir: seq<Byte>, blockSize: nat, i: nat, d: StreamDescriptor)
    requires blockSize > 0 && 8 + 4 * i <= |dir| && IsDescriptor(dir, blockSize, i, d)
    ensures d.blockCount == BlockCountOf(d.size, blockSize)
    ensures d.blockBegin == BlocksBefore(dir, blockSize, i)
    ensures d.blockBegin + d.blockCount == BlocksBefore(dir, blockSize, i + 1)
  {
  }

  lemma BlocksBeforeNone(dir: seq<Byte>, blockSize: nat)
    requires blockSize > 0 && 4 <= |dir|
    ensures BlocksBefore(dir, blockSize, 0) == 0
  {
  }

  lemma EntriesInRange(bytes: seq<Byte>, base: nat, values: seq<nat>, limit: nat)
    requires base + 4 * |values| <= |bytes|
    requires EntriesAre(bytes, base, values) && EntriesBelow(bytes, base, |values|, limit)
    ensures forall k :: 0 <= k < |values| ==> values[k] < limit
  {
  }

  predicate IsMsf(data: seq<Byte>) {
    GoodSuperBlock(data) && GoodBlockMap(data)
    && GoodDirectory(Directory(data), SuperBlockOf(data).blockSize, SuperBlockOf(data).numBlocks)
  }

  // ------------------------------------------------ the file object

  class MsfFile {
    var data: seq<Byte>
    var blockSize: nat
    var blockCount: nat
    var streams: seq<StreamDescriptor>
    var streamBlocks: seq<nat>
    var valid: bool

    /** What a successful `Open` establishes: the descriptors tile the block list with in-range blocks. */
    ghost predicate Tiled()
      reads this
    {
      && blockSize > 0 && blockCount * blockSize <= |data|
      && (forall k :: 0 <= k < |streamBlocks| ==> streamBlocks[k] < blockCount)
      && (streams == [] ==> streamBlocks == [])
      && (streams != [] ==>
            && streams[0].blockBegin == 0
            && Last(streams).blockBegin + Last(streams).blockCount == |streamBlocks|)
      && (forall i :: 0 <= i < |streams| ==> streams[i].blockCount == BlockCountOf(streams[i].size, blockSize))
      && (forall i {:trigger streams[i]} :: 0 < i < |streams| ==>
            streams[i].blockBegin == streams[i - 1].blockBegin + streams[i - 1].blockCount)
    }

    ghost predicate Valid()
      reads this
    {
      valid ==> Tiled()
    }

    constructor ()
      ensures Valid() && !valid
    {
      data, blockSize, blockCount, streams, streamBlocks, valid := [], 0, 0, [], [], false;
    }

    method Reset()
      modifies this
      ensures !valid && data == [] && streams == [] && streamBlocks == []
    {
      data, blockSize, blockCount, streams, streamBlocks, valid := [], 0, 0, [], [], false;
    }

    /** Accepts exactly the files whose super block, block map and directory are in order, and then reflects them. */
    method Open(input: seq<Byte>) returns (r: Outcome)
      modifies this
      ensures Valid() && valid == r.Success? == IsMsf(input)
      ensures r.Success? ==>
        && data == input && blockSize == SuperBlockOf(input).blockSize
        && IsLayout(Directory(input), blockSize, streams, streamBlocks)
      ensures GoodSuperBlock(input) && !GoodBlockMap(input) ==> r == Failure(InvalidStreamDirectory)
    {
      hide GoodSuperBlock, GoodBlockMap, GoodDirectory, Directory, SuperBlockOf, Tiled, IsLayout;
      Reset();
      r := CheckSuperBlock(input);
      if r.Failure? {
        return;
      }
      SuperBlockFacts(input);
      var header := SuperBlockOf(input);
      data, blockSize, blockCount := input, header.blockSize, header.numBlocks;
      var dir := ReadDirectory(input, header);
      if dir.None? {
        return Failure(InvalidStreamDirectory);
      }
      r, streams, streamBlocks := ParseDirectory(dir.value, blockSize, blockCount);
      assert r.Success? == IsMsf(input);
      if r.Success? {
        valid := true;
        LayoutTiles(dir.value);
      }
    }

    lemma LayoutTiles(dir: seq<Byte>)
      requires IsLayout(dir, blockSize, streams, streamBlocks) && GoodDirectory(dir, blockSize, blockCount)
      requires blockCount * blockSize <= |data|
      ensures Tiled()
    {
      hide ReadU32, Entry, BlockCountOf, EntriesAre, EntriesBelow, BlocksBefore;
      EntriesInRange(dir, 4 + 4 * |streams|, streamBlocks, blockCount);
      BlocksBeforeNone(dir, blockSize);
      forall i: nat | i < |streams|
        ensures streams[i].blockCount == BlockCountOf(streams[i].size, blockSize)
        ensures streams[i].blockBegin == BlocksBefore(dir, blockSize, i)
        ensures streams[i].blockBegin + streams[i].blockCount == BlocksBefore(dir, blockSize, i + 1)
      {
        DescriptorEnds(dir, blockSize, i, streams[i]);
      }
      if streams != [] {
        var last := |streams| - 1;
        assert streams[last].blockBegin + streams[last].blockCount == BlocksBefore(dir, blockSize, last + 1);
      }
      forall i {:trigger streams[i]} | 0 < i < |streams|
        ensures streams[i].blockBegin == streams[i - 1].blockBegin + streams[i - 1].blockCount
      {
        assert streams[i - 1].blockBegin + streams[i - 1].blockCount == BlocksBefore(dir, blockSize, i - 1 + 1);
      }
    }

    /** Every stream's blocks lie inside the block list. */
    lemma BlocksOfStream(i: nat)
      requires Tiled() && i < |streams|
      ensures streams[i].blockBegin + streams[i].blockCount <= |streamBlocks|
      decreases |streams| - i
    {
      if i + 1 < |streams| {
        BlocksOfStream(i + 1);
        assert streams[i + 1].blockBegin == streams[i].blockBegin + streams[i].blockCount;
      }
    }

    /** The blocks of a stream: enough of them, and all inside the file. */
    ghost function BlocksOf(i: nat): (blocks: seq<nat>)
      reads this
      requires Tiled() && i < |streams| && streams[i].size != DELETED_STREAM
      ensures |blocks| == streams[i].blockCount && BlocksInRange(data, blockSize, blocks)
      ensures streams[i].size <= |blocks| * blockSize
      ensures streams[i].blockBegin + |blocks| <= |streamBlocks|
      ensures forall k :: 0 <= k < |blocks| ==> blocks[k] == streamBlocks[streams[i].blockBegin + k]
    {
      BlocksOfStream(i);
      var blocks := streamBlocks[streams[i].blockBegin..streams[i].blockBegin + streams[i].blockCount];
      BlocksAreInRange(data, blockSize, blockCount, blocks);
      BlocksForIsCeiling(streams[i].size, blockSize);
      blocks
    }

    /** The contents of a stream. */
    ghost function StreamBytes(i: nat): (bytes: seq<Byte>)
      reads this
      requires Tiled() && i < |streams| && streams[i].size != DELETED_STREAM
      ensures |bytes| == streams[i].size
    {
      Joined(data, blockSize, BlocksOf(i))[..streams[i].size]
    }

    /** How a read request is answered before any byte is copied. */
    function ReadCheck(index: nat, offset: nat, hasDestination: bool, size: nat): Outcome
      reads this
    {
      if !valid || index >= |streams| || streams[index].size == DELETED_STREAM then Failure(InvalidStream)
      else if !hasDestination && size != 0 then Failure(MsfError.InvalidArgument)
      else if offset > streams[index].size || size > streams[index].size - offset then Failure(OutOfBounds)
      else Success
    }

    /** Exactly bytes [offset, offset + size) of the stream, whenever the request is in range. */
    method ReadStream(index: nat, offset: nat, destination: array?<Byte>, size: nat) returns (r: Outcome)
      requires Valid() && (destination != null ==> size <= destination.Length)
      modifies destination
      ensures r == ReadCheck(index, offset, destination != null, size)
      ensures r.Success? && destination != null ==>
        && destination[..size] == StreamBytes(index)[offset..offset + size]
        && forall i :: size <= i < destination.Length ==> destination[i] == old(destination[i])
      ensures r.Failure? && destination != null ==> destination[..] == old(destination[..])
    {
      if !valid || index >= |streams| || streams[index].size == DELETED_STREAM {
        return Failure(InvalidStream);
      }
      if destination == null && size != 0 {
        return Failure(MsfError.InvalidArgument);
      }
      if offset > streams[index].size || size > streams[index].size - offset {
        return Failure(OutOfBounds);
      }
      if destination == null {
        return Success;
      }
      CopyStream(index, offset, destination, size);
      return Success;
    }

    lemma BlockSizePositive()
      requires Tiled()
      ensures blockSize > 0
    {
    }

    /** The whole of a stream. */
    method ReadAll(index: nat) returns (r: Outcome, bytes: array<Byte>)
      requires Valid()
      ensures r == if valid && index < |streams| && streams[index].size != DELETED_STREAM then Success
                   else Failure(InvalidStream)
      ensures r.Success? ==> bytes[..] == StreamBytes(index)
      ensures fresh(bytes)
    {
      if !valid || index >= |streams| || streams[index].size == DELETED_STREAM {
        return Failure(InvalidStream), new Byte[0];
      }
      bytes := new Byte[streams[index].size](_ => 0);
      if bytes.Length == 0 {
        return Success, bytes;
      }
      r := ReadStream(index, 0, bytes, bytes.Length);
      assert bytes[..] == bytes[..bytes.Length];
    }

    /** The copy loop. */
    method CopyStream(index: nat, offset: nat, destination: array<Byte>, size: nat)
      requires Tiled() && index < |streams| && streams[index].size != DELETED_STREAM
      requires offset + size <= streams[index].size && size <= destination.Length
      modifies destination
      ensures destination[..size] == StreamBytes(index)[offset..offset + size]
      ensures forall i :: size <= i < destination.Length ==> destination[i] == old(destination[i])
    {
      hide StreamBytes, Tiled;
      ghost var stream := StreamBytes(index);
      var out, left, logical := 0, size, offset;
      while left != 0
        invariant 0 <= left && 0 <= out && out + left == size && logical == offset + out
        invariant destination[..out] == stream[offset..logical]
        invariant forall i :: size <= i < destination.Length ==> destination[i] == old(destination[i])
      {
        ghost var before := destination[..out];
        var take := CopyPiece(index, logical, destination, out, left);
        assert destination[..out] == before;
        assert destination[..out + take] == before + destination[out..out + take];
        assert stream[offset..logical] + stream[logical..logical + take] == stream[offset..logical + take];
        out, logical, left := out + take, logical + take, left - take;
      }
    }

    /** One step of the copy loop; its two error exits are dead branches. */
    method CopyPiece(index: nat, logical: nat, destination: array<Byte>, out: nat, left: nat) returns (take: nat)
      requires Tiled() && index < |streams| && streams[index].size != DELETED_STREAM
      requires 0 < left && logical + left <= streams[index].size && out + left <= destination.Length
      modifies destination
      ensures 0 < take <= left
      ensures destination[out..out + take] == StreamBytes(index)[logical..logical + take]
      ensures forall i :: 0 <= i < destination.Length && !(out <= i < out + take) ==>
        destination[i] == old(destination[i])
    {
      hide StreamBytes, Tiled, DivMod;
      BlockSizePositive();
      var (block, start) := DivMod(logical, blockSize);
      take := if left < blockSize - start then left else blockSize - start;
      ghost var place := PieceOfStream(index, logical, left, block, start, take);
      if block >= streams[index].blockCount {
        assert false;
      }
      var source := streamBlocks[streams[index].blockBegin + block] * blockSize + start;
      if source + take > |data| {
        assert false;
      }
      CopyInto(destination, out, data[source..source + take]);
    }

    /**
     The block exists, the piece lies inside the file, and it is the next piece of the stream, so
     neither error exit of the loop can be taken.
     */
    lemma PieceOfStream(index: nat, logical: nat, left: nat, block: nat, start: nat, take: nat) returns (source: nat)
      requires Tiled() && index < |streams| && streams[index].size != DELETED_STREAM
      requires 0 < left && logical + left <= streams[index].size
      requires block * blockSize + start == logical && start < blockSize
      requires take == if left < blockSize - start then left else blockSize - start
      ensures 0 < take <= left
      ensures block < streams[index].blockCount && streams[index].blockBegin + block < |streamBlocks|
      ensures source == streamBlocks[streams[index].blockBegin + block] * blockSize + start
      ensures source + take <= |data| && data[source..source + take] == StreamBytes(index)[logical..logical + take]
    {
      hide Joined, Tiled, BlocksOf;
      var blocks := BlocksOf(index);
      MulMono(blockSize, |blocks|, block);
      source := blocks[block] * blockSize + start;
      JoinedPiece(data, blockSize, blocks, block, start, take, logical, source);
      SliceOfPrefix(Joined(data, blockSize, blocks), streams[index].size, logical, take);
    }
  }

  lemma SliceOfPrefix<T>(s: seq<T>, n: nat, from: nat, take: nat)
    requires from + take <= n <= |s|
    ensures s[..n][from..from + take] == s[from..from + take]
  {
  }

  method CheckSuperBlock(data: seq<Byte>) returns (r: Outcome)
    ensures r.Success? <==> GoodSuperBlock(data)
  {
    hide IsPowerOfTwo, ReadU32;
    if |data| < SUPER_BLOCK_SIZE {
      return Failure(MsfError.InvalidArgument);
    }
    if data[..32] != MAGIC {
      return Failure(InvalidMsf);
    }
    var header := SuperBlockOf(data);
    if !IsPowerOfTwo(header.blockSize) || header.blockSize < 512 || header.numBlocks == 0
       || header.directoryBytes == 0 {
      return Failure(InvalidSuperBlock);
    }
    var full := CheckedMul(header.numBlocks, header.blockSize);
    SmallProduct(header.numBlocks, header.blockSize);
    if full.None? || full.value > |data| {
      return Failure(OutOfBounds);
    }
    return Success;
  }

  /** 32-bit factors never trip the overflow check. */
  lemma SmallProduct(a: nat, b: nat)
    requires a <= MAX_UINT32 && b <= MAX_UINT32
    ensures a * b <= MAX_UINT64
  {
    MulMono(b, a, MAX_UINT32);
    assert MAX_UINT32 * b <= MAX_UINT32 * MAX_UINT32;
  }

  lemma SuperBlockFacts(data: seq<Byte>)
    requires GoodSuperBlock(data)
    ensures |data| >= SUPER_BLOCK_SIZE
    ensures var h := SuperBlockOf(data); h.blockSize > 0 && h.numBlocks * h.blockSize <= |data|
  {
  }

  /** Gathers the directory from the blocks its map names. */
  method ReadDirectory(data: seq<Byte>, header: SuperBlock) returns (dir: Option<seq<Byte>>)
    requires GoodSuperBlock(data) && header == SuperBlockOf(data)
    ensures dir == if GoodBlockMap(data) then Some(Directory(data)) else None
  {
    hide ReadU32, IsPowerOfTwo, AlignUp, BlocksFor, Joined, Entry;
    var count := BlocksFor(header.directoryBytes, header.blockSize);
    BlocksForIsCeiling(header.directoryBytes, header.blockSize);
    CountIsSmall(count, header.blockSize, header.directoryBytes);
    SmallProduct(header.blockMapAddress, header.blockSize);
    var mapOffset := CheckedMul(header.blockMapAddress, header.blockSize);
    var mapBytes := CheckedMul(count, 4);
    if mapOffset.None? || mapBytes.None? || mapOffset.value + mapBytes.value > |data| {
      return None;
    }
    var bytes, blocks :=
      GatherBlocks(data, header.blockSize, header.numBlocks, mapOffset.value, count, header.directoryBytes);
    if bytes.None? {
      return None;
    }
    assert blocks == BlockMap(data);
    dir := bytes;
  }

  lemma CountIsSmall(count: nat, blockSize: nat, size: nat)
    requires blockSize > 0 && (count > 0 ==> (count - 1) * blockSize < size)
    ensures count <= size
  {
    if count > 0 {
      MulMono(count - 1, 1, blockSize);
      assert (count - 1) * 1 <= (count - 1) * blockSize;
    }
  }

  /** The copy loop of `ReadDirectory`. */
  method GatherBlocks(data: seq<Byte>, blockSize: nat, numBlocks: nat, base: nat, count: nat, size: nat)
    returns (bytes: Option<seq<Byte>>, ghost blocks: seq<nat>)
    requires numBlocks * blockSize <= |data| && base + 4 * count <= |data|
    requires size <= count * blockSize && (count > 0 ==> (count - 1) * blockSize < size)
    ensures bytes.Some? <==> EntriesBelow(data, base, count, numBlocks)
    ensures bytes.Some? ==>
      && |blocks| == count && EntriesAre(data, base, blocks)
      && BlocksInRange(data, blockSize, blocks) && bytes.value == Joined(data, blockSize, blocks)[..size]
  {
    hide Entry, Joined;
    JoinedNothing(data, blockSize);
    var gathered: seq<Byte>, left := [], size;
    blocks := [];
    for i := 0 to count
      invariant |blocks| == i && BlocksInRange(data, blockSize, blocks) && 0 <= left
      invariant EntriesAre(data, base, blocks) && EntriesBelow(data, base, i, numBlocks)
      invariant |gathered| + left == size && |gathered| == Min(i * blockSize, size)
      invariant gathered <= Joined(data, blockSize, blocks)
    {
      var block := Entry(data, base, i);
      if block >= numBlocks {
        return None, blocks;
      }
      var copy := if left > blockSize then blockSize else left;
      InRangeBlock(data, blockSize, numBlocks, block);
      MulMono(blockSize, i, count - 1);
      gathered := GrowJoined(data, blockSize, blocks, gathered, block, copy);
      left := left - copy;
      blocks := blocks + [block];
    }
    bytes := Some(gathered);
  }

  lemma JoinedNothing(data: seq<Byte>, blockSize: nat)
    ensures BlocksInRange(data, blockSize, []) && Joined(data, blockSize, []) == []
  {
  }

  /** Appends the part of one more block that still belongs to the directory. */
  method GrowJoined(data: seq<Byte>, blockSize: nat, ghost blocks: seq<nat>, gathered: seq<Byte>, block: nat, copy: nat)
    returns (grown: seq<Byte>)
    requires BlocksInRange(data, blockSize, blocks) && block * blockSize + blockSize <= |data| && copy <= blockSize
    requires |gathered| == |blocks| * blockSize && gathered <= Joined(data, blockSize, blocks)
    ensures BlocksInRange(data, blockSize, blocks + [block])
    ensures |grown| == |gathered| + copy && grown <= Joined(data, blockSize, blocks + [block])
  {
    hide Joined;
    JoinedSnoc(data, blockSize, blocks, block);
    assert gathered == Joined(data, blockSize, blocks);
    var start := block * blockSize;
    grown := gathered + data[start..start + copy];
    assert data[start..start + copy] <= data[start..start + blockSize];
  }

  lemma JoinedSnoc(data: seq<Byte>, blockSize: nat, blocks: seq<nat>, block: nat)
    requires BlocksInRange(data, blockSize, blocks) && block * blockSize + blockSize <= |data|
    ensures BlocksInRange(data, blockSize, blocks + [block])
    ensures Joined(data, blockSize, blocks + [block])
         == Joined(data, blockSize, blocks) + data[block * blockSize..block * blockSize + blockSize]
  {
    assert (blocks + [block])[..|blocks|] == blocks;
  }

  lemma BadEntry(dir: seq<Byte>, blockSize: nat, blockCount: nat, k: nat)
    requires blockSize > 0 && 4 <= |dir| && 4 + 4 * ReadU32(dir, 0) + 4 * k + 4 <= |dir|
    requires k < BlocksBefore(dir, blockSize, ReadU32(dir, 0))
    requires Entry(dir, 4 + 4 * ReadU32(dir, 0), k) >= blockCount
    ensures !GoodDirectory(dir, blockSize, blockCount)
  {
    hide ReadU32, Entry, BlocksBefore;
  }

  /** Reads the stream sizes, then the block numbers. */
  method ParseDirectory(dir: seq<Byte>, blockSize: nat, blockCount: nat)
    returns (r: Outcome, streams: seq<StreamDescriptor>, blocks: seq<nat>)
    requires blockSize > 0
    ensures r.Success? <==> GoodDirectory(dir, blockSize, blockCount)
    ensures r.Success? ==> IsLayout(dir, blockSize, streams, blocks)
  {
    hide ReadU32, BlockCountOf, Entry;
    streams, blocks := [], [];
    if |dir| < 4 {
      return Failure(InvalidStreamDirectory), streams, blocks;
    }
    var count := ReadU32(dir, 0);
    if count * 4 > |dir| - 4 {
      return Failure(InvalidStreamDirectory), streams, blocks;
    }
    var cursor := 0;
    for i := 0 to count
      invariant |streams| == i && cursor == BlocksBefore(dir, blockSize, i) <= MAX_UINT32
      invariant forall k :: 0 <= k < i ==> IsDescriptor(dir, blockSize, k, streams[k])
    {
      var size := Entry(dir, 4, i);
      var needed := BlockCountOf(size, blockSize);
      streams := streams + [StreamDescriptor(size, cursor, needed)];
      BlocksBeforeGrows(dir, blockSize, i + 1, count);
      if needed > MAX_UINT32 - cursor {
        return Failure(IntegerOverflow), streams, blocks;
      }
      cursor := cursor + needed;
    }
    var base := 4 + 4 * count;
    for i := 0 to count
      invariant |blocks| == BlocksBefore(dir, blockSize, i) && base + 4 * |blocks| <= |dir|
      invariant EntriesAre(dir, base, blocks) && EntriesBelow(dir, base, |blocks|, blockCount)
    {
      BlocksBeforeGrows(dir, blockSize, i + 1, count);
      assert IsDescriptor(dir, blockSize, i, streams[i]);
      assert BlocksBefore(dir, blockSize, i + 1) == BlocksBefore(dir, blockSize, i) + streams[i].blockCount;
      for j := 0 to streams[i].blockCount
        invariant |blocks| == BlocksBefore(dir, blockSize, i) + j && base + 4 * |blocks| <= |dir|
        invariant EntriesAre(dir, base, blocks) && EntriesBelow(dir, base, |blocks|, blockCount)
      {
        if base + 4 * |blocks| + 4 > |dir| {
          return Failure(InvalidStreamDirectory), streams, blocks;
        }
        var block := Entry(dir, base, |blocks|);
        if block >= blockCount {
          BadEntry(dir, blockSize, blockCount, |blocks|);
          return Failure(InvalidStreamDirectory), streams, blocks;
        }
        blocks := blocks + [block];
      }
    }
    r := Success;
  }

  function Last<T>(s: seq<T>): T
    requires s != []
  {
    s[|s| - 1]
  }

  /** Quotient and remainder. */
  function DivMod(n: nat, d: nat): (qr: (nat, nat))
    requires d > 0
    ensures qr.0 * d + qr.1 == n && qr.1 < d
  {
    (n / d, n % d)
  }

  method CopyInto(destination: array<Byte>, at: nat, bytes: seq<Byte>)
    requires at + |bytes| <= destination.Length
    modifies destination
    ensures destination[at..at + |bytes|] == bytes
    ensures forall i :: 0 <= i < destination.Length && !(at <= i < at + |bytes|) ==>
      destination[i] == old(destination[i])
  {
    forall i | 0 <= i < |bytes| {
      destination[at + i] := bytes[i];
    }
  }
}
