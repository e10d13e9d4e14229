/**
 Container files described from the writer's side: where the numbers and the bytes of every stream have
 to stand.  Exactly such files are opened, and their streams are what is read back.
 */
module MsfImages {
  import opened Core
  import opened Msf
  import Digits

  // ------------------------------------------------------------ numbers

  /** A number as four bytes, least significant first. */
  function U32(v: nat): (bytes: seq<Byte>)
    ensures |bytes| == 4
  {
    [v % 256, v / 256 % 256, v / 0x1_0000 % 256, v / 0x100_0000 % 256]
  }

  function U32s(values: seq<nat>): (bytes: seq<Byte>)
    ensures |bytes| == 4 * |values|
  {
    if values == [] then [] else U32s(values[..|values| - 1]) + U32(values[|values| - 1])
  }

  /** Reading a number gives exactly the one written. */
  lemma ReadsBack(bytes: seq<Byte>, at: nat, v: nat)
    requires at + 4 <= |bytes| && v <= MAX_UINT32
    ensures ReadU32(bytes, at) == v <==> bytes[at..at + 4] == U32(v)
  {
    var four := bytes[at..at + 4];
    assert four == [bytes[at], bytes[at + 1], bytes[at + 2], bytes[at + 3]];
    FourDigits(bytes[at], bytes[at + 1], bytes[at + 2], bytes[at + 3], v);
  }

  /** One digit in base 256 and the number in front of it. */
  lemma LowDigit(v: nat, a: Byte, w: nat)
    ensures v == a + 256 * w <==> a == v % 256 && w == v / 256
  {
  }

  lemma DivideOn(v: nat)
    ensures v / 256 / 256 == v / 0x1_0000 && v / 0x1_0000 / 256 == v / 0x100_0000
    ensures v <= MAX_UINT32 ==> v / 0x100_0000 < 256
  {
  }

  lemma FourDigits(a: Byte, b: Byte, c: Byte, d: Byte, v: nat)
    requires v <= MAX_UINT32
    ensures a + 0x100 * b + 0x1_0000 * c + 0x100_0000 * d == v <==>
      a == v % 256 && b == v / 256 % 256 && c == v / 0x1_0000 % 256 && d == v / 0x100_0000 % 256
  {
    DivideOn(v);
    var v1, v2, v3 := v / 256, v / 0x1_0000, v / 0x100_0000;
    LowDigit(v, a, b + 256 * (c + 256 * d));
    LowDigit(v1, b, c + 256 * d);
    LowDigit(v2, c, d);
    LowDigit(v3, d, 0);
  }

  lemma {:induction false} TableAt(values: seq<nat>, i: nat)
    requires i < |values|
    ensures U32s(values)[4 * i..4 * i + 4] == U32(values[i])
  {
    hide U32;
    var last := |values| - 1;
    if i < last {
      TableAt(values[..last], i);
      assert U32s(values)[4 * i..4 * i + 4] == U32s(values[..last])[4 * i..4 * i + 4];
    }
  }

  predicate AreU32(values: seq<nat>) { forall i :: 0 <= i < |values| ==> values[i] <= MAX_UINT32 }

  lemma InTwo<T>(s: seq<T>, a: seq<T>, b: seq<T>)
    requires |s| == |a| + |b|
    ensures s == a + b <==> s[..|a|] == a && s[|a|..] == b
  {
    assert s == s[..|a|] + s[|a|..];
  }

  /** A table reads as the numbers written, and only then. */
  lemma {:induction false} TableReads(bytes: seq<Byte>, base: nat, values: seq<nat>)
    requires base + 4 * |values| <= |bytes| && AreU32(values)
    ensures EntriesAre(bytes, base, values) <==> bytes[base..base + 4 * |values|] == U32s(values)
  {
    hide U32, ReadU32;
    if values == [] {
    } else {
      var last := |values| - 1;
      var front, at := values[..last], base + 4 * last;
      TableReads(bytes, base, front);
      ReadsBack(bytes, at, values[last]);
      LastEntry(bytes, base, values);
      InTwo(bytes[base..at + 4], U32s(front), U32(values[last]));
      assert bytes[base..at + 4][..4 * last] == bytes[base..at] && bytes[base..at + 4][4 * last..] == bytes[at..at + 4];
    }
  }

  lemma LastEntry(bytes: seq<Byte>, base: nat, values: seq<nat>)
    requires values != [] && base + 4 * |values| <= |bytes|
    ensures var last := |values| - 1;
            EntriesAre(bytes, base, values) <==>
              EntriesAre(bytes, base, values[..last]) && values[last] == Entry(bytes, base, last)
  {
    hide Entry;
  }

  // ------------------------------------------------------------ what a container holds

  /** A stream that was deleted is `None`. */
  datatype Container = Container(
    shift: nat, blockCount: nat, mapAddress: nat, directory: seq<Byte>, directoryBlocks: seq<nat>,
    streams: seq<Option<seq<Byte>>>, streamBlocks: seq<seq<nat>>)
  {
    function BlockSize(): (size: nat)
      ensures size > 0
    {
      Digits.PowerPositive(2, shift);
      Digits.Power(2, shift)
    }
  }

  function Ascii(text: string): seq<Byte>
    requires forall i :: 0 <= i < |text| ==> text[i] < 128 as char
  {
    seq(|text|, i requires 0 <= i < |text| => text[i] as int)
  }

  /** The super block: what the file is, and its numbers. */
  predicate HasHeader(data: seq<Byte>, c: Container) {
    && |data| >= 56
    && data[..32] == Ascii("Microsoft C/C++ MSF 7.00") + [13, 10, 26] + Ascii("DS") + [0, 0, 0]
    && data[32..36] == U32(c.BlockSize()) && data[40..44] == U32(c.blockCount)
    && data[44..48] == U32(|c.directory|) && data[52..56] == U32(c.mapAddress)
    && 9 <= c.shift <= 31 && 0 < c.blockCount <= MAX_UINT32 && 0 < |c.directory| <= MAX_UINT32
    && c.mapAddress <= MAX_UINT32 && c.blockCount * c.BlockSize() <= |data|
  }

  /** Byte `k` stands in the block for its part, at the place it has there. */
  predicate HoldsByte(data: seq<Byte>, blockSize: nat, blocks: seq<nat>, bytes: seq<Byte>, k: nat)
    requires blockSize > 0 && k < |bytes|
  {
    && k / blockSize < |blocks|
    && blocks[k / blockSize] * blockSize + k % blockSize < |data|
    && data[blocks[k / blockSize] * blockSize + k % blockSize] == bytes[k]
  }

  /** Existing blocks, no more than it takes, hold the bytes. */
  predicate Holds(data: seq<Byte>, blockSize: nat, blockCount: nat, blocks: seq<nat>, bytes: seq<Byte>)
    requires blockSize > 0
  {
    && (forall i :: 0 <= i < |blocks| ==> blocks[i] < blockCount)
    && |bytes| <= |blocks| * blockSize && (blocks != [] ==> (|blocks| - 1) * blockSize < |bytes|)
    && forall k :: 0 <= k < |bytes| ==> HoldsByte(data, blockSize, blocks, bytes, k)
  }

  function SizesOf(streams: seq<Option<seq<Byte>>>): (sizes: seq<nat>)
    ensures |sizes| == |streams|
  {
    seq(|streams|, i requires 0 <= i < |streams| => if streams[i].None? then 0xFFFF_FFFF else |streams[i].value|)
  }

  /** The directory: how many streams, their sizes, their blocks. */
  predicate Lists(directory: seq<Byte>, streams: seq<Option<seq<Byte>>>, streamBlocks: seq<seq<nat>>) {
    && |streams| <= MAX_UINT32 && |Flatten(streamBlocks)| <= MAX_UINT32
    && U32(|streams|) + U32s(SizesOf(streams)) + U32s(Flatten(streamBlocks)) <= directory
  }

  predicate HasDirectory(data: seq<Byte>, c: Container) {
    var base := c.mapAddress * c.BlockSize();
    && base + 4 * |c.directoryBlocks| <= |data|
    && data[base..base + 4 * |c.directoryBlocks|] == U32s(c.directoryBlocks)
    && Holds(data, c.BlockSize(), c.blockCount, c.directoryBlocks, c.directory)
    && Lists(c.directory, c.streams, c.streamBlocks)
  }

  predicate HasStream(data: seq<Byte>, c: Container, i: nat)
    requires i < |c.streams| == |c.streamBlocks|
  {
    match c.streams[i]
    case None => c.streamBlocks[i] == []
    case Some(bytes) => |bytes| < 0xFFFF_FFFF && Holds(data, c.BlockSize(), c.blockCount, c.streamBlocks[i], bytes)
  }

  /** The file stores these streams, wherever their blocks are. */
  predicate Stores(data: seq<Byte>, c: Container) {
    && HasHeader(data, c) && HasDirectory(data, c)
    && |c.streams| == |c.streamBlocks| && forall i :: 0 <= i < |c.streams| ==> HasStream(data, c, i)
  }

  // ------------------------------------------------------------ stored files are opened

  lemma {:induction false} PowersAre(v: nat)
    requires IsPowerOfTwo(v)
    ensures exists k: nat :: v == Digits.Power(2, k)
  {
    if v == 1 {
      assert Digits.Power(2, 0) == 1;
    } else {
      PowersAre(v / 2);
      var k: nat :| v / 2 == Digits.Power(2, k);
      assert Digits.Power(2, k + 1) == v;
    }
  }

  lemma {:induction false} PowerIsPower(k: nat)
    ensures IsPowerOfTwo(Digits.Power(2, k))
  {
    if k > 0 {
      PowerIsPower(k - 1);
      Digits.PowerPositive(2, k - 1);
    }
  }

  /** Sizes from 512 to 2^31 are the ones a 32-bit power of two can have. */
  lemma ShiftBounds(k: nat)
    ensures 512 <= Digits.Power(2, k) <= MAX_UINT32 <==> 9 <= k <= 31
  {
    assert Digits.Power(2, 9) == 512;
    assert Digits.Power(2, 32) == 0x1_0000_0000 by {
      Digits.PowerAdd(2, 16, 16);
      Digits.PowerAdd(2, 8, 8);
      assert Digits.Power(2, 8) == 256;
    }
    if k < 9 {
      PowerStrict(k, 9);
    } else {
      PowerMono(9, k);
    }
    if k < 32 {
      PowerStrict(k, 32);
    } else {
      PowerMono(32, k);
    }
  }

  lemma {:induction false} PowerMono(m: nat, n: nat)
    requires m <= n
    ensures Digits.Power(2, m) <= Digits.Power(2, n)
    decreases n
  {
    if m < n {
      PowerMono(m, n - 1);
    }
  }

  lemma PowerStrict(m: nat, n: nat)
    requires m < n
    ensures Digits.Power(2, m) < Digits.Power(2, n)
  {
    PowerMono(m + 1, n);
    Digits.PowerPositive(2, m);
  }

  lemma MagicIsText()
    ensures MAGIC == Ascii("Microsoft C/C++ MSF 7.00") + [13, 10, 26] + Ascii("DS") + [0, 0, 0]
  {
  }

  lemma HeaderReads(data: seq<Byte>, c: Container)
    requires HasHeader(data, c)
    ensures GoodSuperBlock(data)
    ensures SuperBlockOf(data) == SuperBlock(c.BlockSize(), c.blockCount, |c.directory|, c.mapAddress)
  {
    hide U32, ReadU32, IsPowerOfTwo, Digits.Power, Ascii;
    MagicIsText();
    ShiftBounds(c.shift);
    PowerIsPower(c.shift);
    ReadsBack(data, 32, c.BlockSize());
    ReadsBack(data, 40, c.blockCount);
    ReadsBack(data, 44, |c.directory|);
    ReadsBack(data, 52, c.mapAddress);
  }

  /** There is one least number of blocks. */
  lemma CeilingIsUnique(size: nat, blockSize: nat, n: nat)
    requires blockSize > 0 && size <= n * blockSize && (n > 0 ==> (n - 1) * blockSize < size)
    ensures n == BlocksFor(size, blockSize)
  {
    hide BlocksFor;
    var m := BlocksFor(size, blockSize);
    BlocksForIsCeiling(size, blockSize);
    MulMono(blockSize, n, if m > 0 then m - 1 else 0);
    MulMono(blockSize, m, if n > 0 then n - 1 else 0);
  }

  /** Bytes held by blocks are what joining the blocks gives. */
  lemma HeldIsJoined(data: seq<Byte>, blockSize: nat, blockCount: nat, blocks: seq<nat>, bytes: seq<Byte>)
    requires blockSize > 0 && blockCount * blockSize <= |data| && Holds(data, blockSize, blockCount, blocks, bytes)
    ensures BlocksInRange(data, blockSize, blocks) && |blocks| == BlocksFor(|bytes|, blockSize)
    ensures |bytes| <= |Joined(data, blockSize, blocks)| && Joined(data, blockSize, blocks)[..|bytes|] == bytes
  {
    hide Joined, BlocksFor;
    BlocksAreInRange(data, blockSize, blockCount, blocks);
    CeilingIsUnique(|bytes|, blockSize, |blocks|);
    var joined := Joined(data, blockSize, blocks);
    forall k | 0 <= k < |bytes| ensures joined[k] == bytes[k] {
      assert HoldsByte(data, blockSize, blocks, bytes, k);
      JoinedAt(data, blockSize, blocks, k / blockSize, k % blockSize);
      Place(k, blockSize, |blocks|);
    }
  }

  /** Conversely, the joined blocks hold their first bytes. */
  lemma JoinedIsHeld(data: seq<Byte>, blockSize: nat, blockCount: nat, blocks: seq<nat>, size: nat)
    requires blockSize > 0 && blockCount * blockSize <= |data| && |blocks| == BlocksFor(size, blockSize)
    requires BlocksInRange(data, blockSize, blocks) && forall i :: 0 <= i < |blocks| ==> blocks[i] < blockCount
    ensures size <= |Joined(data, blockSize, blocks)|
    ensures Holds(data, blockSize, blockCount, blocks, Joined(data, blockSize, blocks)[..size])
  {
    hide Joined, BlocksFor;
    BlocksForIsCeiling(size, blockSize);
    var bytes := Joined(data, blockSize, blocks)[..size];
    forall k | 0 <= k < size ensures HoldsByte(data, blockSize, blocks, bytes, k) {
      Place(k, blockSize, |blocks|);
      JoinedAt(data, blockSize, blocks, k / blockSize, k % blockSize);
      assert blocks[k / blockSize] * blockSize + blockSize <= |data|;
    }
  }

  /** Block and offset of a byte. */
  lemma Place(k: nat, blockSize: nat, count: nat)
    requires blockSize > 0
    ensures k / blockSize * blockSize + k % blockSize == k
    ensures k < count * blockSize ==> k / blockSize < count
  {
    MulMono(blockSize, count, k / blockSize);
  }

  lemma DirectoryReads(data: seq<Byte>, c: Container)
    requires HasHeader(data, c) && HasDirectory(data, c)
    ensures GoodSuperBlock(data) && GoodBlockMap(data) && Directory(data) == c.directory
  {
    hide U32, U32s, ReadU32, Entry, GoodSuperBlock, BlocksFor, Joined, Lists;
    HeaderReads(data, c);
    var base := c.mapAddress * c.BlockSize();
    HeldIsJoined(data, c.BlockSize(), c.blockCount, c.directoryBlocks, c.directory);
    TableReads(data, base, c.directoryBlocks);
    assert EntriesBelow(data, base, |c.directoryBlocks|, c.blockCount);
    assert BlockMap(data) == c.directoryBlocks;
  }

  // ------------------------------------------------------------ streams

  /** One chunk inside all of them. */
  lemma {:induction false} ChunkAt<T>(chunks: seq<seq<T>>, i: nat)
    requires i < |chunks|
    ensures Flatten(chunks[..i + 1]) == Flatten(chunks[..i]) + chunks[i]
    ensures Flatten(chunks[..i + 1]) <= Flatten(chunks)
    decreases |chunks| - i
  {
    hide Flatten;
    assert chunks[..i + 1] == chunks[..i] + [chunks[i]];
    FlattenAppend(chunks[..i], chunks[i]);
    if i + 1 < |chunks| {
      ChunkAt(chunks, i + 1);
    } else {
      assert chunks[..i + 1] == chunks;
    }
  }

  predicate Below(values: seq<nat>, limit: nat) { forall k :: 0 <= k < |values| ==> values[k] < limit }

  lemma {:induction false} AllBelow(chunks: seq<seq<nat>>, limit: nat)
    requires forall i :: 0 <= i < |chunks| ==> Below(chunks[i], limit)
    ensures Below(Flatten(chunks), limit)
  {
    if chunks != [] {
      AllBelow(chunks[1..], limit);
    }
  }

  /** The parts of a directory. */
  lemma ListsReads(directory: seq<Byte>, streams: seq<Option<seq<Byte>>>, streamBlocks: seq<seq<nat>>)
    requires Lists(directory, streams, streamBlocks) && AreU32(SizesOf(streams)) && AreU32(Flatten(streamBlocks))
    ensures var n, total := |streams|, |Flatten(streamBlocks)|;
            && 4 + 4 * n + 4 * total <= |directory| && ReadU32(directory, 0) == n
            && EntriesAre(directory, 4, SizesOf(streams)) && EntriesAre(directory, 4 + 4 * n, Flatten(streamBlocks))
  {
    hide U32, U32s, ReadU32, Entry, SizesOf, Flatten, EntriesAre;
    var n, sizes, blocks := |streams|, SizesOf(streams), Flatten(streamBlocks);
    var text := U32(n) + U32s(sizes) + U32s(blocks);
    assert text <= directory;
    assert directory[0..4] == text[0..4] == U32(n);
    assert directory[4..4 + 4 * n] == text[4..4 + 4 * n] == U32s(sizes);
    assert directory[4 + 4 * n..4 + 4 * n + 4 * |blocks|] == text[4 + 4 * n..] == U32s(blocks);
    ReadsBack(directory, 0, n);
    TableReads(directory, 4, sizes);
    TableReads(directory, 4 + 4 * n, blocks);
  }

  /** How many blocks the size of a stream calls for. */
  lemma StreamCount(data: seq<Byte>, c: Container, i: nat)
    requires i < |c.streams| == |c.streamBlocks| && HasStream(data, c, i) && c.blockCount * c.BlockSize() <= |data|
    ensures BlockCountOf(SizesOf(c.streams)[i], c.BlockSize()) == |c.streamBlocks[i]|
    ensures SizesOf(c.streams)[i] <= MAX_UINT32 && (c.streams[i].None? <==> SizesOf(c.streams)[i] == DELETED_STREAM)
    ensures Below(c.streamBlocks[i], c.blockCount)
  {
    if c.streams[i].Some? {
      HeldIsJoined(data, c.BlockSize(), c.blockCount, c.streamBlocks[i], c.streams[i].value);
    }
  }

  predicate CountsFit(c: Container) {
    && |c.streams| == |c.streamBlocks|
    && forall i :: 0 <= i < |c.streams| ==>
         BlockCountOf(SizesOf(c.streams)[i], c.BlockSize()) == |c.streamBlocks[i]|
  }

  /** Facts about all streams of a stored container. */
  lemma StreamsCount(data: seq<Byte>, c: Container)
    requires Stores(data, c)
    ensures CountsFit(c)
    ensures AreU32(SizesOf(c.streams)) && AreU32(Flatten(c.streamBlocks))
    ensures Below(Flatten(c.streamBlocks), c.blockCount)
  {
    hide BlockCountOf, Holds, SizesOf, Below, HasDirectory, Flatten, U32;
    forall i | 0 <= i < |c.streams|
      ensures BlockCountOf(SizesOf(c.streams)[i], c.BlockSize()) == |c.streamBlocks[i]|
      ensures SizesOf(c.streams)[i] <= MAX_UINT32
      ensures Below(c.streamBlocks[i], c.blockCount)
    {
      StreamCount(data, c, i);
    }
    AllBelow(c.streamBlocks, c.blockCount);
    SmallIsU32(Flatten(c.streamBlocks), c.blockCount);
  }

  lemma SmallIsU32(values: seq<nat>, limit: nat)
    requires Below(values, limit) && limit <= MAX_UINT32
    ensures AreU32(values)
  {
  }

  /** The running block count of the directory. */
  lemma {:induction false} BlocksCounted(directory: seq<Byte>, blockSize: nat, sizes: seq<nat>,
                                         streamBlocks: seq<seq<nat>>, i: nat)
    requires blockSize > 0 && i <= |sizes| == |streamBlocks| && 4 + 4 * |sizes| <= |directory|
    requires EntriesAre(directory, 4, sizes)
    requires forall k :: 0 <= k < |sizes| ==> BlockCountOf(sizes[k], blockSize) == |streamBlocks[k]|
    ensures BlocksBefore(directory, blockSize, i) == |Flatten(streamBlocks[..i])|
  {
    hide BlockCountOf, Entry;
    if i > 0 {
      BlocksCounted(directory, blockSize, sizes, streamBlocks, i - 1);
      ChunkAt(streamBlocks, i - 1);
      assert sizes[i - 1] == Entry(directory, 4, i - 1);
    }
  }

  lemma GoodDirectoryOf(data: seq<Byte>, c: Container)
    requires Stores(data, c)
    ensures GoodDirectory(c.directory, c.BlockSize(), c.blockCount)
    ensures BlocksBefore(c.directory, c.BlockSize(), |c.streams|) == |Flatten(c.streamBlocks)|
  {
    hide ReadU32, Entry, BlockCountOf, HasStream, SizesOf, Flatten, U32, U32s, Holds;
    StreamsCount(data, c);
    ListsReads(c.directory, c.streams, c.streamBlocks);
    BlocksCounted(c.directory, c.BlockSize(), SizesOf(c.streams), c.streamBlocks, |c.streams|);
    assert c.streamBlocks[..|c.streams|] == c.streamBlocks;
  }

  /** Main result for writing: a file that stores streams is accepted, wherever their blocks are. */
  lemma StoredIsMsf(data: seq<Byte>, c: Container)
    requires Stores(data, c)
    ensures IsMsf(data) && Directory(data) == c.directory && SuperBlockOf(data).blockSize == c.BlockSize()
  {
    hide GoodSuperBlock, GoodBlockMap, Directory, GoodDirectory, HasStream, U32, U32s, ReadU32, SuperBlockOf;
    HeaderReads(data, c);
    DirectoryReads(data, c);
    GoodDirectoryOf(data, c);
  }

  /** What an opened file knows of a stored container. */
  lemma LayoutIs(data: seq<Byte>, c: Container, streams: seq<StreamDescriptor>, blocks: seq<nat>)
    requires Stores(data, c) && IsLayout(c.directory, c.BlockSize(), streams, blocks)
    ensures |streams| == |c.streams| && blocks == Flatten(c.streamBlocks)
    ensures forall i :: 0 <= i < |streams| ==>
      && streams[i].size == SizesOf(c.streams)[i] && streams[i].blockBegin == |Flatten(c.streamBlocks[..i])|
      && streams[i].blockCount == |c.streamBlocks[i]|
  {
    hide ReadU32, Entry, BlockCountOf, HasStream, SizesOf, Flatten, U32, U32s, Holds;
    StreamsCount(data, c);
    ListsReads(c.directory, c.streams, c.streamBlocks);
    GoodDirectoryOf(data, c);
    forall i: nat | i < |streams|
      ensures streams[i].size == SizesOf(c.streams)[i] && streams[i].blockBegin == |Flatten(c.streamBlocks[..i])|
      ensures streams[i].blockCount == |c.streamBlocks[i]|
    {
      BlocksCounted(c.directory, c.BlockSize(), SizesOf(c.streams), c.streamBlocks, i);
      assert IsDescriptor(c.directory, c.BlockSize(), i, streams[i]);
      assert SizesOf(c.streams)[i] == Entry(c.directory, 4, i);
    }
    assert forall k :: 0 <= k < |blocks| ==> blocks[k] == Entry(c.directory, 4 + 4 * |c.streams|, k)
                                          == Flatten(c.streamBlocks)[k];
  }

  lemma OwnBlocks(file: MsfFile, c: Container, i: nat)
    requires file.Tiled() && Stores(file.data, c) && file.blockSize == c.BlockSize()
    requires IsLayout(c.directory, c.BlockSize(), file.streams, file.streamBlocks) && i < |c.streams|
    ensures i < |file.streams| && (file.streams[i].size == DELETED_STREAM <==> c.streams[i].None?)
    ensures c.streams[i].Some? ==>
      file.streams[i].size == |c.streams[i].value| && file.BlocksOf(i) == c.streamBlocks[i]
  {
    hide Joined, IsLayout, Flatten, BlockCountOf, SizesOf, Holds, HasHeader, HasDirectory, BlocksInRange, MsfFile.Tiled;
    LayoutIs(file.data, c, file.streams, file.streamBlocks);
    assert HasStream(file.data, c, i);
    SizeOf(c.streams, i);
    if c.streams[i].Some? {
      ChunkAt(c.streamBlocks, i);
      SliceIs(Flatten(c.streamBlocks[..i]), c.streamBlocks[i], Flatten(c.streamBlocks));
      assert file.BlocksOf(i) == c.streamBlocks[i];
    }
  }

  lemma SliceIs(front: seq<nat>, own: seq<nat>, all: seq<nat>)
    requires front + own <= all
    ensures forall k :: 0 <= k < |own| ==> all[|front| + k] == own[k]
  {
    assert forall k :: 0 <= k < |own| ==> own[k] == (front + own)[|front| + k] == all[|front| + k];
  }

  /** The bytes an opened file gives for a stream are the ones stored. */
  lemma StreamIs(file: MsfFile, c: Container, i: nat)
    requires file.Tiled() && Stores(file.data, c) && file.blockSize == c.BlockSize()
    requires IsLayout(c.directory, c.BlockSize(), file.streams, file.streamBlocks) && i < |c.streams|
    ensures i < |file.streams| && (file.streams[i].size == DELETED_STREAM <==> c.streams[i].None?)
    ensures c.streams[i].Some? ==> file.StreamBytes(i) == c.streams[i].value
  {
    hide Joined, IsLayout, Flatten, Holds, HasDirectory, BlocksInRange, MsfFile.Tiled, MsfFile.BlocksOf;
    OwnBlocks(file, c, i);
    assert HasStream(file.data, c, i);
    if c.streams[i].Some? {
      HeldIsJoined(file.data, c.BlockSize(), c.blockCount, c.streamBlocks[i], c.streams[i].value);
    }
  }

  lemma SizeOf(streams: seq<Option<seq<Byte>>>, i: nat)
    requires i < |streams|
    ensures SizesOf(streams)[i] == if streams[i].None? then 0xFFFF_FFFF else |streams[i].value|
  {
  }

  /**
   Main result: whatever streams a file stores, and wherever their blocks are, opening it succeeds and
   reading a stream gives its bytes.
   */
  method ReadBack(data: seq<Byte>, ghost c: Container, index: nat)
    returns (accepted: Outcome, r: Outcome, bytes: array<Byte>)
    requires Stores(data, c)
    ensures accepted == Success
    ensures r == if index < |c.streams| && c.streams[index].Some? then Success else Failure(InvalidStream)
    ensures r == Success ==> bytes[..] == c.streams[index].value
  {
    hide IsMsf, Stores, IsLayout, Directory, SuperBlockOf, MsfFile.Tiled, MsfFile.StreamBytes;
    StoredIsMsf(data, c);
    var file := new MsfFile();
    accepted := file.Open(data);
    LayoutIs(data, c, file.streams, file.streamBlocks);
    if index < |c.streams| {
      StreamIs(file, c, index);
    }
    r, bytes := file.ReadAll(index);
  }

  // ------------------------------------------------------------ accepted files store something

  predicate GoodParts(directory: seq<Byte>, blockSize: nat)
    requires blockSize > 0
  {
    && 4 <= |directory| && 4 + 4 * ReadU32(directory, 0) <= |directory|
    && 4 + 4 * ReadU32(directory, 0) + 4 * BlocksBefore(directory, blockSize, ReadU32(directory, 0)) <= |directory|
  }

  /** The block numbers a directory lists. */
  function BlockList(directory: seq<Byte>, blockSize: nat): (blocks: seq<nat>)
    requires blockSize > 0 && GoodParts(directory, blockSize)
    ensures |blocks| == BlocksBefore(directory, blockSize, ReadU32(directory, 0))
  {
    var base, total := 4 + 4 * ReadU32(directory, 0), BlocksBefore(directory, blockSize, ReadU32(directory, 0));
    assert base + 4 * total <= |directory|;
    seq(total, k requires 0 <= k < total => Entry(directory, base, k))
  }

  lemma PartBounds(directory: seq<Byte>, blockSize: nat, i: nat)
    requires blockSize > 0 && GoodParts(directory, blockSize) && i < ReadU32(directory, 0)
    ensures BlocksBefore(directory, blockSize, i) + BlockCountOf(Entry(directory, 4, i), blockSize)
         == BlocksBefore(directory, blockSize, i + 1) <= BlocksBefore(directory, blockSize, ReadU32(directory, 0))
  {
    hide ReadU32, Entry, BlockCountOf;
    BlocksBeforeGrows(directory, blockSize, i + 1, ReadU32(directory, 0));
  }

  /** The block numbers of stream `i`. */
  function OwnPart(directory: seq<Byte>, blockSize: nat, i: nat): (blocks: seq<nat>)
    requires blockSize > 0 && GoodParts(directory, blockSize) && i < ReadU32(directory, 0)
    ensures |blocks| == BlockCountOf(Entry(directory, 4, i), blockSize)
  {
    PartBounds(directory, blockSize, i);
    var from := BlocksBefore(directory, blockSize, i);
    BlockList(directory, blockSize)[from..from + BlockCountOf(Entry(directory, 4, i), blockSize)]
  }

  function AllParts(directory: seq<Byte>, blockSize: nat, n: nat): (parts: seq<seq<nat>>)
    requires blockSize > 0 && GoodParts(directory, blockSize) && n <= ReadU32(directory, 0)
    ensures |parts| == n && forall i :: 0 <= i < n ==> parts[i] == OwnPart(directory, blockSize, i)
  {
    if n == 0 then [] else AllParts(directory, blockSize, n - 1) + [OwnPart(directory, blockSize, n - 1)]
  }

  /** Together they are the block list. */
  lemma {:induction false} PartsAreList(directory: seq<Byte>, blockSize: nat, n: nat)
    requires blockSize > 0 && GoodParts(directory, blockSize) && n <= ReadU32(directory, 0)
    ensures BlocksBefore(directory, blockSize, n) <= |BlockList(directory, blockSize)|
    ensures Flatten(AllParts(directory, blockSize, n))
         == BlockList(directory, blockSize)[..BlocksBefore(directory, blockSize, n)]
  {
    hide ReadU32, Entry, BlockCountOf, Flatten, BlockList;
    if n > 0 {
      PartBounds(directory, blockSize, n - 1);
      PartsAreList(directory, blockSize, n - 1);
      FlattenAppend(AllParts(directory, blockSize, n - 1), OwnPart(directory, blockSize, n - 1));
    } else {
      FlattenNothing();
    }
  }

  lemma ListIsEntries(directory: seq<Byte>, blockSize: nat)
    requires blockSize > 0 && GoodParts(directory, blockSize)
    ensures EntriesAre(directory, 4 + 4 * ReadU32(directory, 0), BlockList(directory, blockSize))
  {
    hide ReadU32, Entry, BlocksBefore;
  }

  lemma FlattenNothing()
    ensures Flatten<nat>([]) == []
  {
  }

  /** What the blocks of stream `i` hold. */
  function StoredStream(data: seq<Byte>, directory: seq<Byte>, blockSize: nat, i: nat): Option<seq<Byte>>
    requires blockSize > 0 && GoodParts(directory, blockSize) && i < ReadU32(directory, 0)
    requires BlocksInRange(data, blockSize, OwnPart(directory, blockSize, i))
  {
    var size := Entry(directory, 4, i);
    if size == 0xFFFF_FFFF then None
    else
      BlocksForIsCeiling(size, blockSize);
      Some(Joined(data, blockSize, OwnPart(directory, blockSize, i))[..size])
  }

  /** The parts name existing blocks. */
  lemma PartInRange(data: seq<Byte>, directory: seq<Byte>, blockSize: nat, blockCount: nat, i: nat)
    requires blockSize > 0 && GoodDirectory(directory, blockSize, blockCount) && blockCount * blockSize <= |data|
    requires i < ReadU32(directory, 0)
    ensures Below(OwnPart(directory, blockSize, i), blockCount)
    ensures BlocksInRange(data, blockSize, OwnPart(directory, blockSize, i))
  {
    hide ReadU32, Entry, BlockCountOf;
    PartBounds(directory, blockSize, i);
    BlocksAreInRange(data, blockSize, blockCount, OwnPart(directory, blockSize, i));
  }

  /** The container an accepted file stores. */
  ghost function ContainerOf(data: seq<Byte>, shift: nat): Container
    requires IsMsf(data)
  {
    var h, directory := SuperBlockOf(data), Directory(data);
    var n := ReadU32(directory, 0);
    assert forall i: nat :: i < n ==> BlocksInRange(data, h.blockSize, OwnPart(directory, h.blockSize, i)) by {
      forall i: nat | i < n ensures BlocksInRange(data, h.blockSize, OwnPart(directory, h.blockSize, i)) {
        PartInRange(data, directory, h.blockSize, h.numBlocks, i);
      }
    }
    Container(shift, h.numBlocks, h.blockMapAddress, directory, BlockMap(data),
              seq(n, i requires 0 <= i < n => StoredStream(data, directory, h.blockSize, i)),
              AllParts(directory, h.blockSize, n))
  }

  lemma HeaderIsWritten(data: seq<Byte>, c: Container)
    requires GoodSuperBlock(data) && Digits.Power(2, c.shift) == SuperBlockOf(data).blockSize
    requires SuperBlockOf(data) == SuperBlock(c.BlockSize(), c.blockCount, |c.directory|, c.mapAddress)
    ensures HasHeader(data, c)
  {
    hide U32, ReadU32, IsPowerOfTwo, Digits.Power, Ascii;
    MagicIsText();
    ShiftBounds(c.shift);
    ReadsBack(data, 32, c.BlockSize());
    ReadsBack(data, 40, c.blockCount);
    ReadsBack(data, 44, |c.directory|);
    ReadsBack(data, 52, c.mapAddress);
  }

  lemma MapIsWritten(data: seq<Byte>)
    requires GoodSuperBlock(data) && GoodBlockMap(data)
    ensures var h, map_ := SuperBlockOf(data), BlockMap(data);
            var base := h.blockMapAddress * h.blockSize;
            && base + 4 * |map_| <= |data| && data[base..base + 4 * |map_|] == U32s(map_)
            && Holds(data, h.blockSize, h.numBlocks, map_, Directory(data))
  {
    hide U32, U32s, ReadU32, BlocksFor, Joined;
    var h, blocks := SuperBlockOf(data), BlockMap(data);
    BlocksAreInRange(data, h.blockSize, h.numBlocks, blocks);
    TableReads(data, h.blockMapAddress * h.blockSize, blocks);
    JoinedIsHeld(data, h.blockSize, h.numBlocks, blocks, h.directoryBytes);
  }

  lemma DirectoryIsWritten(directory: seq<Byte>, blockSize: nat, blockCount: nat, streams: seq<Option<seq<Byte>>>)
    requires blockSize > 0 && GoodDirectory(directory, blockSize, blockCount)
    requires |streams| == ReadU32(directory, 0) && EntriesAre(directory, 4, SizesOf(streams))
    ensures Lists(directory, streams, AllParts(directory, blockSize, |streams|))
  {
    hide U32, U32s, ReadU32, Entry, SizesOf, Flatten, BlockCountOf, AllParts, BlockList;
    var n, sizes := |streams|, SizesOf(streams);
    var blocks := BlockList(directory, blockSize);
    PartsAreList(directory, blockSize, n);
    ListIsEntries(directory, blockSize);
    assert blocks[..|blocks|] == blocks;
    ReadsBack(directory, 0, n);
    EntriesAreU32(directory, 4, sizes);
    EntriesAreU32(directory, 4 + 4 * n, blocks);
    TableReads(directory, 4, sizes);
    TableReads(directory, 4 + 4 * n, blocks);
    ThreeParts(directory, 4, 4 * n, 4 * |blocks|);
  }

  lemma EntriesAreU32(bytes: seq<Byte>, base: nat, values: seq<nat>)
    requires base + 4 * |values| <= |bytes| && EntriesAre(bytes, base, values)
    ensures AreU32(values)
  {
    hide Entry;
  }

  lemma ThreeParts(s: seq<Byte>, a: nat, b: nat, c: nat)
    requires a + b + c <= |s|
    ensures s[0..a] + s[a..a + b] + s[a + b..a + b + c] <= s
  {
    assert s[0..a] + s[a..a + b] + s[a + b..a + b + c] == s[..a + b + c];
  }

  lemma StreamIsWritten(data: seq<Byte>, c: Container, i: nat)
    requires i < |c.streams| == |c.streamBlocks| && c.blockCount * c.BlockSize() <= |data|
    requires GoodDirectory(c.directory, c.BlockSize(), c.blockCount) && i < ReadU32(c.directory, 0)
    requires c.streamBlocks[i] == OwnPart(c.directory, c.BlockSize(), i)
    requires BlocksInRange(data, c.BlockSize(), c.streamBlocks[i])
    requires c.streams[i] == StoredStream(data, c.directory, c.BlockSize(), i)
    ensures HasStream(data, c, i) && SizesOf(c.streams)[i] == Entry(c.directory, 4, i)
  {
    hide Joined, BlocksFor, ReadU32, Holds, SizesOf;
    PartInRange(data, c.directory, c.BlockSize(), c.blockCount, i);
    SizeOf(c.streams, i);
    var size := Entry(c.directory, 4, i);
    if size != 0xFFFF_FFFF {
      BlocksForIsCeiling(size, c.BlockSize());
      JoinedIsHeld(data, c.BlockSize(), c.blockCount, c.streamBlocks[i], size);
    }
  }

  /** Main result for reading: every file that is accepted stores streams. */
  lemma MsfIsStored(data: seq<Byte>) returns (c: Container)
    requires IsMsf(data)
    ensures Stores(data, c)
  {
    SuperBlockFacts(data);
    hide GoodSuperBlock, GoodBlockMap, Directory, BlockMap, SuperBlockOf, StoredStream, OwnPart, AllParts, U32, U32s,
      ReadU32, Entry, Holds, Digits.Power, HasHeader, HasStream, Lists, SizesOf;
    var shift := ShiftOf(data);
    c := ContainerOf(data, shift);
    var h := SuperBlockOf(data);
    HeaderIsWritten(data, c);
    MapIsWritten(data);
    forall i: nat | i < |c.streams| ensures HasStream(data, c, i) && SizesOf(c.streams)[i] == Entry(c.directory, 4, i) {
      PartInRange(data, c.directory, h.blockSize, h.numBlocks, i);
      StreamIsWritten(data, c, i);
    }
    DirectoryIsWritten(c.directory, h.blockSize, h.numBlocks, c.streams);
  }

  lemma ShiftOf(data: seq<Byte>) returns (shift: nat)
    requires GoodSuperBlock(data)
    ensures Digits.Power(2, shift) == SuperBlockOf(data).blockSize
  {
    hide SuperBlockOf;
    PowersAre(SuperBlockOf(data).blockSize);
    shift :| SuperBlockOf(data).blockSize == Digits.Power(2, shift);
  }

  /** The accepted files are exactly those that store some list of streams. */
  lemma AcceptedIffStored(data: seq<Byte>)
    ensures IsMsf(data) <==> exists c :: Stores(data, c)
  {
    hide IsMsf, Stores;
    if IsMsf(data) {
      var c := MsfIsStored(data);
    }
    if c :| Stores(data, c) {
      StoredIsMsf(data, c);
    }
  }

  // ------------------------------------------------------------ a writer

  /** How many blocks some bytes take. */
  function Ceiling(size: nat, blockSize: nat): (n: nat)
    requires blockSize > 0
  {
    if size == 0 then 0 else (size - 1) / blockSize + 1
  }

  lemma CeilingBounds(size: nat, blockSize: nat)
    requires blockSize > 0
    ensures var n := Ceiling(size, blockSize);
            size <= n * blockSize && (n > 0 ==> (n - 1) * blockSize < size)
  {
    if size > 0 {
      Place(size - 1, blockSize, 0);
      var q := (size - 1) / blockSize;
      assert (q + 1) * blockSize == q * blockSize + blockSize;
    }
  }

  function Consecutive(start: nat, n: nat): (blocks: seq<nat>)
    ensures |blocks| == n
  {
    seq(n, i requires 0 <= i < n => start + i)
  }

  /** Bytes filled up to whole blocks. */
  function Padded(bytes: seq<Byte>, blockSize: nat): (padded: seq<Byte>)
    requires blockSize > 0
    ensures |padded| == Ceiling(|bytes|, blockSize) * blockSize && bytes <= padded
  {
    CeilingBounds(|bytes|, blockSize);
    bytes + Fill(0, Ceiling(|bytes|, blockSize) * blockSize - |bytes|)
  }

  /** Bytes written one after the other are held by consecutive blocks. */
  lemma ConsecutiveHolds(data: seq<Byte>, blockSize: nat, blockCount: nat, start: nat, bytes: seq<Byte>)
    requires blockSize > 0 && start + Ceiling(|bytes|, blockSize) <= blockCount && blockCount * blockSize <= |data|
    requires start * blockSize + |bytes| <= |data| && data[start * blockSize..start * blockSize + |bytes|] == bytes
    ensures Holds(data, blockSize, blockCount, Consecutive(start, Ceiling(|bytes|, blockSize)), bytes)
  {
    var n := Ceiling(|bytes|, blockSize);
    hide Ceiling, HoldsByte;
    CeilingBounds(|bytes|, blockSize);
    forall k | 0 <= k < |bytes| ensures HoldsByte(data, blockSize, Consecutive(start, n), bytes, k) {
      assert bytes[k] == data[start * blockSize..start * blockSize + |bytes|][k];
      ByteStands(data, blockSize, start, n, bytes, k);
    }
  }

  lemma ByteStands(data: seq<Byte>, blockSize: nat, start: nat, n: nat, bytes: seq<Byte>, k: nat)
    requires blockSize > 0 && k < |bytes| <= n * blockSize
    requires start * blockSize + k < |data| && data[start * blockSize + k] == bytes[k]
    ensures HoldsByte(data, blockSize, Consecutive(start, n), bytes, k)
  {
    Place(k, blockSize, n);
    var block, offset := k / blockSize, k % blockSize;
    Shifted(start, block, blockSize);
    assert Consecutive(start, n)[block] == start + block;
    assert (start + block) * blockSize + offset == start * blockSize + k;
  }

  lemma Shifted(start: nat, block: nat, blockSize: nat)
    ensures (start + block) * blockSize == start * blockSize + block * blockSize
  {
  }

  function Contents(stream: Option<seq<Byte>>): seq<Byte> { if stream.None? then [] else stream.value }

  /** Where the blocks of stream `|streams|` would start. */
  function NextBlock(first: nat, streams: seq<Option<seq<Byte>>>, blockSize: nat): (next: nat)
    requires blockSize > 0
    ensures next >= first
  {
    if streams == [] then first
    else
      var last := |streams| - 1;
      NextBlock(first, streams[..last], blockSize) + Ceiling(|Contents(streams[last])|, blockSize)
  }

  function BlocksWritten(first: nat, streams: seq<Option<seq<Byte>>>, blockSize: nat): (parts: seq<seq<nat>>)
    requires blockSize > 0
    ensures |parts| == |streams|
  {
    if streams == [] then []
    else
      var last := |streams| - 1;
      BlocksWritten(first, streams[..last], blockSize)
        + [Consecutive(NextBlock(first, streams[..last], blockSize), Ceiling(|Contents(streams[last])|, blockSize))]
  }

  function Body(streams: seq<Option<seq<Byte>>>, blockSize: nat): seq<Byte>
    requires blockSize > 0
  {
    if streams == [] then []
    else Body(streams[..|streams| - 1], blockSize) + Padded(Contents(streams[|streams| - 1]), blockSize)
  }

  lemma {:induction false} BodyLength(first: nat, streams: seq<Option<seq<Byte>>>, blockSize: nat)
    requires blockSize > 0
    ensures first * blockSize + |Body(streams, blockSize)| == NextBlock(first, streams, blockSize) * blockSize
  {
    if streams != [] {
      hide Padded, Ceiling;
      var last := |streams| - 1;
      var n, c := NextBlock(first, streams[..last], blockSize), Ceiling(|Contents(streams[last])|, blockSize);
      BodyLength(first, streams[..last], blockSize);
      assert |Body(streams, blockSize)| == |Body(streams[..last], blockSize)| + c * blockSize;
      assert NextBlock(first, streams, blockSize) == n + c;
      hide Body, NextBlock;
      Shifted(n, c, blockSize);
    }
  }

  /** Every stream stands where its blocks say. */
  lemma {:induction false} BodyHolds(data: seq<Byte>, blockSize: nat, blockCount: nat, first: nat,
                                     streams: seq<Option<seq<Byte>>>, i: nat)
    requires blockSize > 0 && blockCount * blockSize <= |data| && i < |streams|
    requires NextBlock(first, streams, blockSize) <= blockCount
    requires first * blockSize <= |data| && Body(streams, blockSize) <= data[first * blockSize..]
    ensures Holds(data, blockSize, blockCount, BlocksWritten(first, streams, blockSize)[i], Contents(streams[i]))
    decreases |streams|
  {
    hide Padded, Ceiling, Holds;
    var last := |streams| - 1;
    var bytes := Contents(streams[last]);
    if i < last {
      BodyHolds(data, blockSize, blockCount, first, streams[..last], i);
    } else {
      LastHolds(data, blockSize, blockCount, first, streams[..last], bytes);
    }
  }

  lemma LastHolds(data: seq<Byte>, blockSize: nat, blockCount: nat, first: nat, streams: seq<Option<seq<Byte>>>,
                  bytes: seq<Byte>)
    requires blockSize > 0 && blockCount * blockSize <= |data|
    requires NextBlock(first, streams, blockSize) + Ceiling(|bytes|, blockSize) <= blockCount
    requires first * blockSize <= |data|
    requires Body(streams, blockSize) + Padded(bytes, blockSize) <= data[first * blockSize..]
    ensures Holds(data, blockSize, blockCount,
                  Consecutive(NextBlock(first, streams, blockSize), Ceiling(|bytes|, blockSize)), bytes)
  {
    hide Ceiling, Holds, Body, NextBlock;
    var front := Body(streams, blockSize);
    BodyLength(first, streams, blockSize);
    BehindPrefix(data[first * blockSize..], front, Padded(bytes, blockSize), bytes);
    var at := first * blockSize + |front|;
    assert data[at..at + |bytes|] == data[first * blockSize..][|front|..|front| + |bytes|];
    ConsecutiveHolds(data, blockSize, blockCount, NextBlock(first, streams, blockSize), bytes);
  }

  lemma BehindPrefix(s: seq<Byte>, front: seq<Byte>, padded: seq<Byte>, bytes: seq<Byte>)
    requires front + padded <= s && bytes <= padded
    ensures |front| + |bytes| <= |s| && s[|front|..|front| + |bytes|] == bytes
  {
    assert s[|front|..|front| + |bytes|] == (front + padded)[|front|..|front| + |bytes|] == padded[..|bytes|];
  }

  /** The parts of the file in order: super block, block map, directory, streams. */
  function HeaderText(blockSize: nat, blockCount: nat, directoryBytes: nat): (bytes: seq<Byte>)
    ensures |bytes| == 56
  {
    Ascii("Microsoft C/C++ MSF 7.00") + [13, 10, 26] + Ascii("DS") + [0, 0, 0]
      + U32(blockSize) + U32(1) + U32(blockCount) + U32(directoryBytes) + U32(0) + U32(1)
  }

  function MapBlocks(directoryBytes: nat, blockSize: nat): nat
    requires blockSize > 0
  {
    Ceiling(4 * Ceiling(directoryBytes, blockSize), blockSize)
  }

  /** How long the directory of these streams is. */
  function DirectoryLength(streams: seq<Option<seq<Byte>>>, blockSize: nat): nat
    requires blockSize > 0
  {
    4 + 4 * |streams| + 4 * NextBlock(0, streams, blockSize)
  }

  function FirstStreamBlock(streams: seq<Option<seq<Byte>>>, blockSize: nat): nat
    requires blockSize > 0
  {
    var length := DirectoryLength(streams, blockSize);
    1 + MapBlocks(length, blockSize) + Ceiling(length, blockSize)
  }

  function DirectoryText(streams: seq<Option<seq<Byte>>>, blockSize: nat): seq<Byte>
    requires blockSize > 0
  {
    U32(|streams|) + U32s(SizesOf(streams))
      + U32s(Flatten(BlocksWritten(FirstStreamBlock(streams, blockSize), streams, blockSize)))
  }

  function Planned(shift: nat, streams: seq<Option<seq<Byte>>>): (c: Container)
    ensures c.streams == streams && c.shift == shift
  {
    Digits.PowerPositive(2, shift);
    var blockSize := Digits.Power(2, shift);
    var length, first := DirectoryLength(streams, blockSize), FirstStreamBlock(streams, blockSize);
    Container(shift, NextBlock(first, streams, blockSize), 1, DirectoryText(streams, blockSize),
              Consecutive(1 + MapBlocks(length, blockSize), Ceiling(length, blockSize)), streams,
              BlocksWritten(first, streams, blockSize))
  }

  /** The file as planned: super block, block map, directory, streams. */
  function Image(c: Container): seq<Byte> {
    Padded(HeaderText(c.BlockSize(), c.blockCount, |c.directory|), c.BlockSize())
      + Padded(U32s(c.directoryBlocks), c.BlockSize()) + Padded(c.directory, c.BlockSize())
      + Body(c.streams, c.BlockSize())
  }

  /** A container file with these streams. */
  function Written(shift: nat, streams: seq<Option<seq<Byte>>>): seq<Byte> { Image(Planned(shift, streams)) }

  /** Block size, numbers and sizes fit their 32 bits. */
  predicate Fits(c: Container) {
    && 9 <= c.shift <= 31 && c.blockCount <= MAX_UINT32 && |c.directory| <= MAX_UINT32
    && forall i :: 0 <= i < |c.streams| && c.streams[i].Some? ==> |c.streams[i].value| < 0xFFFF_FFFF
  }

  predicate Admissible(shift: nat, streams: seq<Option<seq<Byte>>>) { Fits(Planned(shift, streams)) }

  lemma {:induction false} CountWritten(first: nat, streams: seq<Option<seq<Byte>>>, blockSize: nat)
    requires blockSize > 0
    ensures |Flatten(BlocksWritten(first, streams, blockSize))| == NextBlock(0, streams, blockSize)
    ensures NextBlock(first, streams, blockSize) == first + NextBlock(0, streams, blockSize)
  {
    hide Ceiling, Flatten;
    if streams == [] {
      FlattenNothing();
    } else {
      var last := |streams| - 1;
      CountWritten(first, streams[..last], blockSize);
      FlattenAppend(BlocksWritten(first, streams[..last], blockSize),
                    Consecutive(NextBlock(first, streams[..last], blockSize),
                                Ceiling(|Contents(streams[last])|, blockSize)));
    }
  }

  /** What is planned, in terms of block numbers. */
  predicate IsPlan(c: Container) {
    var size, length := c.BlockSize(), |c.directory|;
    var first := 1 + MapBlocks(length, size) + Ceiling(length, size);
    && c.mapAddress == 1 && c.directoryBlocks == Consecutive(1 + MapBlocks(length, size), Ceiling(length, size))
    && c.streamBlocks == BlocksWritten(first, c.streams, size) && c.blockCount == NextBlock(first, c.streams, size)
    && c.directory == U32(|c.streams|) + U32s(SizesOf(c.streams)) + U32s(Flatten(c.streamBlocks))
  }

  lemma PlannedIsPlan(shift: nat, streams: seq<Option<seq<Byte>>>)
    ensures IsPlan(Planned(shift, streams))
  {
    hide Digits.Power, Ceiling, Flatten, U32s, BlocksWritten, NextBlock, U32, SizesOf;
    var c := Planned(shift, streams);
    CountWritten(FirstStreamBlock(streams, c.BlockSize()), streams, c.BlockSize());
  }

  predicate Stands(data: seq<Byte>, at: nat, bytes: seq<Byte>) {
    at + |bytes| <= |data| && data[at..at + |bytes|] == bytes
  }

  lemma StandsBehind(front: seq<Byte>, own: seq<Byte>, rest: seq<Byte>, bytes: seq<Byte>)
    requires bytes <= own
    ensures Stands(front + own + rest, |front|, bytes)
  {
    assert (front + own + rest)[|front|..|front| + |bytes|] == own[..|bytes|];
  }

  /** Where the four parts of the file stand. */
  lemma Assembled(size: nat, header: seq<Byte>, table: seq<Byte>, directory: seq<Byte>, body: seq<Byte>)
    requires size >= 512 && |header| == 56
    ensures var data := Padded(header, size) + Padded(table, size) + Padded(directory, size) + body;
            var n, m := Ceiling(|table|, size), Ceiling(|directory|, size);
            && header <= data && Stands(data, size, table) && Stands(data, (1 + n) * size, directory)
            && Stands(data, (1 + n + m) * size, body) && |data| == (1 + n + m) * size + |body|
  {
    assert Ceiling(56, size) == 1;
    hide Ceiling, Stands;
    var a, b, c := Padded(header, size), Padded(table, size), Padded(directory, size);
    var n, m := Ceiling(|table|, size), Ceiling(|directory|, size);
    Shifted(1, n, size);
    Shifted(1 + n, m, size);
    var data := a + b + c + body;
    StandsBehind(a, b, c + body, table);
    StandsBehind(a + b, c, body, directory);
    StandsBehind(a + b + c, body, [], body);
    hide Padded;
    FourParts(a, b, c, body);
  }

  lemma FourParts(a: seq<Byte>, b: seq<Byte>, c: seq<Byte>, d: seq<Byte>)
    ensures a + b + c + d == a + b + (c + d) == a + b + c + d + [] == a + (b + c + d)
  {
  }

  lemma HeaderFields(data: seq<Byte>, blockSize: nat, blockCount: nat, directoryBytes: nat)
    requires HeaderText(blockSize, blockCount, directoryBytes) <= data
    ensures data[..32] == Ascii("Microsoft C/C++ MSF 7.00") + [13, 10, 26] + Ascii("DS") + [0, 0, 0]
    ensures data[32..36] == U32(blockSize) && data[40..44] == U32(blockCount) && data[44..48] == U32(directoryBytes)
    ensures data[52..56] == U32(1)
  {
    hide U32, Ascii;
    var text := HeaderText(blockSize, blockCount, directoryBytes);
    assert data[..56] == text;
    assert data[..32] == text[..32] && data[32..36] == text[32..36] && data[40..44] == text[40..44];
    assert data[44..48] == text[44..48] && data[52..56] == text[52..56];
  }

  function At(block: nat, blockSize: nat): nat { block * blockSize }

  function First(c: Container): nat {
    1 + MapBlocks(|c.directory|, c.BlockSize()) + Ceiling(|c.directory|, c.BlockSize())
  }

  /** The parts of a written file stand where they were planned. */
  predicate Lies(data: seq<Byte>, c: Container) {
    var size := c.BlockSize();
    && |data| == c.blockCount * size && HeaderText(size, c.blockCount, |c.directory|) <= data
    && Stands(data, size, U32s(c.directoryBlocks))
    && Stands(data, At(1 + MapBlocks(|c.directory|, size), size), c.directory)
    && Stands(data, At(First(c), size), Body(c.streams, size))
  }

  lemma WrittenLies(c: Container)
    requires IsPlan(c) && 9 <= c.shift <= 31
    ensures Lies(Image(c), c)
  {
    var size := c.BlockSize();
    ShiftBounds(c.shift);
    BodyLength(First(c), c.streams, size);
    hide Ceiling, Digits.Power, U32s, Body, NextBlock, BlocksWritten, HeaderText, Stands, Padded, Flatten;
    Assembled(size, HeaderText(size, c.blockCount, |c.directory|), U32s(c.directoryBlocks), c.directory,
              Body(c.streams, size));
  }

  lemma HeaderWritten(data: seq<Byte>, c: Container)
    requires IsPlan(c) && Lies(data, c) && Fits(c)
    ensures HasHeader(data, c)
  {
    hide Ceiling, Digits.Power, U32s, Body, U32, Ascii, HeaderText, Stands, BlocksWritten;
    HeaderFields(data, c.BlockSize(), c.blockCount, |c.directory|);
    NextIsLater(First(c), c.streams, c.BlockSize());
    ShiftBounds(c.shift);
    MulMono(c.BlockSize(), 1, c.blockCount);
  }

  lemma NextIsLater(first: nat, streams: seq<Option<seq<Byte>>>, blockSize: nat)
    requires blockSize > 0
    ensures NextBlock(first, streams, blockSize) >= first
  {
  }

  lemma DirectoryWritten(data: seq<Byte>, c: Container)
    requires IsPlan(c) && Lies(data, c) && Fits(c)
    ensures HasDirectory(data, c)
  {
    hide Ceiling, Digits.Power, U32s, Body, U32, Holds, HeaderText, BlocksWritten, NextBlock, MapBlocks, SizesOf;
    var size := c.BlockSize();
    NextIsLater(First(c), c.streams, size);
    CountWritten(First(c), c.streams, size);
    OneTimes(size);
    ConsecutiveHolds(data, size, c.blockCount, 1 + MapBlocks(|c.directory|, size), c.directory);
  }

  lemma OneTimes(size: nat)
    ensures 1 * size == size
  {
  }

  lemma StreamsWritten(data: seq<Byte>, c: Container, i: nat)
    requires IsPlan(c) && Lies(data, c) && Fits(c) && i < |c.streams|
    ensures HasStream(data, c, i)
  {
    hide Ceiling, Digits.Power, U32s, Body, Holds, HeaderText, MapBlocks, Flatten, BlocksWritten, NextBlock;
    var size, at := c.BlockSize(), At(First(c), c.BlockSize());
    assert data[at..][..|Body(c.streams, size)|] == Body(c.streams, size);
    BodyHolds(data, size, c.blockCount, First(c), c.streams, i);
    if c.streams[i].None? {
      NoBlocks(First(c), c.streams, size, i);
    }
  }

  lemma {:induction false} NoBlocks(first: nat, streams: seq<Option<seq<Byte>>>, blockSize: nat, i: nat)
    requires blockSize > 0 && i < |streams| && streams[i].None?
    ensures BlocksWritten(first, streams, blockSize)[i] == []
    decreases |streams|
  {
    if i < |streams| - 1 {
      NoBlocks(first, streams[..|streams| - 1], blockSize, i);
    }
  }

  lemma WrittenIsStored(shift: nat, streams: seq<Option<seq<Byte>>>)
    requires Admissible(shift, streams)
    ensures Stores(Written(shift, streams), Planned(shift, streams))
  {
    hide HasHeader, HasDirectory, HasStream, Image, Planned, IsPlan, Lies;
    var c := Planned(shift, streams);
    PlannedIsPlan(shift, streams);
    WrittenLies(c);
    HeaderWritten(Image(c), c);
    DirectoryWritten(Image(c), c);
    assert |c.streamBlocks| == |c.streams| by { PlanCounts(c); }
    forall i: nat | i < |streams| ensures HasStream(Image(c), c, i) {
      StreamsWritten(Image(c), c, i);
    }
  }

  lemma PlanCounts(c: Container)
    requires IsPlan(c)
    ensures |c.streamBlocks| == |c.streams|
  {
  }

  /** The round trip: every list of admissible streams is written, opened, and read back, deleted ones included. */
  method RoundTrip(shift: nat, streams: seq<Option<seq<Byte>>>, index: nat)
    returns (accepted: Outcome, r: Outcome, bytes: array<Byte>)
    requires Admissible(shift, streams)
    ensures accepted == Success
    ensures r == if index < |streams| && streams[index].Some? then Success else Failure(InvalidStream)
    ensures r == Success ==> bytes[..] == streams[index].value
  {
    hide Written, Stores, Admissible;
    WrittenIsStored(shift, streams);
    accepted, r, bytes := ReadBack(Written(shift, streams), Planned(shift, streams), index);
  }
}
