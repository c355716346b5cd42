/** Byte-wise reading and writing told word by word of the disk: what each byte is, and where it is put. */
module Ext2OnDisk {
  import opened Bytes
  import opened Division
  import opened Words
  import opened Ext2Volume
  import opened Ext2Tree
  import opened Ext2Read
  import opened Ext2Write
  import opened Ext2File
  import opened Ext2Release
  import opened Ext2Bytes

  // ----- a block in memory

  lemma LoadedBack(w: Word)
    ensures Load32(WordBytes(w), 0) == w
  {
    var a, b, c := w / 0x100, w / 0x1_0000, w / 0x100_0000;
    assert b == a / 0x100 && c == b / 0x100;
    assert w == w % 0x100 + 0x100 * a && a == a % 0x100 + 0x100 * b && b == b % 0x100 + 0x100 * c;
  }

  lemma LoadFrom(s: seq<Byte>, t: seq<Byte>, at: nat, from: nat)
    requires at + 4 <= |s| && from + at + 4 <= |t| && t[from + at..from + at + 4] == s[at..at + 4]
    ensures Load32(t, from + at) == Load32(s, at)
  {
    assert t[from + at] == t[from + at..from + at + 4][0] && t[from + at + 1] == t[from + at..from + at + 4][1];
    assert t[from + at + 2] == t[from + at..from + at + 4][2] && t[from + at + 3] == t[from + at..from + at + 4][3];
    assert s[at] == s[at..at + 4][0] && s[at + 1] == s[at..at + 4][1];
    assert s[at + 2] == s[at..at + 4][2] && s[at + 3] == s[at..at + 4][3];
  }

  /** Word `i` of a block is the little-endian word at byte `4 * i` of its memory. */
  lemma {:induction false} WordInMemory(blk: Block, i: nat)
    requires i < |blk|
    ensures 4 * i + 4 <= |BytesOf(blk)| && Load32(BytesOf(blk), 4 * i) == blk[i]
    decreases |blk|
  {
    hide Load32, WordBytes;
    var head, rest := WordBytes(blk[0]), BytesOf(blk[1..]);
    assert BytesOf(blk) == head + rest;
    if i == 0 {
      LoadedBack(blk[0]);
      assert BytesOf(blk)[0..4] == head[0..4];
      LoadFrom(head, BytesOf(blk), 0, 0);
    } else {
      WordInMemory(blk[1..], i - 1);
      var at := 4 * (i - 1);
      assert BytesOf(blk)[4 + at..4 + at + 4] == rest[at..at + 4];
      LoadFrom(rest, BytesOf(blk), at, 4);
    }
  }

  lemma ByteInMemory(blk: Block, i: nat, j: nat)
    requires i < |blk| && j < 4
    ensures BytesOf(blk)[4 * i + j] == BytePart(blk[i], j)
  {
    hide BytesOf, Load32, BytePart;
    WordInMemory(blk, i);
    Load32Bytes(BytesOf(blk), 4 * i, j);
  }

  /** The place of byte `j` of word `i` of block `k` in a row of blocks of `e` words. */
  function Place(e: nat, k: nat, i: nat, j: nat): nat {
    k * (4 * e) + 4 * i + j
  }

  lemma PlaceIn(e: nat, n: nat, k: nat, i: nat, j: nat)
    requires k <= n && i < e && j < 4
    ensures k == n ==> Place(e, k, i, j) == n * (4 * e) + (4 * i + j) < n * (4 * e) + 4 * e
    ensures k < n ==> Place(e, k, i, j) < n * (4 * e)
  {
    Scaled(k + 1, if k < n then n else k + 1, 4 * e);
    assert (k + 1) * (4 * e) == k * (4 * e) + 4 * e;
  }

  lemma {:induction false} FlatAt(e: nat, data: seq<Block>, k: nat, i: nat, j: nat)
    requires Uniform(e, data) && k < |data| && i < e && j < 4
    ensures Place(e, k, i, j) < |Flat(data)| && |BytesOf(data[k])| == 4 * e
    ensures Flat(data)[Place(e, k, i, j)] == BytesOf(data[k])[4 * i + j]
    decreases |data|
  {
    hide BytesOf, Place;
    var n := |data| - 1;
    FlatLength(e, data[..n]);
    PlaceIn(e, n, k, i, j);
    assert Flat(data) == Flat(data[..n]) + BytesOf(data[n]);
    if k < n {
      FlatAt(e, data[..n], k, i, j);
    }
  }

  // ----- a range of a file

  lemma RangeBlock(disk: seq<Block>, ib: BlockMap, first: nat, n: nat, k: nat)
    requires RangeOk(disk, ib, first, n) && k < n
    ensures |FileBlocks(disk, ib, first + n)| == first + n && |RangeData(disk, ib, first, n)| == n
    ensures var b := FileBlocks(disk, ib, first + n)[first + k];
      0 < b < |disk| && RangeData(disk, ib, first, n)[k] == disk[b]
  {
    hide FileBlocks, Gather, InRange;
    FileLength(disk, ib, first + n);
    hide FileOk;
    GatherAt(disk, FileBlocks(disk, ib, first + n), first + k);
  }

  lemma FileLength(disk: seq<Block>, ib: BlockMap, n: nat)
    requires FileOk(disk, ib, n)
    ensures |FileBlocks(disk, ib, n)| == n && InRange(disk, FileBlocks(disk, ib, n))
  {
  }

  /** Byte `j` of word `i` of block `b` is `x`. */
  ghost predicate HoldsByte(disk: seq<Block>, b: nat, i: nat, j: nat, x: Byte) {
    0 < b < |disk| && i < |disk[b]| && BytePart(disk[b][i], j) == x
  }

  /** Byte `j` of word `i` of block `k` of the range is at its place in the range's bytes. */
  lemma RangeByte(e: nat, disk: seq<Block>, ib: BlockMap, first: nat, n: nat, k: nat, i: nat, j: nat)
    requires Uniform(e, disk) && RangeOk(disk, ib, first, n) && k < n && i < e && j < 4
    ensures |FileBlocks(disk, ib, first + n)| == first + n && Place(e, k, i, j) < |RangeBytes(disk, ib, first, n)|
    ensures HoldsByte(disk, FileBlocks(disk, ib, first + n)[first + k], i, j, RangeBytes(disk, ib, first, n)[Place(e, k, i, j)])
  {
    hide RangeOk, RangeData, FileBlocks, BytesOf, Flat, BytePart, Place;
    DataUniform(e, disk, ib, first, n);
    RangeBlock(disk, ib, first, n, k);
    FlatAt(e, RangeData(disk, ib, first, n), k, i, j);
    ByteInMemory(RangeData(disk, ib, first, n)[k], i, j);
  }

  lemma DirectRange(disk: seq<Block>, ib: BlockMap, first: nat, n: nat, k: nat)
    requires first + n <= 12 && k < n
    ensures |FileBlocks(disk, ib, first + n)| == first + n && FileBlocks(disk, ib, first + n)[first + k] == ib[first + k]
  {
    hide FileBlocks, FileTables;
    SmallTables(disk, ib, first + n);
  }

  /** A byte that was read is the byte of the direct block's word on the disk. */
  lemma ReadByteOnDisk(e: nat, disk: seq<Block>, ib: BlockMap, first: nat, blocks: nat, count: nat, data: seq<Byte>,
                       k: nat, i: nat, j: nat)
    requires Uniform(e, disk) && ReadsBytes(disk, ib, first, blocks, count, data) && first + blocks <= 12
    requires k < blocks && i < e && j < 4 && Place(e, k, i, j) < count
    ensures |data| == count && HoldsByte(disk, ib[first + k], i, j, data[Place(e, k, i, j)])
  {
    hide RangeOk, RangeBytes, HoldsByte, FileBlocks, Place;
    RangeByte(e, disk, ib, first, blocks, k, i, j);
    DirectRange(disk, ib, first, blocks, k);
  }

  /** After a write each byte of the direct blocks' words is the byte given for its place, or what it was. */
  lemma WrittenByteOnDisk(e: nat, disk: seq<Block>, disk': seq<Block>, ib: BlockMap, first: nat, blocks: nat,
                          src: seq<Byte>, k: nat, i: nat, j: nat, was: Byte)
    requires Uniform(e, disk) && RangeSound(disk, ib, first, blocks) && first + blocks <= 12
    requires WritesBytes(e, disk, disk', ib, first, blocks, src)
    requires k < blocks && i < e && j < 4 && HoldsByte(disk, ib[first + k], i, j, was)
    ensures HoldsByte(disk', ib[first + k], i, j, if Place(e, k, i, j) < |src| then src[Place(e, k, i, j)] else was)
  {
    hide RangeOk, RangeSound, RangeBytes, RangeWritten, FileBlocks, Cut, Place, WritesBytes, Overlaid;
    BytesWriteThenRead(e, disk, disk', ib, first, blocks, src);
    WrittenIs(e, disk, disk', ib, first, blocks, src);
    WrittenUniform(e, disk, ib, first, blocks, Cut(e, Overlaid(disk, ib, first, blocks, src), blocks));
    RangeByte(e, disk, ib, first, blocks, k, i, j);
    RangeByte(e, disk', ib, first, blocks, k, i, j);
    DirectRange(disk, ib, first, blocks, k);
    DirectRange(disk', ib, first, blocks, k);
    OverlaidAt(disk, ib, first, blocks, src, Place(e, k, i, j));
  }

  /** Block, word and byte of an offset. */
  lemma PlaceOf(e: nat, x: nat, n: nat)
    requires e > 0 && x < n * (4 * e)
    ensures 0 <= x / (4 * e) < n && 0 <= x % (4 * e) / 4 < e && 0 <= x % 4 < 4
    ensures Place(e, x / (4 * e), x % (4 * e) / 4, x % 4) == x
  {
    OffsetParts(x, 4 * e, n);
    var k, r := x / (4 * e), x % (4 * e);
    FourTimes(k, e);
    LowTwoBits(x, r, k * e, e);
  }

  lemma OffsetParts(x: nat, d: nat, n: nat)
    requires d > 0 && x < n * d
    ensures 0 <= x / d < n && 0 <= x % d < d && x == x / d * d + x % d
  {
    assert x == x / d * d + x % d;
    if x / d >= n {
      Scaled(n, x / d, d);
    }
  }

  lemma LowTwoBits(x: nat, r: nat, m: nat, e: nat)
    requires x == m * 4 + r && r < 4 * e
    ensures x % 4 == r % 4 && 0 <= r / 4 < e && r == 4 * (r / 4) + r % 4
  {
  }

  lemma FourTimes(k: nat, e: nat)
    ensures k * (4 * e) == (k * e) * 4
  {
  }

  /** Byte `x` of what ReadInodeBytes delivers, in the inode's slots and the words of the disk. */
  lemma ByteRead(e: nat, disk: seq<Block>, ib: BlockMap, first: nat, blocks: nat, count: nat, data: seq<Byte>, x: nat)
    requires e > 0 && Uniform(e, disk) && ReadsBytes(disk, ib, first, blocks, count, data) && first + blocks <= 12 && x < count
    ensures |data| == count && 0 <= x / (4 * e) < blocks
    ensures var b := ib[first + x / (4 * e)];
      && 0 < b < |disk| && 0 <= x % (4 * e) / 4 < |disk[b]|
      && data[x] == BytePart(disk[b][x % (4 * e) / 4], x % 4)
  {
    hide Place, BytePart, RangeBytes, RangeOk;
    RangeSize(e, disk, ib, first, blocks);
    PlaceOf(e, x, blocks);
    ReadByteOnDisk(e, disk, ib, first, blocks, count, data, x / (4 * e), x % (4 * e) / 4, x % 4);
  }

  lemma RangeSize(e: nat, disk: seq<Block>, ib: BlockMap, first: nat, n: nat)
    requires Uniform(e, disk) && RangeOk(disk, ib, first, n)
    ensures |RangeBytes(disk, ib, first, n)| == n * (4 * e)
  {
    hide RangeOk, RangeData;
    DataUniform(e, disk, ib, first, n);
    FlatLength(e, RangeData(disk, ib, first, n));
  }

  /** Byte `x` of the range after WriteInodeBytes: the byte given, or what was there behind the data. */
  lemma ByteWritten(e: nat, disk: seq<Block>, disk': seq<Block>, ib: BlockMap, first: nat, blocks: nat, src: seq<Byte>, x: nat)
    requires e > 0 && Uniform(e, disk) && RangeSound(disk, ib, first, blocks) && first + blocks <= 12
    requires WritesBytes(e, disk, disk', ib, first, blocks, src) && x < blocks * (4 * e)
    ensures 0 <= x / (4 * e) < blocks
    ensures var b, i, j := ib[first + x / (4 * e)], x % (4 * e) / 4, x % 4;
      && 0 < b < |disk| && |disk'| == |disk| && 0 <= i < |disk[b]| && i < |disk'[b]|
      && BytePart(disk'[b][i], j) == if x < |src| then src[x] else BytePart(disk[b][i], j)
  {
    hide Place, BytePart, RangeBytes, RangeOk, RangeSound, WritesBytes, RangeWritten;
    PlaceOf(e, x, blocks);
    SlotOnDisk(e, disk, ib, first, blocks, x / (4 * e));
    var k, i, j := x / (4 * e), x % (4 * e) / 4, x % 4;
    WrittenByteOnDisk(e, disk, disk', ib, first, blocks, src, k, i, j, BytePart(disk[ib[first + k]][i], j));
    WrittenIs(e, disk, disk', ib, first, blocks, src);
  }

  lemma SlotOnDisk(e: nat, disk: seq<Block>, ib: BlockMap, first: nat, n: nat, k: nat)
    requires Uniform(e, disk) && RangeSound(disk, ib, first, n) && first + n <= 12 && k < n
    ensures 0 < ib[first + k] < |disk| && |disk[ib[first + k]]| == e
  {
    hide FileBlocks, InRange, FileOk;
    RangeBlock(disk, ib, first, n, k);
    DirectRange(disk, ib, first, n, k);
  }

  lemma WrittenIs(e: nat, disk: seq<Block>, disk': seq<Block>, ib: BlockMap, first: nat, blocks: nat, src: seq<Byte>)
    requires WritesBytes(e, disk, disk', ib, first, blocks, src)
    ensures blocks * (4 * e) <= |Overlaid(disk, ib, first, blocks, src)| && RangeOk(disk, ib, first, blocks)
    ensures disk' == RangeWritten(disk, ib, first, blocks, Cut(e, Overlaid(disk, ib, first, blocks, src), blocks))
  {
    hide RangeOk, RangeWritten, Cut, Overlaid;
  }

  lemma OverlaidAt(disk: seq<Block>, ib: BlockMap, first: nat, n: nat, src: seq<Byte>, x: nat)
    requires x < |RangeBytes(disk, ib, first, n)|
    ensures x < |Overlaid(disk, ib, first, n, src)|
    ensures Overlaid(disk, ib, first, n, src)[x] == if x < |src| then src[x] else RangeBytes(disk, ib, first, n)[x]
  {
    hide RangeBytes;
  }

  /** Every other block of the disk is as it was. */
  lemma OtherBlocksKept(e: nat, disk: seq<Block>, disk': seq<Block>, ib: BlockMap, first: nat, blocks: nat,
                        src: seq<Byte>, b: nat)
    requires WritesBytes(e, disk, disk', ib, first, blocks, src) && first + blocks <= 12
    requires b < |disk| && b !in ib[first..first + blocks]
    ensures |disk'| == |disk| && disk'[b] == disk[b]
  {
    hide FileBlocks, FileTables, AfterWrite, Cut, Overlaid, FileOk;
    WrittenIs(e, disk, disk', ib, first, blocks, src);
    var data := Cut(e, Overlaid(disk, ib, first, blocks, src), blocks);
    RangeWrittenAll(disk, ib, first, blocks, data);
    AfterWriteElsewhere(disk, ib, first, blocks, data);
    SmallTables(disk, ib, first + blocks);
    assert ib[..first + blocks][first..] == ib[first..first + blocks];
  }

  lemma WrittenUniform(e: nat, disk: seq<Block>, ib: BlockMap, first: nat, n: nat, src: seq<Block>)
    requires Uniform(e, disk) && Uniform(e, src)
    ensures Uniform(e, RangeWritten(disk, ib, first, n, src))
  {
    hide FileBlocks, PutAll;
    if RangeOk(disk, ib, first, n) && n <= |src| {
      FileLength(disk, ib, first + n);
      hide FileOk;
      var bs := FileBlocks(disk, ib, first + n);
      assert forall b :: b in bs[first..] ==> b in bs;
      PutAllSizes(e, disk, bs[first..], src);
    }
  }
}
