/** Byte-wise reading and writing of a file from a block boundary on. */
module Ext2Bytes {
  import opened Words
  import opened Bytes
  import opened Ext2Volume
  import opened Ext2Alloc
  import opened Ext2Tree
  import opened Ext2Read
  import opened Ext2Write
  import opened Ext2File
  import opened Ext2Ownership

  // ----- blocks as bytes

  function WordBytes(w: Word): (s: seq<Byte>)
    ensures |s| == 4
  {
    [w % 0x100, w / 0x100 % 0x100, w / 0x1_0000 % 0x100, w / 0x100_0000]
  }

  function BytesOf(blk: Block): (s: seq<Byte>)
    ensures |s| == 4 * |blk|
  {
    if blk == [] then [] else WordBytes(blk[0]) + BytesOf(blk[1..])
  }

  function WordsOf(s: seq<Byte>): (blk: Block)
    ensures |blk| == |s| / 4
  {
    if |s| < 4 then [] else [Load32(s, 0)] + WordsOf(s[4..])
  }

  lemma FourBytes(s: seq<Byte>)
    requires |s| >= 4
    ensures WordBytes(Load32(s, 0)) == s[..4]
  {
    LittleEndian(s[0], s[1], s[2], s[3]);
  }

  lemma LittleEndian(b0: Byte, b1: Byte, b2: Byte, b3: Byte)
    ensures var w := b0 as int + 0x100 * b1 as int + 0x1_0000 * b2 as int + 0x100_0000 * b3 as int;
      && w % 0x100 == b0 as int && w / 0x100 % 0x100 == b1 as int
      && w / 0x1_0000 % 0x100 == b2 as int && w / 0x100_0000 == b3 as int
  {
    var w := b0 as int + 0x100 * b1 as int + 0x1_0000 * b2 as int + 0x100_0000 * b3 as int;
    assert w / 0x100 == b1 as int + 0x100 * b2 as int + 0x1_0000 * b3 as int;
    assert w / 0x1_0000 == b2 as int + 0x100 * b3 as int;
  }

  /** Bytes stored as words come back. */
  lemma {:induction false} BytesBack(s: seq<Byte>)
    requires |s| % 4 == 0
    ensures BytesOf(WordsOf(s)) == s
  {
    if |s| >= 4 {
      FourBytes(s);
      BytesBack(s[4..]);
      assert s == s[..4] + s[4..];
      assert WordsOf(s)[1..] == WordsOf(s[4..]);
    }
  }

  /** The bytes of several blocks one after the other. */
  function Flat(data: seq<Block>): seq<Byte> {
    if data == [] then [] else Flat(data[..|data| - 1]) + BytesOf(data[|data| - 1])
  }

  lemma FlatOneMore(data: seq<Block>, blk: Block)
    ensures Flat(data + [blk]) == Flat(data) + BytesOf(blk)
  {
    assert (data + [blk])[..|data|] == data;
  }

  lemma {:induction false} FlatLength(e: nat, data: seq<Block>)
    requires Uniform(e, data)
    ensures |Flat(data)| == |data| * (4 * e)
  {
    if data != [] {
      var n := |data| - 1;
      FlatLength(e, data[..n]);
      OneMoreBlock(n, 4 * e);
    }
  }

  lemma OneMoreBlock(n: nat, size: nat)
    ensures (n + 1) * size == n * size + size
  {
  }

  /** The first `n` blocks of a byte buffer. */
  function Cut(e: nat, s: seq<Byte>, n: nat): (data: seq<Block>)
    requires n * (4 * e) <= |s|
    ensures |data| == n && Uniform(e, data)
  {
    if n == 0 then [] else
      OneMoreBlock(n - 1, 4 * e);
      Cut(e, s, n - 1) + [WordsOf(s[(n - 1) * (4 * e)..n * (4 * e)])]
  }

  lemma CutStep(e: nat, s: seq<Byte>, n: nat)
    requires n * (4 * e) + 4 * e <= |s|
    ensures (n + 1) * (4 * e) == n * (4 * e) + 4 * e
    ensures Cut(e, s, n + 1) == Cut(e, s, n) + [WordsOf(s[n * (4 * e)..n * (4 * e) + 4 * e])]
  {
    OneMoreBlock(n, 4 * e);
  }

  lemma FlatStep(e: nat, front: seq<Block>, s: seq<Byte>, lo: nat)
    requires lo + 4 * e <= |s| && Flat(front) == s[..lo]
    ensures Flat(front + [WordsOf(s[lo..lo + 4 * e])]) == s[..lo + 4 * e]
  {
    hide Flat, BytesOf, WordsOf;
    var block := s[lo..lo + 4 * e];
    BytesBack(block);
    FlatOneMore(front, WordsOf(block));
    assert s[..lo + 4 * e] == s[..lo] + block;
  }

  lemma CutNone(e: nat, s: seq<Byte>)
    ensures Cut(e, s, 0) == [] && Flat(Cut(e, s, 0)) == [] && s[..0] == []
  {
  }

  lemma {:induction false} FlatCut(e: nat, s: seq<Byte>, n: nat)
    requires n * (4 * e) <= |s|
    ensures Flat(Cut(e, s, n)) == s[..n * (4 * e)]
  {
    hide Cut, Flat, WordsOf, BytesOf;
    if n == 0 {
      CutNone(e, s);
    } else {
      OneMoreBlock(n - 1, 4 * e);
      CutStep(e, s, n - 1);
      FlatCut(e, s, n - 1);
      FlatStep(e, Cut(e, s, n - 1), s, (n - 1) * (4 * e));
    }
  }

  lemma SamePieces(s: seq<Byte>, t: seq<Byte>, lo: nat, hi: nat)
    requires lo <= hi <= |s| && hi <= |t| && s[..hi] == t[..hi]
    ensures s[..lo] == t[..lo] && s[lo..hi] == t[lo..hi]
  {
    assert s[..lo] == s[..hi][..lo] && t[..lo] == t[..hi][..lo];
    assert s[lo..hi] == s[..hi][lo..] && t[lo..hi] == t[..hi][lo..];
  }

  lemma {:induction false} CutPrefix(e: nat, s: seq<Byte>, t: seq<Byte>, n: nat)
    requires n * (4 * e) <= |s| && n * (4 * e) <= |t| && s[..n * (4 * e)] == t[..n * (4 * e)]
    ensures Cut(e, s, n) == Cut(e, t, n)
  {
    hide Cut, WordsOf;
    if n == 0 {
      CutNone(e, s);
      CutNone(e, t);
    } else {
      OneMoreBlock(n - 1, 4 * e);
      CutStep(e, s, n - 1);
      CutStep(e, t, n - 1);
      var lo, hi := (n - 1) * (4 * e), n * (4 * e);
      SamePieces(s, t, lo, hi);
      CutPrefix(e, s, t, n - 1);
    }
  }

  // ----- ranges of blocks

  ghost predicate RangeOk(disk: seq<Block>, ib: BlockMap, first: nat, n: nat) {
    FileOk(disk, ib, first + n)
  }

  ghost predicate RangeSound(disk: seq<Block>, ib: BlockMap, first: nat, n: nat)
    ensures RangeSound(disk, ib, first, n) ==> RangeOk(disk, ib, first, n)
  {
    FileSound(disk, ib, first + n)
  }

  /** The contents of a range of blocks; nothing for a range that is no part of a file. */
  ghost function RangeData(disk: seq<Block>, ib: BlockMap, first: nat, n: nat): (data: seq<Block>)
    ensures RangeOk(disk, ib, first, n) ==> |data| == n
  {
    if RangeOk(disk, ib, first, n) then FileData(disk, ib, first, n) else []
  }

  /** The bytes of a range of blocks. */
  ghost function RangeBytes(disk: seq<Block>, ib: BlockMap, first: nat, n: nat): seq<Byte> {
    Flat(RangeData(disk, ib, first, n))
  }

  ghost function RangeWritten(disk: seq<Block>, ib: BlockMap, first: nat, n: nat, src: seq<Block>): (r: seq<Block>)
    ensures |r| == |disk|
  {
    if RangeOk(disk, ib, first, n) && n <= |src| then AfterWrite(disk, ib, first, n, src) else disk
  }

  lemma FileOkPrefix(disk: seq<Block>, ib: BlockMap, m: nat, n: nat)
    requires m <= n && FileOk(disk, ib, n)
    ensures FileOk(disk, ib, m) && FileBlocks(disk, ib, m) == FileBlocks(disk, ib, n)[..m]
  {
    hide FileFrom, FileTablesFrom;
    FilePrefix(disk, ib, 0, m, n);
    var bs := FileBlocks(disk, ib, n);
    assert forall b :: b in bs[..m] ==> b in bs;
  }

  /** A range of m + 1 blocks is its first m blocks and the last one. */
  ghost predicate LastApart(disk: seq<Block>, ib: BlockMap, first: nat, m: nat) {
    && RangeOk(disk, ib, first, m + 1) && RangeOk(disk, ib, first, m) && RangeOk(disk, ib, first + m, 1)
    && RangeData(disk, ib, first, m + 1) == RangeData(disk, ib, first, m) + RangeData(disk, ib, first + m, 1)
  }

  lemma SplitLast(disk: seq<Block>, ib: BlockMap, first: nat, m: nat)
    requires RangeOk(disk, ib, first, m + 1)
    ensures LastApart(disk, ib, first, m)
  {
    hide FileOk, FileBlocks, InRange;
    FileOkPrefix(disk, ib, first + m, first + (m + 1));
  }

  lemma GatherAt(disk: seq<Block>, bs: seq<nat>, i: nat)
    requires InRange(disk, bs) && i < |bs|
    ensures 0 < bs[i] < |disk| && Gather(disk, bs)[i] == disk[bs[i]]
  {
    assert bs[i] in bs;
  }

  lemma FileDataAt(disk: seq<Block>, ib: BlockMap, first: nat, n: nat, i: nat)
    requires FileOk(disk, ib, first + n) && i < n
    ensures exists b :: 0 < b < |disk| && FileData(disk, ib, first, n)[i] == disk[b]
  {
    hide FileOk, FileBlocks, Gather, InRange;
    GatherAt(disk, FileBlocks(disk, ib, first + n), first + i);
  }

  lemma RangeDataAt(disk: seq<Block>, ib: BlockMap, first: nat, n: nat, i: nat)
    requires RangeOk(disk, ib, first, n) && i < n
    ensures |RangeData(disk, ib, first, n)| == n
    ensures exists b :: 0 < b < |disk| && RangeData(disk, ib, first, n)[i] == disk[b]
  {
    hide FileOk, FileData;
    FileDataAt(disk, ib, first, n, i);
  }

  lemma DataUniform(e: nat, disk: seq<Block>, ib: BlockMap, first: nat, n: nat)
    requires Uniform(e, disk) && RangeOk(disk, ib, first, n)
    ensures Uniform(e, RangeData(disk, ib, first, n))
  {
    hide RangeOk, RangeData, FileBlocks;
    forall i | 0 <= i < n
      ensures |RangeData(disk, ib, first, n)[i]| == e
    {
      RangeDataAt(disk, ib, first, n, i);
    }
  }

  /** The last block of a range of m + 1 blocks. */
  ghost function LastBlock(disk: seq<Block>, ib: BlockMap, first: nat, m: nat): Block {
    var data := RangeData(disk, ib, first + m, 1);
    if |data| == 1 then data[0] else []
  }

  /** The bytes of a range are those of its blocks but the last, and those of the last one. */
  ghost predicate BytesApart(e: nat, disk: seq<Block>, ib: BlockMap, first: nat, m: nat) {
    && RangeOk(disk, ib, first, m + 1) && RangeOk(disk, ib, first, m) && RangeOk(disk, ib, first + m, 1)
    && |RangeBytes(disk, ib, first, m)| == m * (4 * e) && |LastBlock(disk, ib, first, m)| == e
    && (m == 0 ==> RangeBytes(disk, ib, first, m) == [])
    && RangeBytes(disk, ib, first, m + 1) == RangeBytes(disk, ib, first, m) + BytesOf(LastBlock(disk, ib, first, m))
  }

  lemma SplitBytes(e: nat, disk: seq<Block>, ib: BlockMap, first: nat, m: nat)
    requires Uniform(e, disk) && RangeOk(disk, ib, first, m + 1)
    ensures BytesApart(e, disk, ib, first, m)
  {
    SplitLast(disk, ib, first, m);
    hide RangeOk, RangeData, BytesOf;
    DataUniform(e, disk, ib, first, m);
    DataUniform(e, disk, ib, first + m, 1);
    var most, last := RangeData(disk, ib, first, m), RangeData(disk, ib, first + m, 1);
    FlatLength(e, most);
    assert last == [last[0]];
    FlatOneMore(most, last[0]);
  }

  // ----- reading

  function CeilDiv(a: nat, b: nat): (q: nat)
    requires b > 0
  {
    (a + b - 1) / b
  }

  lemma CeilDivIs(a: nat, b: nat)
    requires b > 0
    ensures a == 0 ==> CeilDiv(a, b) == 0
    ensures a > 0 ==> CeilDiv(a, b) >= 1
    ensures a > 0 ==> (CeilDiv(a, b) - 1) * b < a <= (CeilDiv(a, b) - 1) * b + b
  {
    var q, r := (a + b - 1) / b, (a + b - 1) % b;
    assert a + b - 1 == q * b + r;
    assert (q - 1) * b == q * b - b;
    if a == 0 {
      SmallQuotient(b);
    } else {
      AtLeastOne(a, b);
    }
  }

  lemma SmallQuotient(b: nat)
    requires b > 0
    ensures (b - 1) / b == 0
  {
  }

  lemma AtLeastOne(a: nat, b: nat)
    requires a > 0 && b > 0
    ensures (a + b - 1) / b >= 1
  {
    var q := (a + b - 1) / b;
    assert a + b - 1 == b * q + (a + b - 1) % b;
    ProductSign(b, q);
  }

  lemma ProductSign(b: nat, q: int)
    ensures q <= 0 ==> b * q <= 0
  {
  }

  /** The first `count` bytes of the range. */
  ghost predicate ReadsBytes(disk: seq<Block>, ib: BlockMap, first: nat, blocks: nat, count: nat, data: seq<Byte>) {
    && RangeOk(disk, ib, first, blocks) && count <= |RangeBytes(disk, ib, first, blocks)|
    && data == RangeBytes(disk, ib, first, blocks)[..count]
  }

  lemma JoinBytes(e: nat, disk: seq<Block>, ib: BlockMap, first: nat, m: nat, count: nat, front: seq<Byte>, last: Block)
    requires BytesApart(e, disk, ib, first, m) && m * (4 * e) < count <= m * (4 * e) + 4 * e
    requires front == RangeBytes(disk, ib, first, m) && last == LastBlock(disk, ib, first, m)
    ensures count - m * (4 * e) <= |BytesOf(last)|
    ensures ReadsBytes(disk, ib, first, m + 1, count, front + BytesOf(last)[..count - m * (4 * e)])
  {
    hide RangeOk, RangeBytes, LastBlock, BytesOf;
    assert (front + BytesOf(last))[..count] == front + BytesOf(last)[..count - m * (4 * e)];
  }

  lemma ReadsNothing(disk: seq<Block>, ib: BlockMap, first: nat)
    requires RangeOk(disk, ib, first, 0)
    ensures ReadsBytes(disk, ib, first, 0, 0, [])
  {
    hide RangeOk, RangeBytes;
    assert RangeBytes(disk, ib, first, 0)[..0] == [];
  }

  /** ext2_read_inode_blocks on a range. */
  method ReadRange(p: Partition, ib: BlockMap, n: nat, first: nat) returns (rc: int, data: seq<Block>)
    requires p.Value().Shape() && n < COUNT_LIMIT && RangeOk(p.disk, ib, first, n)
    ensures rc == if n == 0 || first < DIRECT then n else 0
    ensures rc > 0 ==> data == RangeData(p.disk, ib, first, n)
  {
    hide FileOk, FileData;
    rc, data := ReadInodeBlocks(p, ib, n, first);
  }

  /** ext2_read_inode_bytes from a block boundary: right exactly when the last block read is a direct one. */
  method ReadInodeBytes(p: Partition, ib: BlockMap, count: nat, skip: nat) returns (rc: int, data: seq<Byte>)
    requires p.Value().Shape() && skip % (4 * p.words) == 0 && CeilDiv(count, 4 * p.words) < COUNT_LIMIT
    requires RangeOk(p.disk, ib, skip / (4 * p.words), CeilDiv(count, 4 * p.words))
    ensures var first, blocks := skip / (4 * p.words), CeilDiv(count, 4 * p.words);
      if count == 0 || first + blocks <= DIRECT then rc == count && ReadsBytes(p.disk, ib, first, blocks, count, data)
      else rc == READ_FAILED
  {
    hide RangeOk, RangeData, Flat, BytesOf, ReadsBytes, RangeBytes, LastBlock, CeilDiv;
    var size := 4 * p.words;
    var blocks := CeilDiv(count, size);
    var skipBlocks := skip / size;
    ghost var first := skipBlocks;
    CeilDivIs(count, size);
    var remaining := count;
    rc, data := 0, [];
    if remaining > 0 {
      SplitBytes(p.words, p.disk, ib, first, blocks - 1);
      var result, chunk := ReadRange(p, ib, blocks - 1, skipBlocks);
      if result == READ_FAILED {
        return READ_FAILED, data;
      }
      if result > 0 {
        data := Flat(chunk);
        RangeBytesIs(p.disk, ib, first, blocks - 1);
      }
      rc := result * size;
      skipBlocks := skipBlocks + result;
      remaining := count - rc;
    } else {
      ReadsNothing(p.disk, ib, first);
    }
    if remaining > 0 {
      var result, last := ReadLast(p, ib, first, blocks - 1, skipBlocks);
      if result != 1 {
        return READ_FAILED, data;
      }
      JoinBytes(p.words, p.disk, ib, first, blocks - 1, count, data, last);
      data := data + BytesOf(last)[..remaining];
      rc := rc + remaining;
    }
  }

  lemma RangeBytesIs(disk: seq<Block>, ib: BlockMap, first: nat, n: nat)
    requires RangeOk(disk, ib, first, n)
    ensures RangeBytes(disk, ib, first, n) == Flat(RangeData(disk, ib, first, n))
  {
  }

  /** The read of one block behind the others; nothing comes back from behind the direct blocks. */
  method ReadLast(p: Partition, ib: BlockMap, ghost first: nat, ghost m: nat, at: nat) returns (rc: int, last: Block)
    requires p.Value().Shape() && RangeOk(p.disk, ib, first + m, 1)
    requires at == first + m || at >= DIRECT
    ensures rc == if at < DIRECT then 1 else 0
    ensures rc == 1 ==> last == LastBlock(p.disk, ib, first, m)
  {
    hide FileOk, FileData;
    var data;
    rc, data := ReadInodeBlocks(p, ib, 1, at);
    last := [];
    if rc == 1 {
      last := data[0];
    }
  }

  // ----- writing

  /** The range's bytes after the first ones were overwritten. */
  ghost function Overlaid(disk: seq<Block>, ib: BlockMap, first: nat, blocks: nat, src: seq<Byte>): seq<Byte> {
    var was := RangeBytes(disk, ib, first, blocks);
    if |src| <= |was| then src + was[|src|..] else src
  }

  /** The range now holds the overlaid bytes, and nothing else on the disk changed. */
  ghost predicate WritesBytes(e: nat, disk: seq<Block>, disk': seq<Block>, ib: BlockMap, first: nat, blocks: nat, src: seq<Byte>) {
    && RangeOk(disk, ib, first, blocks) && |Overlaid(disk, ib, first, blocks, src)| == blocks * (4 * e)
    && disk' == RangeWritten(disk, ib, first, blocks, Cut(e, Overlaid(disk, ib, first, blocks, src), blocks))
  }

  lemma RangeWriteThenRead(disk: seq<Block>, ib: BlockMap, first: nat, n: nat, data: seq<Block>)
    requires RangeSound(disk, ib, first, n) && n == |data|
    ensures RangeOk(RangeWritten(disk, ib, first, n, data), ib, first, n)
    ensures RangeData(RangeWritten(disk, ib, first, n, data), ib, first, n) == data
  {
    hide FileOk, FileSound, FileData, AfterWrite;
    WriteThenRead(disk, ib, first, n, data);
    assert data[..n] == data;
  }

  /** Read after a byte-wise write: the written bytes, and behind them what was there. */
  lemma BytesWriteThenRead(e: nat, disk: seq<Block>, disk': seq<Block>, ib: BlockMap, first: nat, blocks: nat, src: seq<Byte>)
    requires RangeSound(disk, ib, first, blocks) && WritesBytes(e, disk, disk', ib, first, blocks, src)
    ensures RangeOk(disk', ib, first, blocks)
    ensures RangeBytes(disk', ib, first, blocks) == Overlaid(disk, ib, first, blocks, src)
  {
    hide RangeOk, RangeSound, RangeData, RangeWritten, Flat, Cut, Overlaid;
    var all := Overlaid(disk, ib, first, blocks, src);
    RangeWriteThenRead(disk, ib, first, blocks, Cut(e, all, blocks));
    FlatCut(e, all, blocks);
    assert all[..blocks * (4 * e)] == all;
  }

  lemma WritesNothing(e: nat, disk: seq<Block>, ib: BlockMap, first: nat, src: seq<Byte>)
    requires RangeOk(disk, ib, first, 0) && src == []
    ensures WritesBytes(e, disk, disk, ib, first, 0, src)
  {
    RangeWrittenNothing(disk, ib, first);
    hide RangeOk, RangeWritten;
    assert RangeData(disk, ib, first, 0) == [];
  }

  lemma RangeWrittenNothing(disk: seq<Block>, ib: BlockMap, first: nat)
    requires RangeOk(disk, ib, first, 0)
    ensures RangeWritten(disk, ib, first, 0, []) == disk
  {
    hide FileOk, FileBlocks, PutAll;
    assert FileBlocks(disk, ib, first + 0)[first..] == [];
    PutAllNothing(disk, []);
  }

  /** After the first m blocks are written the last block is still what it was. */
  ghost predicate FrontWritten(disk: seq<Block>, disk1: seq<Block>, ib: BlockMap, first: nat, m: nat, xs: seq<Block>) {
    && |xs| == m && RangeOk(disk, ib, first, m + 1) && RangeOk(disk, ib, first, m) && RangeOk(disk, ib, first + m, 1)
    && disk1 == RangeWritten(disk, ib, first, m, xs)
    && RangeOk(disk1, ib, first + m, 1) && RangeSound(disk1, ib, first + m, 1)
    && LastBlock(disk1, ib, first, m) == LastBlock(disk, ib, first, m)
  }

  lemma WriteFront(disk: seq<Block>, ib: BlockMap, first: nat, m: nat, xs: seq<Block>)
    requires m == |xs| && RangeSound(disk, ib, first, m + 1)
    ensures RangeSound(disk, ib, first, m)
    ensures FrontWritten(disk, RangeWritten(disk, ib, first, m, xs), ib, first, m, xs)
  {
    hide FileOk, FileTables, AfterWrite, FileBlocks, FileSound, FileData;
    FileSoundPrefix(disk, ib, first + m, first + (m + 1));
    WriteKeepsTables(disk, ib, first, m, xs, first + m + 1);
    LastKept(disk, ib, first, m, xs);
  }

  lemma DataAt(disk: seq<Block>, ib: BlockMap, k: nat)
    requires FileOk(disk, ib, k + 1)
    ensures |FileBlocks(disk, ib, k + 1)| == k + 1
    ensures var b := FileBlocks(disk, ib, k + 1)[k]; 0 < b < |disk| && FileData(disk, ib, k, 1) == [disk[b]]
  {
    var bs := FileBlocks(disk, ib, k + 1);
    assert |bs| == k + 1 && InRange(disk, bs);
    hide FileOk, FileBlocks;
    assert bs[k] in bs;
  }

  lemma LastKept(disk: seq<Block>, ib: BlockMap, first: nat, m: nat, xs: seq<Block>)
    requires m == |xs| && FileSound(disk, ib, first + m + 1) && FileSound(disk, ib, first + m)
    requires FileOk(AfterWrite(disk, ib, first, m, xs), ib, first + m + 1)
    requires FileBlocks(AfterWrite(disk, ib, first, m, xs), ib, first + m + 1) == FileBlocks(disk, ib, first + m + 1)
    ensures FileData(AfterWrite(disk, ib, first, m, xs), ib, first + m, 1) == FileData(disk, ib, first + m, 1)
  {
    hide *;
    var k := first + m;
    LastDistinct(disk, ib, k);
    FileSoundPrefix(disk, ib, k, k + 1);
    AfterWriteElsewhere(disk, ib, first, m, xs);
    DataAt(disk, ib, k);
    DataAt(AfterWrite(disk, ib, first, m, xs), ib, k);
  }

  lemma LastDistinct(disk: seq<Block>, ib: BlockMap, k: nat)
    requires FileSound(disk, ib, k + 1)
    ensures var bs := FileBlocks(disk, ib, k + 1);
      |bs| == k + 1 && forall i :: 0 <= i <= k ==> bs[k] !in bs[..k][i..]
  {
    hide FileOk, FileBlocks, FileTables, Apart;
    NotAmongEarlier(FileBlocks(disk, ib, k + 1), k);
  }

  lemma NotAmongEarlier(bs: seq<nat>, k: nat)
    requires Distinct(bs) && k < |bs|
    ensures forall i :: 0 <= i <= k ==> bs[k] !in bs[..k][i..]
  {
  }

  /** Writing the first m blocks and then the last one is writing the range. */
  ghost predicate WrittenInTwo(disk: seq<Block>, disk1: seq<Block>, ib: BlockMap, first: nat, m: nat, xs: seq<Block>, x: Block) {
    && |xs| == m && RangeOk(disk, ib, first, m + 1) && RangeOk(disk1, ib, first + m, 1)
    && RangeWritten(disk1, ib, first + m, 1, [x]) == RangeWritten(disk, ib, first, m + 1, xs + [x])
  }

  lemma RangeBlocks(disk: seq<Block>, ib: BlockMap, first: nat, n: nat)
    requires RangeOk(disk, ib, first, n)
    ensures |FileBlocks(disk, ib, first + n)| == first + n && InRange(disk, FileBlocks(disk, ib, first + n))
  {
  }

  lemma RangeWrittenIs(disk: seq<Block>, ib: BlockMap, first: nat, n: nat, src: seq<Block>)
    requires RangeOk(disk, ib, first, n) && n <= |src|
    ensures var bs := FileBlocks(disk, ib, first + n);
      && |bs| == first + n && InRange(disk, bs[first..])
      && RangeWritten(disk, ib, first, n, src) == PutAll(disk, bs[first..], src)
  {
    hide PutAll, FileBlocks, FileOk;
    RangeBlocks(disk, ib, first, n);
    var bs := FileBlocks(disk, ib, first + n);
    assert forall y :: y in bs[first..] ==> y in bs;
  }

  lemma WriteLast(disk: seq<Block>, disk1: seq<Block>, ib: BlockMap, first: nat, m: nat, xs: seq<Block>, x: Block)
    requires RangeSound(disk, ib, first, m + 1) && FrontWritten(disk, disk1, ib, first, m, xs)
    ensures WrittenInTwo(disk, disk1, ib, first, m, xs, x)
  {
    hide FileOk, FileBlocks, FileSound, PutAll, InRange, LastBlock, RangeWritten, RangeOk, RangeSound, AfterWrite;
    var bs := FileBlocks(disk, ib, first + m + 1);
    SameBlocks(disk, ib, first, m, xs);
    RangeWrittenIs(disk, ib, first, m, xs);
    RangeWrittenIs(disk, ib, first, m + 1, xs + [x]);
    RangeWrittenIs(disk1, ib, first + m, 1, [x]);
    RangeBlocks(disk, ib, first, m + 1);
    PutInTwo(disk, bs, first, m, xs, x);
  }

  lemma SameBlocks(disk: seq<Block>, ib: BlockMap, first: nat, m: nat, xs: seq<Block>)
    requires |xs| == m && RangeSound(disk, ib, first, m + 1) && RangeOk(disk, ib, first, m)
    ensures FileBlocks(disk, ib, first + m) == FileBlocks(disk, ib, first + m + 1)[..first + m]
    ensures FileBlocks(RangeWritten(disk, ib, first, m, xs), ib, first + m + 1) == FileBlocks(disk, ib, first + m + 1)
  {
    hide FileOk, FileBlocks, FileTables, FileSound, PutAll, InRange, AfterWrite;
    FileSoundPrefix(disk, ib, first + m, first + m + 1);
    WriteKeepsTables(disk, ib, first, m, xs, first + m + 1);
  }

  lemma PutInTwo(disk: seq<Block>, bs: seq<nat>, first: nat, m: nat, xs: seq<Block>, x: Block)
    requires |bs| == first + m + 1 && |xs| == m && InRange(disk, bs)
    ensures InRange(disk, bs[..first + m][first..]) && InRange(disk, bs[first..])
    ensures var disk1 := PutAll(disk, bs[..first + m][first..], xs);
      InRange(disk1, bs[first + m..]) && PutAll(disk1, bs[first + m..], [x]) == PutAll(disk, bs[first..], xs + [x])
  {
    var a, b := bs[..first + m][first..], bs[first + m..];
    assert bs == bs[..first] + (a + b) && bs[first..] == a + b;
    InRangeCat(disk, bs[..first], a + b);
    InRangeCat(disk, a, b);
    hide PutAll;
    PutAllPrefix(disk, a, xs, xs + [x]);
    PutAllCat(disk, a, b, xs + [x]);
    assert (xs + [x])[|a|..] == [x];
  }

  /** The overlaid bytes cut into blocks: the source's whole blocks, and the last block merged. */
  lemma CutOverlaid(e: nat, disk: seq<Block>, ib: BlockMap, first: nat, m: nat, src: seq<Byte>)
    requires BytesApart(e, disk, ib, first, m) && m * (4 * e) < |src| <= m * (4 * e) + 4 * e
    ensures |Overlaid(disk, ib, first, m + 1, src)| == (m + 1) * (4 * e) == m * (4 * e) + 4 * e
    ensures Cut(e, Overlaid(disk, ib, first, m + 1, src), m + 1)
      == Cut(e, src, m) + [WordsOf(src[m * (4 * e)..] + BytesOf(LastBlock(disk, ib, first, m))[|src| - m * (4 * e)..])]
  {
    hide RangeOk, RangeBytes, LastBlock, BytesOf, WordsOf, Cut;
    OneMoreBlock(m, 4 * e);
    var last, done := BytesOf(LastBlock(disk, ib, first, m)), m * (4 * e);
    var was, all := RangeBytes(disk, ib, first, m + 1), Overlaid(disk, ib, first, m + 1, src);
    assert was[|src|..] == last[|src| - done..];
    hide BytesApart, Overlaid;
    assert all == src + last[|src| - done..];
    CutStep(e, all, m);
    assert all[done..done + 4 * e] == src[done..] + last[|src| - done..];
    assert all[..done] == src[..done];
    CutPrefix(e, all, src, m);
  }

  lemma RangeWrittenAll(disk: seq<Block>, ib: BlockMap, first: nat, n: nat, src: seq<Block>)
    requires RangeOk(disk, ib, first, n) && n == |src|
    ensures RangeWritten(disk, ib, first, n, src) == AfterWrite(disk, ib, first, n, src)
    ensures n == 0 ==> RangeWritten(disk, ib, first, n, src) == disk
  {
    hide FileOk, AfterWrite;
    if n == 0 {
      RangeWrittenNothing(disk, ib, first);
      assert src == [];
    }
  }

  /** ext2_write_inode_blocks on a range. */
  method WriteRange(p: Partition, ib: BlockMap, src: seq<Block>, n: nat, first: nat) returns (rc: int)
    requires p.Value().Shape() && n < COUNT_LIMIT && n == |src| && Uniform(p.words, src)
    requires RangeSound(p.disk, ib, first, n)
    modifies p`disk
    ensures p.Value().Shape() && rc == if n == 0 || first < DIRECT then n else 0
    ensures n == 0 || first < DIRECT ==> p.disk == RangeWritten(old(p.disk), ib, first, n, src)
    ensures n > 0 && first >= DIRECT ==> p.disk == old(p.disk)
  {
    hide FileOk, FileSound, AfterWrite, RangeWritten, FileBlocks;
    RangeWrittenAll(p.disk, ib, first, n, src);
    rc := WriteInodeBlocks(p, ib, src, n, first);
  }

  /** ext2_write_inode_bytes from a block boundary: right exactly when the last block written is a direct one. */
  method WriteInodeBytes(p: Partition, ib: BlockMap, src: seq<Byte>, skip: nat) returns (rc: int)
    requires p.Value().Shape() && skip % (4 * p.words) == 0 && CeilDiv(|src|, 4 * p.words) < COUNT_LIMIT
    requires RangeSound(p.disk, ib, skip / (4 * p.words), CeilDiv(|src|, 4 * p.words))
    modifies p`disk
    ensures var first, blocks := skip / (4 * p.words), CeilDiv(|src|, 4 * p.words);
      if |src| == 0 || first + blocks <= DIRECT then
        rc == |src| && WritesBytes(p.words, old(p.disk), p.disk, ib, first, blocks, src)
      else rc == WRITE_FAILED
  {
    hide RangeOk, RangeSound, RangeData, RangeWritten, Flat, BytesOf, RangeBytes, LastBlock, CeilDiv, Cut, WordsOf,
      WritesBytes, FrontWritten, BytesApart, Overlaid;
    var size := 4 * p.words;
    var count := |src|;
    var blocks := CeilDiv(count, size);
    var skipBlocks := skip / size;
    ghost var first, disk0 := skipBlocks, p.disk;
    CeilDivIs(count, size);
    var remaining := count;
    rc := 0;
    if remaining > 0 {
      SplitBytes(p.words, disk0, ib, first, blocks - 1);
      var front := Cut(p.words, src, blocks - 1);
      WriteFront(disk0, ib, first, blocks - 1, front);
      var result := WriteRange(p, ib, front, blocks - 1, skipBlocks);
      if result == WRITE_FAILED {
        return WRITE_FAILED;
      }
      rc := result * size;
      skipBlocks := skipBlocks + result;
      remaining := count - rc;
    } else {
      WritesNothing(p.words, disk0, ib, first, src);
    }
    if remaining > 0 {
      var result := WriteTail(p, ib, src, rc, skipBlocks, first, blocks - 1, disk0);
      if result != 1 {
        return WRITE_FAILED;
      }
      rc := rc + remaining;
    }
  }

  /** The last part of ext2_write_inode_bytes: the last block is read, overlaid and written back. */
  method WriteTail(p: Partition, ib: BlockMap, src: seq<Byte>, done: nat, at: nat,
                   ghost first: nat, ghost m: nat, ghost disk0: seq<Block>) returns (result: int)
    requires p.Value().Shape() && done < |src| && BytesApart(p.words, disk0, ib, first, m)
    requires m * (4 * p.words) < |src| <= m * (4 * p.words) + 4 * p.words && RangeSound(disk0, ib, first, m + 1)
    requires at < DIRECT ==> at == first + m && done == m * (4 * p.words)
    requires FrontWritten(disk0, p.disk, ib, first, m, Cut(p.words, src, m)) || (at >= DIRECT && p.disk == disk0)
    modifies p`disk
    ensures result == if at < DIRECT then 1 else 0
    ensures result == 1 ==> WritesBytes(p.words, disk0, p.disk, ib, first, m + 1, src)
  {
    hide RangeOk, RangeSound, BytesOf, LastBlock, Cut, WordsOf, WritesBytes, FrontWritten, BytesApart;
    ghost var disk1 := p.disk;
    LastFacts(p.words, disk0, ib, first, m);
    if FrontWritten(disk0, disk1, ib, first, m, Cut(p.words, src, m)) {
      FrontFacts(disk0, disk1, ib, first, m, Cut(p.words, src, m));
    }
    var temp;
    result, temp := ReadLast(p, ib, first, m, at);
    if result != 1 {
      return;
    }
    var remaining := |src| - done;
    var last := WordsOf(src[done..done + remaining] + BytesOf(temp)[remaining..]);
    assert src[done..done + remaining] == src[done..];
    result := WriteRange(p, ib, [last], 1, at);
    FinishWrite(p.words, disk0, disk1, p.disk, ib, first, m, src, last);
  }

  lemma LastFacts(e: nat, disk: seq<Block>, ib: BlockMap, first: nat, m: nat)
    requires BytesApart(e, disk, ib, first, m)
    ensures RangeOk(disk, ib, first + m, 1) && |LastBlock(disk, ib, first, m)| == e
  {
    hide RangeOk, LastBlock, RangeBytes, BytesOf;
  }

  lemma FrontFacts(disk: seq<Block>, disk1: seq<Block>, ib: BlockMap, first: nat, m: nat, xs: seq<Block>)
    requires FrontWritten(disk, disk1, ib, first, m, xs)
    ensures RangeOk(disk, ib, first + m, 1) && RangeOk(disk1, ib, first + m, 1) && RangeSound(disk1, ib, first + m, 1)
    ensures LastBlock(disk1, ib, first, m) == LastBlock(disk, ib, first, m)
  {
    hide RangeOk, RangeSound, RangeWritten, LastBlock;
  }

  lemma FinishWrite(e: nat, disk: seq<Block>, disk1: seq<Block>, disk2: seq<Block>, ib: BlockMap, first: nat, m: nat,
                    src: seq<Byte>, x: Block)
    requires BytesApart(e, disk, ib, first, m) && m * (4 * e) < |src| <= m * (4 * e) + 4 * e
    requires RangeSound(disk, ib, first, m + 1) && FrontWritten(disk, disk1, ib, first, m, Cut(e, src, m))
    requires x == WordsOf(src[m * (4 * e)..] + BytesOf(LastBlock(disk, ib, first, m))[|src| - m * (4 * e)..])
    requires RangeOk(disk1, ib, first + m, 1) && disk2 == RangeWritten(disk1, ib, first + m, 1, [x])
    ensures WritesBytes(e, disk, disk2, ib, first, m + 1, src)
  {
    CutOverlaid(e, disk, ib, first, m, src);
    hide RangeOk, RangeSound, RangeWritten, LastBlock, BytesOf, WordsOf, Cut, Overlaid, BytesApart, FrontWritten;
    WriteLast(disk, disk1, ib, first, m, Cut(e, src, m), x);
  }
}
