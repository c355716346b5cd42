/** Reading and writing whole blocks of a file through its inode. */
module Ext2File {
  import opened Words
  import opened Ext2Volume
  import opened Ext2Tree
  import opened Ext2Alloc
  import opened Ext2Read
  import opened Ext2Write

  /** i_block: twelve data blocks, then an indirect, a double and a triple indirect block. */
  type BlockMap = m: seq<Word> | |m| == 15 witness seq(15, i => 0)

  const DIRECT: nat := 12

  /** The entries the walker of depth `k` is started on. */
  function Stage(ib: BlockMap, k: nat): seq<Word>
    requires k <= 3
  {
    if k == 0 then ib[..DIRECT] else [ib[DIRECT - 1 + k]]
  }

  /** The first `n` data blocks of the stages `k` and above. */
  ghost function FileFrom(disk: seq<Block>, ib: BlockMap, k: nat, n: nat): (bs: seq<nat>)
    requires k <= 4
    ensures |bs| <= n
    decreases 4 - k
  {
    if k == 4 then [] else
      var here := LeavesOf(disk, Stage(ib, k), k, n);
      here + FileFrom(disk, ib, k + 1, n - |here|)
  }

  ghost function FileTablesFrom(disk: seq<Block>, ib: BlockMap, k: nat, n: nat): seq<nat>
    requires k <= 4
    decreases 4 - k
  {
    if k == 4 then [] else
      TablesOf(disk, Stage(ib, k), k, n) + FileTablesFrom(disk, ib, k + 1, n - |LeavesOf(disk, Stage(ib, k), k, n)|)
  }

  /** The first `n` blocks of the file's data, in order. */
  ghost function FileBlocks(disk: seq<Block>, ib: BlockMap, n: nat): (bs: seq<nat>)
    ensures |bs| <= n
  {
    FileFrom(disk, ib, 0, n)
  }

  /** The table blocks needed to reach them. */
  ghost function FileTables(disk: seq<Block>, ib: BlockMap, n: nat): seq<nat> {
    FileTablesFrom(disk, ib, 0, n)
  }

  ghost predicate Reachable(disk: seq<Block>, ib: BlockMap, k: nat, n: nat)
    requires k <= 4
  {
    && |FileFrom(disk, ib, k, n)| == n
    && InRange(disk, FileFrom(disk, ib, k, n))
    && InRange(disk, FileTablesFrom(disk, ib, k, n))
  }

  /** The file has `n` data blocks, all addressable, and so are its tables. */
  ghost predicate FileOk(disk: seq<Block>, ib: BlockMap, n: nat)
    ensures FileOk(disk, ib, n) ==> InRange(disk, FileBlocks(disk, ib, n)) && |FileBlocks(disk, ib, n)| == n
  {
    Reachable(disk, ib, 0, n)
  }

  lemma BlocksReachable(disk: seq<Block>, ib: BlockMap, n: nat)
    requires |FileBlocks(disk, ib, n)| == n
    requires InRange(disk, FileBlocks(disk, ib, n)) && InRange(disk, FileTables(disk, ib, n))
    ensures FileOk(disk, ib, n)
  {
  }

  /** The contents of `count` blocks of the file from block `skip` on. */
  ghost function FileData(disk: seq<Block>, ib: BlockMap, skip: nat, count: nat): (data: seq<Block>)
    requires FileOk(disk, ib, skip + count)
    ensures |data| == count
  {
    Gather(disk, FileBlocks(disk, ib, skip + count))[skip..]
  }

  lemma StageUnfold(disk: seq<Block>, ib: BlockMap, k: nat, n: nat)
    requires k <= 3
    ensures var here := LeavesOf(disk, Stage(ib, k), k, n);
      && FileFrom(disk, ib, k, n) == here + FileFrom(disk, ib, k + 1, n - |here|)
      && FileTablesFrom(disk, ib, k, n)
         == TablesOf(disk, Stage(ib, k), k, n) + FileTablesFrom(disk, ib, k + 1, n - |here|)
  {
    hide LeavesOf, TablesOf;
  }

  lemma StagesDone(disk: seq<Block>, ib: BlockMap, k: nat, n: nat)
    requires k <= 4 && (k == 4 || n == 0) && Reachable(disk, ib, k, n)
    ensures n == 0 && FileFrom(disk, ib, k, n) == []
  {
  }

  /** An indirect stage can be walked, yields at least one block, and leaves the later stages reachable. */
  lemma StageStep(e: nat, disk: seq<Block>, ib: BlockMap, k: nat, n: nat)
    requires e > 0 && Uniform(e, disk)
    requires 1 <= k <= 3 && n > 0 && Reachable(disk, ib, k, n)
    ensures Walkable(disk, Stage(ib, k), k, n)
    ensures var here := LeavesOf(disk, Stage(ib, k), k, n);
      && 0 < |here|
      && FileFrom(disk, ib, k, n) == here + FileFrom(disk, ib, k + 1, n - |here|)
      && Reachable(disk, ib, k + 1, n - |here|)
  {
    hide LeavesOf, TablesOf, FileFrom, FileTablesFrom;
    StageUnfold(disk, ib, k, n);
    var here := LeavesOf(disk, Stage(ib, k), k, n);
    InRangeCat(disk, here, FileFrom(disk, ib, k + 1, n - |here|));
    InRangeCat(disk, TablesOf(disk, Stage(ib, k), k, n), FileTablesFrom(disk, ib, k + 1, n - |here|));
    CapPositive(e, k);
    LeavesOfCount(e, disk, Stage(ib, k), k, n);
  }

  /** The direct stage with a skip: what it reads and what is left for the indirect stages. */
  lemma DirectStage(disk: seq<Block>, ib: BlockMap, skip: nat, count: nat)
    requires skip < DIRECT && count > 0 && FileOk(disk, ib, skip + count)
    ensures var here := LeavesOf(disk, ib[..DIRECT][skip..], 0, count);
      && |here| == Min(count, DIRECT - skip) && InRange(disk, here)
      && FileBlocks(disk, ib, skip + count)[skip..] == here + FileFrom(disk, ib, 1, count - |here|)
      && Reachable(disk, ib, 1, count - |here|)
      && InRange(disk, FileBlocks(disk, ib, skip + count)[skip..])
  {
    hide LeavesOf, TablesOf, FileFrom, FileTablesFrom;
    var n := skip + count;
    StageUnfold(disk, ib, 0, n);
    var direct := ib[..DIRECT];
    DirectLeaves(disk, direct, n);
    DirectLeaves(disk, direct[skip..], count);
    var all := LeavesOf(disk, direct, 0, n);
    var here := LeavesOf(disk, direct[skip..], 0, count);
    assert here == all[skip..];
    assert n - |all| == count - |here|;
    InRangeCat(disk, all, FileFrom(disk, ib, 1, n - |all|));
    InRangeCat(disk, all[..skip], all[skip..]);
    assert all == all[..skip] + all[skip..];
    InRangeCat(disk, here, FileFrom(disk, ib, 1, n - |all|));
    InRangeCat(disk, [], FileTablesFrom(disk, ib, 1, n - |all|));
    assert FileTablesFrom(disk, ib, 0, n) == FileTablesFrom(disk, ib, 1, n - |all|);
  }

  /** The read has delivered `done`; the blocks still wanted start at stage `k`. */
  ghost predicate ReadUpTo(disk: seq<Block>, ib: BlockMap, wanted: seq<nat>, k: nat, done: seq<nat>, data: seq<Block>) {
    && k <= 4 && |done| <= |wanted|
    && InRange(disk, wanted) && InRange(disk, done) && data == Gather(disk, done)
    && Reachable(disk, ib, k, |wanted| - |done|)
    && wanted == done + FileFrom(disk, ib, k, |wanted| - |done|)
  }

  lemma ReadStage(e: nat, disk: seq<Block>, ib: BlockMap, wanted: seq<nat>, k: nat, done: seq<nat>, data: seq<Block>)
    requires e > 0 && Uniform(e, disk)
    requires 1 <= k <= 3 && |done| < |wanted| && ReadUpTo(disk, ib, wanted, k, done, data)
    ensures Walkable(disk, Stage(ib, k), k, |wanted| - |done|)
    ensures var here := LeavesOf(disk, Stage(ib, k), k, |wanted| - |done|);
      |here| > 0 && ReadUpTo(disk, ib, wanted, k + 1, done + here, data + Gather(disk, here))
  {
    hide LeavesOf, TablesOf, FileFrom, FileTablesFrom, Reachable;
    var rem := |wanted| - |done|;
    StageStep(e, disk, ib, k, rem);
    var here := LeavesOf(disk, Stage(ib, k), k, rem);
    GatherCat(disk, done, here);
    Reassociate(wanted, done, here, FileFrom(disk, ib, k + 1, rem - |here|));
  }

  lemma ReadComplete(disk: seq<Block>, ib: BlockMap, wanted: seq<nat>, k: nat, done: seq<nat>, data: seq<Block>)
    requires ReadUpTo(disk, ib, wanted, k, done, data) && (k == 4 || |done| == |wanted|)
    ensures |done| == |wanted| && data == Gather(disk, wanted)
  {
    StagesDone(disk, ib, k, |wanted| - |done|);
    assert done == wanted;
  }

  lemma DirectOutcome(disk: seq<Block>, ib: BlockMap, count: nat, skip: nat, rc: int, data: seq<Block>)
    requires count > 0
    requires DirectResult(disk, LeavesOf(disk, ib[..DIRECT][Min(skip, DIRECT)..], 0, count), rc, data)
    ensures rc != READ_FAILED ==> 0 <= rc <= count && |data| == rc
    ensures skip >= DIRECT ==> rc == 0
    ensures skip < DIRECT && FileOk(disk, ib, skip + count) ==>
      var here := LeavesOf(disk, ib[..DIRECT][skip..], 0, count);
      && rc == |here| && 0 < |here|
      && ReadUpTo(disk, ib, FileBlocks(disk, ib, skip + count)[skip..], 1, here, data)
  {
    hide LeavesOf, TablesOf, FileBlocks, FileOk, Reachable, FileFrom;
    DirectLeaves(disk, ib[..DIRECT][Min(skip, DIRECT)..], count);
    if skip < DIRECT && FileOk(disk, ib, skip + count) {
      DirectStage(disk, ib, skip, count);
      DirectAll(disk, LeavesOf(disk, ib[..DIRECT][skip..], 0, count), rc, data);
    }
  }

  /** What the read has to deliver, as a statement about the gathered blocks. */
  lemma FileDataIsGather(disk: seq<Block>, ib: BlockMap, skip: nat, count: nat)
    requires FileOk(disk, ib, skip + count) && InRange(disk, FileBlocks(disk, ib, skip + count)[skip..])
    ensures FileData(disk, ib, skip, count) == Gather(disk, FileBlocks(disk, ib, skip + count)[skip..])
  {
  }

  /** ext2_read_inode_blocks: right exactly when the first block lies in the direct stage. */
  method ReadInodeBlocks(p: Partition, ib: BlockMap, count: nat, skip: nat) returns (rc: int, data: seq<Block>)
    requires p.Value().Shape() && count < COUNT_LIMIT
    ensures count == 0 ==> rc == 0 && data == []
    ensures count > 0 && skip >= DIRECT ==> rc == 0
    ensures count > 0 && skip < DIRECT && FileOk(p.disk, ib, skip + count) ==>
      rc == count && data == FileData(p.disk, ib, skip, count)
  {
    hide LeavesOf, ReadUpTo, Reachable, FileOk, Walkable, FileBlocks, FileData, DirectResult, InRange;
    if count == 0 {
      return 0, [];
    }
    ghost var ok := skip < DIRECT && FileOk(p.disk, ib, skip + count);
    ghost var wanted, done: seq<nat> := [], [];

    var left;
    rc, data, left := ReadDirect(p, ib[..DIRECT], count, skip);
    DirectOutcome(p.disk, ib, count, skip, rc, data);
    if ok {
      wanted := FileBlocks(p.disk, ib, skip + count)[skip..];
      done := LeavesOf(p.disk, ib[..DIRECT][skip..], 0, count);
    }
    if rc == READ_FAILED || rc == 0 {
      return;
    }
    var read := rc;
    if read >= count {
      if ok { ReadFinished(p.disk, ib, skip, count, 1, done, data); }
      return;
    }

    assert left == 0;
    var result, chunk := ReadIndirect(p, [ib[12]], count - read);
    if ok { ReadStage(p.words, p.disk, ib, wanted, 1, done, data); }
    if result == READ_FAILED || result == 0 {
      return result, data;
    }
    if ok { done := done + LeavesOf(p.disk, Stage(ib, 1), 1, count - read); }
    read, data := read + result, data + chunk;
    if read >= count {
      if ok { ReadFinished(p.disk, ib, skip, count, 2, done, data); }
      return read, data;
    }

    result, chunk := ReadDouble(p, [ib[13]], count - read);
    if ok { ReadStage(p.words, p.disk, ib, wanted, 2, done, data); }
    if result == READ_FAILED || result == 0 {
      return result, data;
    }
    if ok { done := done + LeavesOf(p.disk, Stage(ib, 2), 2, count - read); }
    read, data := read + result, data + chunk;
    if read >= count {
      if ok { ReadFinished(p.disk, ib, skip, count, 3, done, data); }
      return read, data;
    }

    result, chunk := ReadTriple(p, [ib[14]], count - read);
    if ok { ReadStage(p.words, p.disk, ib, wanted, 3, done, data); }
    if result == READ_FAILED || result == 0 {
      return result, data;
    }
    if ok { done := done + LeavesOf(p.disk, Stage(ib, 3), 3, count - read); }
    read, data := read + result, data + chunk;
    if ok { ReadFinished(p.disk, ib, skip, count, 4, done, data); }
    if read >= count {
      return read, data;
    }
    rc := READ_FAILED;
  }

  lemma ReadFinished(disk: seq<Block>, ib: BlockMap, skip: nat, count: nat, k: nat, done: seq<nat>, data: seq<Block>)
    requires FileOk(disk, ib, skip + count)
    requires ReadUpTo(disk, ib, FileBlocks(disk, ib, skip + count)[skip..], k, done, data)
    requires k == 4 || |done| == count
    ensures |done| == count && data == FileData(disk, ib, skip, count)
  {
    ReadComplete(disk, ib, FileBlocks(disk, ib, skip + count)[skip..], k, done, data);
    FileDataIsGather(disk, ib, skip, count);
  }

  // ----- writing

  /** The file's tables and data blocks are addressable, its data blocks distinct and none of them a table. */
  ghost predicate FileSound(disk: seq<Block>, ib: BlockMap, n: nat)
    ensures FileSound(disk, ib, n) ==> FileOk(disk, ib, n)
  {
    && FileOk(disk, ib, n)
    && Distinct(FileBlocks(disk, ib, n))
    && Apart(FileTables(disk, ib, n), FileBlocks(disk, ib, n))
  }

  /** The write has filled `done`, the blocks still wanted start at stage `k`, and no table was touched. */
  ghost predicate WroteUpTo(disk0: seq<Block>, disk: seq<Block>, ib: BlockMap, wanted: seq<nat>, k: nat,
                            done: seq<nat>, src: seq<Block>)
  {
    && k <= 4 && |done| <= |wanted| <= |src|
    && InRange(disk0, done) && ReadUpTo(disk0, ib, wanted, k, done, Gather(disk0, done))
    && disk == PutAll(disk0, done, src)
    && Apart(FileTablesFrom(disk0, ib, k, |wanted| - |done|), wanted)
  }

  /** The tables of stage `k` are still those the write began with. */
  lemma WriteStageReady(e: nat, disk0: seq<Block>, disk: seq<Block>, ib: BlockMap, wanted: seq<nat>, k: nat,
                        done: seq<nat>, src: seq<Block>)
    requires e > 0 && Uniform(e, disk0)
    requires 1 <= k <= 3 && |done| < |wanted| && WroteUpTo(disk0, disk, ib, wanted, k, done, src)
    ensures Writable(disk, Stage(ib, k), k, |wanted| - |done|)
    ensures LeavesOf(disk, Stage(ib, k), k, |wanted| - |done|) == LeavesOf(disk0, Stage(ib, k), k, |wanted| - |done|)
    ensures |LeavesOf(disk, Stage(ib, k), k, |wanted| - |done|)| > 0
  {
    hide LeavesOf, TablesOf, FileFrom, FileTablesFrom, Reachable, PutAll;
    var rem := |wanted| - |done|;
    StageUnfold(disk0, ib, k, rem);
    StageStep(e, disk0, ib, k, rem);
    var here := LeavesOf(disk0, Stage(ib, k), k, rem);
    var tables := TablesOf(disk0, Stage(ib, k), k, rem);
    assert forall t :: t in tables ==> t in FileTablesFrom(disk0, ib, k, rem);
    assert forall b :: b in here ==> b in wanted;
    PutAllElsewhere(disk0, done, src);
    ForestFrame(disk0, disk, Stage(ib, k), k, rem);
  }

  lemma WriteStageDone(e: nat, disk0: seq<Block>, disk1: seq<Block>, disk2: seq<Block>, ib: BlockMap,
                       wanted: seq<nat>, k: nat, done: seq<nat>, src: seq<Block>)
    requires e > 0 && Uniform(e, disk0)
    requires 1 <= k <= 3 && |done| < |wanted| && WroteUpTo(disk0, disk1, ib, wanted, k, done, src)
    requires var here := LeavesOf(disk0, Stage(ib, k), k, |wanted| - |done|);
      InRange(disk1, here) && disk2 == PutAll(disk1, here, src[|done|..])
    ensures WroteUpTo(disk0, disk2, ib, wanted, k + 1, done + LeavesOf(disk0, Stage(ib, k), k, |wanted| - |done|), src)
  {
    hide LeavesOf, TablesOf, FileFrom, FileTablesFrom, Reachable, PutAll;
    var rem := |wanted| - |done|;
    StageUnfold(disk0, ib, k, rem);
    ReadStage(e, disk0, ib, wanted, k, done, Gather(disk0, done));
    var here := LeavesOf(disk0, Stage(ib, k), k, rem);
    GatherCat(disk0, done, here);
    PutAllCat(disk0, done, here, src);
  }

  lemma DirectWriteOutcome(disk0: seq<Block>, disk: seq<Block>, ib: BlockMap, count: nat, skip: nat, rc: int,
                           src: seq<Block>)
    requires 0 < count <= |src|
    requires DirectWritten(disk0, disk, LeavesOf(disk0, ib[..DIRECT][Min(skip, DIRECT)..], 0, count), rc, src)
    ensures rc != WRITE_FAILED ==> 0 <= rc <= count
    ensures skip >= DIRECT ==> rc == 0 && disk == disk0
    ensures skip < DIRECT && FileSound(disk0, ib, skip + count) ==>
      var here := LeavesOf(disk0, ib[..DIRECT][skip..], 0, count);
      && rc == |here| && 0 < |here|
      && WroteUpTo(disk0, disk, ib, FileBlocks(disk0, ib, skip + count)[skip..], 1, here, src)
  {
    hide LeavesOf, TablesOf, FileFrom, FileTablesFrom, PutAll, Reachable;
    DirectLeaves(disk0, ib[..DIRECT][Min(skip, DIRECT)..], count);
    PutAllNothing(disk0, src);
    if skip < DIRECT && FileSound(disk0, ib, skip + count) {
      var here := LeavesOf(disk0, ib[..DIRECT][skip..], 0, count);
      var n := skip + count;
      DirectStage(disk0, ib, skip, count);
      DirectWrittenAll(disk0, disk, here, rc, src);
      StageUnfold(disk0, ib, 0, n);
      DirectLeaves(disk0, ib[..DIRECT], n);
      var wanted := FileBlocks(disk0, ib, n)[skip..];
      assert forall b :: b in wanted ==> b in FileBlocks(disk0, ib, n);
      assert FileTables(disk0, ib, n) == FileTablesFrom(disk0, ib, 1, count - |here|);
    }
  }

  /** The disk after `count` blocks of the file have been written from block `skip` on. */
  ghost function AfterWrite(disk: seq<Block>, ib: BlockMap, skip: nat, count: nat, src: seq<Block>): (r: seq<Block>)
    requires FileOk(disk, ib, skip + count) && count <= |src|
    ensures |r| == |disk|
  {
    var bs := FileBlocks(disk, ib, skip + count);
    assert bs == bs[..skip] + bs[skip..];
    InRangeCat(disk, bs[..skip], bs[skip..]);
    PutAll(disk, bs[skip..], src)
  }

  lemma WriteFinished(disk0: seq<Block>, disk: seq<Block>, ib: BlockMap, skip: nat, count: nat, k: nat,
                      done: seq<nat>, src: seq<Block>)
    requires FileOk(disk0, ib, skip + count) && count <= |src|
    requires WroteUpTo(disk0, disk, ib, FileBlocks(disk0, ib, skip + count)[skip..], k, done, src)
    requires k == 4 || |done| == count
    ensures |done| == count && disk == AfterWrite(disk0, ib, skip, count, src)
  {
    hide FileFrom, FileTablesFrom, PutAll, FileBlocks;
    var wanted := FileBlocks(disk0, ib, skip + count)[skip..];
    StagesDone(disk0, ib, k, |wanted| - |done|);
    assert done == wanted;
  }

  /** ext2_write_inode_blocks: nothing at all is written when the first block lies behind the direct stage. */
  method WriteInodeBlocks(p: Partition, ib: BlockMap, src: seq<Block>, count: nat, skip: nat) returns (rc: int)
    requires p.Value().Shape() && count < COUNT_LIMIT
    requires count <= |src| && Uniform(p.words, src)
    modifies p`disk
    ensures SameSizes(old(p.disk), p.disk) && p.Value().Shape()
    ensures count == 0 || skip >= DIRECT ==> rc == 0 && p.disk == old(p.disk)
    ensures count > 0 && skip < DIRECT && FileSound(old(p.disk), ib, skip + count) ==>
      rc == count && p.disk == AfterWrite(old(p.disk), ib, skip, count, src)
  {
    hide LeavesOf, WroteUpTo, ReadUpTo, Reachable, FileOk, FileSound, Walkable, FileBlocks, DirectWritten;
    hide PutAll, Writable, SameSizes, InRange, AfterWrite, Uniform, Snapshot.Shape;
    ShapeUniform(p.Value());
    ghost var disk0 := p.disk;
    SameSizesRefl(disk0);
    if count == 0 {
      return 0;
    }
    ghost var ok := skip < DIRECT && FileSound(disk0, ib, skip + count);
    ghost var wanted, done: seq<nat> := [], [];

    var left;
    rc, left := WriteDirect(p, ib[..DIRECT], src, count, skip);
    DirectWriteOutcome(disk0, p.disk, ib, count, skip, rc, src);
    if ok {
      wanted := FileBlocks(disk0, ib, skip + count)[skip..];
      done := LeavesOf(disk0, ib[..DIRECT][skip..], 0, count);
    }
    if rc == WRITE_FAILED || rc == 0 {
      return;
    }
    var written := rc;
    if written >= count {
      if ok { WriteFinished(disk0, p.disk, ib, skip, count, 1, done, src); }
      return;
    }

    assert left == 0;
    ghost var disk1 := p.disk;
    if ok { WriteStageReady(p.words, disk0, disk1, ib, wanted, 1, done, src); }
    UniformTail(p.words, src, written);
    var result := WriteIndirect(p, [ib[12]], src[written..], count - written);
    SameSizesTrans(disk0, disk1, p.disk);
    if result == WRITE_FAILED || result == 0 {
      return result;
    }
    if ok {
      WriteStageDone(p.words, disk0, disk1, p.disk, ib, wanted, 1, done, src);
      done := done + LeavesOf(disk0, Stage(ib, 1), 1, count - written);
    }
    written := written + result;
    if written >= count {
      if ok { WriteFinished(disk0, p.disk, ib, skip, count, 2, done, src); }
      return written;
    }

    disk1 := p.disk;
    if ok { WriteStageReady(p.words, disk0, disk1, ib, wanted, 2, done, src); }
    UniformTail(p.words, src, written);
    result := WriteDouble(p, [ib[13]], src[written..], count - written);
    SameSizesTrans(disk0, disk1, p.disk);
    if result == WRITE_FAILED || result == 0 {
      return result;
    }
    if ok {
      WriteStageDone(p.words, disk0, disk1, p.disk, ib, wanted, 2, done, src);
      done := done + LeavesOf(disk0, Stage(ib, 2), 2, count - written);
    }
    written := written + result;
    if written >= count {
      if ok { WriteFinished(disk0, p.disk, ib, skip, count, 3, done, src); }
      return written;
    }

    disk1 := p.disk;
    if ok { WriteStageReady(p.words, disk0, disk1, ib, wanted, 3, done, src); }
    UniformTail(p.words, src, written);
    result := WriteTriple(p, [ib[14]], src[written..], count - written);
    SameSizesTrans(disk0, disk1, p.disk);
    if result == WRITE_FAILED || result == 0 {
      return result;
    }
    if ok {
      WriteStageDone(p.words, disk0, disk1, p.disk, ib, wanted, 3, done, src);
      done := done + LeavesOf(disk0, Stage(ib, 3), 3, count - written);
      WriteFinished(disk0, p.disk, ib, skip, count, 4, done, src);
    }
    written := written + result;
    if written >= count {
      return written;
    }
    rc := WRITE_FAILED;
  }

  // ----- the first blocks of a longer file

  lemma {:induction false} FilePrefix(disk: seq<Block>, ib: BlockMap, k: nat, m: nat, n: nat)
    requires k <= 4 && m <= n
    ensures PrefixTree(FileFrom(disk, ib, k, m), FileFrom(disk, ib, k, n),
                       FileTablesFrom(disk, ib, k, m), FileTablesFrom(disk, ib, k, n), m)
    decreases 4 - k
  {
    hide LeavesOf, TablesOf, FileFrom, FileTablesFrom;
    if k < 4 {
      StageUnfold(disk, ib, k, m);
      StageUnfold(disk, ib, k, n);
      ForestTreePrefix(disk, Stage(ib, k), k, m, n);
      var a, a' := LeavesOf(disk, Stage(ib, k), k, m), LeavesOf(disk, Stage(ib, k), k, n);
      if m <= |a'| {
        FileEmpty(disk, ib, k + 1);
        PrefixCut(a, a', FileFrom(disk, ib, k + 1, n - |a'|), m);
      } else {
        assert a == a';
        FilePrefix(disk, ib, k + 1, m - |a|, n - |a|);
        PrefixCat(a, FileFrom(disk, ib, k + 1, m - |a|), FileFrom(disk, ib, k + 1, n - |a|), m);
      }
    } else {
      NoMoreStages(disk, ib, m);
      NoMoreStages(disk, ib, n);
    }
  }

  lemma PrefixCut(a: seq<nat>, a': seq<nat>, rest: seq<nat>, m: nat)
    requires m <= |a'| && a == a'[..Min(m, |a'|)]
    ensures |a| == m && a + [] == (a' + rest)[..Min(m, |a' + rest|)]
  {
  }

  lemma NoMoreStages(disk: seq<Block>, ib: BlockMap, n: nat)
    ensures FileFrom(disk, ib, 4, n) == [] && FileTablesFrom(disk, ib, 4, n) == []
  {
  }

  lemma {:induction false} FileEmpty(disk: seq<Block>, ib: BlockMap, r: nat)
    requires r <= 4
    ensures FileFrom(disk, ib, r, 0) == [] && FileTablesFrom(disk, ib, r, 0) == []
    decreases 4 - r
  {
    if r < 4 {
      hide LeavesOf, TablesOf, FileFrom, FileTablesFrom;
      StageUnfold(disk, ib, r, 0);
      ForestEmpty(disk, Stage(ib, r), r, 0);
      FileEmpty(disk, ib, r + 1);
    }
  }

  /** A sound file of `n` blocks is a sound file of its first `m` blocks. */
  lemma FileSoundPrefix(disk: seq<Block>, ib: BlockMap, m: nat, n: nat)
    requires m <= n && FileSound(disk, ib, n)
    ensures FileSound(disk, ib, m) && FileBlocks(disk, ib, m) == FileBlocks(disk, ib, n)[..m]
    ensures forall t :: t in FileTables(disk, ib, m) ==> t in FileTables(disk, ib, n)
  {
    hide FileFrom, FileTablesFrom;
    FilePrefix(disk, ib, 0, m, n);
    var bs := FileBlocks(disk, ib, n);
    assert forall b :: b in bs[..m] ==> b in bs;
  }

  // ----- what writing promises to later reads

  lemma {:induction false} FileFrame(disk: seq<Block>, disk': seq<Block>, ib: BlockMap, k: nat, n: nat)
    requires k <= 4 && AgreeOn(disk, disk', FileTablesFrom(disk, ib, k, n))
    ensures FileFrom(disk', ib, k, n) == FileFrom(disk, ib, k, n)
    ensures FileTablesFrom(disk', ib, k, n) == FileTablesFrom(disk, ib, k, n)
    decreases 4 - k
  {
    hide LeavesOf, TablesOf;
    if k < 4 {
      var here := LeavesOf(disk, Stage(ib, k), k, n);
      StageUnfold(disk, ib, k, n);
      StageUnfold(disk', ib, k, n);
      assert forall t :: t in TablesOf(disk, Stage(ib, k), k, n) ==> t in FileTablesFrom(disk, ib, k, n);
      ForestFrame(disk, disk', Stage(ib, k), k, n);
      FileFrame(disk, disk', ib, k + 1, n - |here|);
    }
  }

  lemma AfterWriteElsewhere(disk: seq<Block>, ib: BlockMap, skip: nat, count: nat, src: seq<Block>)
    requires FileOk(disk, ib, skip + count) && count <= |src|
    ensures forall b :: 0 <= b < |disk| && b !in FileBlocks(disk, ib, skip + count)[skip..] ==>
      AfterWrite(disk, ib, skip, count, src)[b] == disk[b]
  {
    hide FileBlocks, PutAll, FileOk, InRange, Reachable, FileFrom;
    var bs := FileBlocks(disk, ib, skip + count);
    assert bs == bs[..skip] + bs[skip..];
    InRangeCat(disk, bs[..skip], bs[skip..]);
    PutAllElsewhere(disk, bs[skip..], src);
  }

  lemma AfterWriteAgrees(disk: seq<Block>, ib: BlockMap, skip: nat, count: nat, src: seq<Block>, bs: seq<nat>)
    requires FileOk(disk, ib, skip + count) && count <= |src|
    requires Apart(bs, FileBlocks(disk, ib, skip + count))
    ensures AgreeOn(disk, AfterWrite(disk, ib, skip, count, src), bs)
  {
    hide FileBlocks, AfterWrite;
    AfterWriteElsewhere(disk, ib, skip, count, src);
    var own := FileBlocks(disk, ib, skip + count);
    assert forall b :: b in own[skip..] ==> b in own;
  }

  /** Writing leaves the file's own block list as it was. */
  lemma WriteKeepsBlocks(disk: seq<Block>, ib: BlockMap, skip: nat, count: nat, src: seq<Block>)
    requires FileSound(disk, ib, skip + count) && count <= |src|
    ensures FileBlocks(AfterWrite(disk, ib, skip, count, src), ib, skip + count) == FileBlocks(disk, ib, skip + count)
    ensures FileSound(AfterWrite(disk, ib, skip, count, src), ib, skip + count)
  {
    hide FileFrom, FileTablesFrom, AfterWrite;
    AfterWriteAgrees(disk, ib, skip, count, src, FileTables(disk, ib, skip + count));
    FileFrame(disk, AfterWrite(disk, ib, skip, count, src), ib, 0, skip + count);
  }

  /** Reading a range just written returns the data written. */
  lemma WriteThenRead(disk: seq<Block>, ib: BlockMap, skip: nat, count: nat, src: seq<Block>)
    requires FileSound(disk, ib, skip + count) && count <= |src|
    ensures FileOk(AfterWrite(disk, ib, skip, count, src), ib, skip + count)
    ensures FileData(AfterWrite(disk, ib, skip, count, src), ib, skip, count) == src[..count]
  {
    hide FileFrom, FileTablesFrom, PutAll;
    WriteKeepsBlocks(disk, ib, skip, count, src);
    var bs := FileBlocks(disk, ib, skip + count);
    var tail := bs[skip..];
    assert bs == bs[..skip] + tail;
    InRangeCat(disk, bs[..skip], tail);
    PutAllThenGather(disk, tail, src);
    var disk' := AfterWrite(disk, ib, skip, count, src);
    FileDataIsGather(disk', ib, skip, count);
  }

  lemma EarlierNotLater(bs: seq<nat>, skip: nat, k: nat)
    requires Distinct(bs) && k < skip <= |bs|
    ensures bs[k] in bs && bs[k] !in bs[skip..]
  {
    forall j | skip <= j < |bs|
      ensures bs[j] != bs[k]
    {
    }
  }

  /** Blocks of the file before the written range keep their contents. */
  lemma WriteKeepsEarlierBlocks(disk: seq<Block>, ib: BlockMap, skip: nat, count: nat, src: seq<Block>, k: nat)
    requires FileSound(disk, ib, skip + count) && count <= |src| && k < skip
    ensures var b := FileBlocks(disk, ib, skip + count)[k];
      b < |disk| && AfterWrite(disk, ib, skip, count, src)[b] == disk[b]
  {
    hide FileBlocks, AfterWrite, FileFrom, FileTablesFrom;
    EarlierNotLater(FileBlocks(disk, ib, skip + count), skip, k);
    AfterWriteElsewhere(disk, ib, skip, count, src);
  }

  lemma SameGather(disk: seq<Block>, disk': seq<Block>, bs: seq<nat>)
    requires InRange(disk, bs) && AgreeOn(disk, disk', bs)
    ensures InRange(disk', bs) && Gather(disk', bs) == Gather(disk, bs)
  {
    assert forall i :: 0 <= i < |bs| ==> bs[i] in bs;
  }

  /** The first `m` blocks of the file have the same contents on both disks. */
  ghost predicate ReadsAlike(disk: seq<Block>, disk': seq<Block>, ib: BlockMap, m: nat) {
    && FileOk(disk, ib, m) && FileOk(disk', ib, m)
    && Gather(disk', FileBlocks(disk', ib, m)) == Gather(disk, FileBlocks(disk, ib, m))
  }

  /** A file that shares no block with the written one reads as before. */
  lemma OtherFileUnchanged(disk: seq<Block>, ib: BlockMap, skip: nat, count: nat, src: seq<Block>,
                           other: BlockMap, m: nat)
    requires FileSound(disk, ib, skip + count) && count <= |src|
    requires FileOk(disk, other, m)
    requires Apart(FileTables(disk, other, m), FileBlocks(disk, ib, skip + count))
    requires Apart(FileBlocks(disk, other, m), FileBlocks(disk, ib, skip + count))
    ensures ReadsAlike(disk, AfterWrite(disk, ib, skip, count, src), other, m)
  {
    hide FileFrom, FileTablesFrom, AfterWrite;
    var disk' := AfterWrite(disk, ib, skip, count, src);
    AfterWriteAgrees(disk, ib, skip, count, src, FileTables(disk, other, m));
    AfterWriteAgrees(disk, ib, skip, count, src, FileBlocks(disk, other, m));
    FileFrame(disk, disk', other, 0, m);
    SameGather(disk, disk', FileBlocks(disk, other, m));
  }
}
