/** Several files on one volume: who owns which block, over every run of growing, writing and deleting. */
module Ext2Ownership {
  import opened Ext2Volume
  import opened Ext2Tree
  import opened Ext2Write
  import opened Ext2File
  import opened Ext2Grow
  import opened Ext2GrowFile
  import opened Ext2Release

  datatype File = File(ib: BlockMap, n: nat)

  /** Tables and data blocks of a file. */
  ghost function Owned(disk: seq<Block>, f: File): set<nat> {
    Members(FileTables(disk, f.ib, f.n), FileBlocks(disk, f.ib, f.n))
  }

  ghost predicate InUse(s: Snapshot, bs: set<nat>)
    requires s.Shape()
  {
    forall b :: b in bs ==> 0 < b < |s.disk| && b !in s.Free() && !s.IsBitmap(b)
  }

  ghost predicate Alone(disk: seq<Block>, f: File, g: File) {
    Owned(disk, f) !! Owned(disk, g)
  }

  /** The files are sound, own used blocks only, and no block has two owners. */
  ghost predicate Consistent(s: Snapshot, files: seq<File>) {
    && s.Valid()
    && (forall i :: 0 <= i < |files| ==> FileSound(s.disk, files[i].ib, files[i].n))
    && (forall i :: 0 <= i < |files| ==> InUse(s, Owned(s.disk, files[i])))
    && (forall i, j :: 0 <= i < j < |files| ==> Alone(s.disk, files[i], files[j]))
  }

  /** Same tables, same data blocks, same contents. */
  ghost predicate Untouched(disk: seq<Block>, disk': seq<Block>, f: File) {
    && FileBlocks(disk', f.ib, f.n) == FileBlocks(disk, f.ib, f.n)
    && FileTables(disk', f.ib, f.n) == FileTables(disk, f.ib, f.n)
    && ReadsAlike(disk, disk', f.ib, f.n)
  }

  lemma UntouchedSound(disk: seq<Block>, disk': seq<Block>, f: File)
    requires Untouched(disk, disk', f) && FileSound(disk, f.ib, f.n)
    ensures FileSound(disk', f.ib, f.n) && Owned(disk', f) == Owned(disk, f)
  {
    hide FileBlocks, FileTables, FileOk;
  }

  /** A file none of whose blocks is written is untouched. */
  lemma NoBlockWritten(disk: seq<Block>, disk': seq<Block>, f: File)
    requires FileOk(disk, f.ib, f.n) && |disk'| == |disk|
    requires forall b :: b in Owned(disk, f) && b < |disk| ==> disk'[b] == disk[b]
    ensures Untouched(disk, disk', f)
  {
    hide FileFrom, FileTablesFrom;
    var ts, bs := FileTables(disk, f.ib, f.n), FileBlocks(disk, f.ib, f.n);
    TablesAreMembers(ts, bs);
    assert forall b :: b in ts ==> b in SetOf(ts);
    assert forall b :: b in bs ==> b in SetOf(bs);
    FileFrame(disk, disk', f.ib, 0, f.n);
    SameGather(disk, disk', bs);
  }

  /** Allocation of any kind leaves a file with used blocks untouched. */
  lemma GrownLeaves(s: Snapshot, t: Snapshot, taken: set<nat>, f: File)
    requires Grown(s, t, taken) && FileSound(s.disk, f.ib, f.n)
    requires s.Shape() && InUse(s, Owned(s.disk, f))
    ensures Untouched(s.disk, t.disk, f) && FileSound(t.disk, f.ib, f.n)
    ensures Owned(t.disk, f) == Owned(s.disk, f) && Owned(s.disk, f) !! taken
    ensures t.Shape() && InUse(t, Owned(t.disk, f))
  {
    hide FileSound, Owned, Untouched, Snapshot.Valid, Snapshot.Free;
    SameWords(s, t, taken);
    forall b | b in Owned(s.disk, f)
      ensures 0 < b < |s.disk| && t.disk[b] == s.disk[b] && b !in taken && !t.IsBitmap(b) && b !in t.Free()
    {
      SameBitmaps(s, t, b);
    }
    NoBlockWritten(s.disk, t.disk, f);
    UntouchedSound(s.disk, t.disk, f);
  }

  /** Growing a file of `k` direct blocks keeps the volume consistent and touches no other file. */
  lemma GrowKeepsConsistent(s: Snapshot, t: Snapshot, files: seq<File>, i: nat, ib: BlockMap, n: nat)
    requires Consistent(s, files) && i < |files| && files[i].n <= DIRECT
    requires FileOutcome(s, t, files[i].ib[..files[i].n], ib, n, 0)
    ensures Consistent(t, files[i := File(ib, files[i].n + n)])
    ensures forall j :: 0 <= j < |files| && j != i ==> Untouched(s.disk, t.disk, files[j])
    ensures files[i].ib[..files[i].n] <= FileBlocks(t.disk, ib, files[i].n + n)
  {
    hide FileOk, FileSound, FileBlocks, FileTables, Untouched, InUse, Grown, Owned, FileNeed, FileRoom, Alone,
      Snapshot.Valid, Snapshot.Free;
    var f, g := files[i], File(ib, files[i].n + n);
    SuccessGrown(s, t, f.ib[..f.n], ib, n);
    var bs, ts := FileBlocks(t.disk, ib, g.n), FileTables(t.disk, ib, g.n);
    var taken := Members(ts, bs[f.n..]);
    GrownValid(s, t, taken);
    ShapeOf(s);
    forall j | 0 <= j < |files|
      ensures Untouched(s.disk, t.disk, files[j]) && FileSound(t.disk, files[j].ib, files[j].n)
      ensures Owned(t.disk, files[j]) == Owned(s.disk, files[j]) && Owned(s.disk, files[j]) !! taken
      ensures t.Shape() && InUse(t, Owned(t.disk, files[j]))
    {
      GrownLeaves(s, t, taken, files[j]);
    }
    GrownOwner(s, t, f, g);
    var files' := files[i := g];
    forall j, k | 0 <= j < k < |files'|
      ensures Alone(t.disk, files'[j], files'[k])
    {
      assert Alone(s.disk, files[j], files[k]);
      StaysAlone(s.disk, t.disk, files[j], files[k], f, g, taken, j == i, k == i);
    }
  }

  /** Blocks taken for nobody: the volume stays consistent and no file is touched. */
  lemma TakingKeepsConsistent(s: Snapshot, t: Snapshot, files: seq<File>, taken: set<nat>)
    requires Consistent(s, files) && Grown(s, t, taken)
    ensures Consistent(t, files)
    ensures forall j :: 0 <= j < |files| ==> Untouched(s.disk, t.disk, files[j])
  {
    hide FileOk, FileSound, FileBlocks, FileTables, Untouched, InUse, Grown, Owned, Alone, Snapshot.Valid, Snapshot.Free;
    GrownValid(s, t, taken);
    ShapeOf(s);
    forall j | 0 <= j < |files|
      ensures Untouched(s.disk, t.disk, files[j]) && FileSound(t.disk, files[j].ib, files[j].n)
      ensures Owned(t.disk, files[j]) == Owned(s.disk, files[j]) && t.Shape() && InUse(t, Owned(t.disk, files[j]))
    {
      GrownLeaves(s, t, taken, files[j]);
    }
    forall j, k | 0 <= j < k < |files|
      ensures Alone(t.disk, files[j], files[k])
    {
      assert Alone(s.disk, files[j], files[k]);
      StaysAlone(s.disk, t.disk, files[j], files[k], files[j], files[j], {}, false, false);
    }
  }

  /** The blocks a failed growth took, whether the volume or the tree ran out. */
  lemma FailedGrown(s: Snapshot, t: Snapshot, old_: seq<nat>, ib: BlockMap, n: nat) returns (taken: set<nat>)
    requires s.Valid() && FileOutcome(s, t, old_, ib, n, 1)
    ensures Grown(s, t, taken)
  {
    hide FileNeed, FileRoom, Grown, FileBlocks, FileTables, Snapshot.Valid, Snapshot.Free;
    ShapeOf(s);
    var bs, ts := FileBlocks(t.disk, ib, |old_| + n), FileTables(t.disk, ib, |old_| + n);
    if |s.Free()| < FileNeed(s.words, |old_|, n) {
      taken := s.Free();
    } else {
      taken := Members(ts, bs[|old_|..]);
    }
  }

  /** A failed growth loses the blocks it took and touches no file, the one it was for included. */
  lemma FailedGrowKeepsConsistent(s: Snapshot, t: Snapshot, files: seq<File>, i: nat, ib: BlockMap, n: nat)
    requires Consistent(s, files) && i < |files| && files[i].n <= DIRECT
    requires FileOutcome(s, t, files[i].ib[..files[i].n], ib, n, 1)
    ensures Consistent(t, files)
    ensures forall j :: 0 <= j < |files| ==> Untouched(s.disk, t.disk, files[j])
  {
    hide FileOutcome, Untouched, Grown, FileSound, Owned, Alone, Snapshot.Valid;
    var taken := FailedGrown(s, t, files[i].ib[..files[i].n], ib, n);
    TakingKeepsConsistent(s, t, files, taken);
  }

  lemma StaysAlone(disk: seq<Block>, disk': seq<Block>, a: File, b: File, f: File, g: File, taken: set<nat>,
                   first: bool, second: bool)
    requires Alone(disk, a, b) && !(first && second) && (first ==> a == f) && (second ==> b == f)
    requires Owned(disk', a) == Owned(disk, a) && Owned(disk', b) == Owned(disk, b)
    requires Owned(disk, a) !! taken && Owned(disk, b) !! taken
    requires Owned(disk', g) <= Owned(disk, f) + taken
    ensures Alone(disk', if first then g else a, if second then g else b)
  {
    hide Owned;
  }

  /** The grown file itself: sound, and it owns its old blocks and exactly the blocks taken. */
  lemma GrownOwner(s: Snapshot, t: Snapshot, f: File, g: File)
    requires s.Valid() && f.n <= DIRECT && FileSound(s.disk, f.ib, f.n) && InUse(s, Owned(s.disk, f))
    requires var bs, ts := FileBlocks(t.disk, g.ib, g.n), FileTables(t.disk, g.ib, g.n);
      |bs| == g.n && Extended(s, t, f.ib[..f.n], ts, bs)
    ensures var bs, ts := FileBlocks(t.disk, g.ib, g.n), FileTables(t.disk, g.ib, g.n);
      Owned(t.disk, g) <= Owned(s.disk, f) + Members(ts, bs[f.n..])
    ensures FileSound(t.disk, g.ib, g.n) && t.Shape() && InUse(t, Owned(t.disk, g))
  {
    hide FileBlocks, FileTables, FileFrom, FileTablesFrom, Reachable, Grown, Snapshot.Valid, Snapshot.Free;
    var bs, ts := FileBlocks(t.disk, g.ib, g.n), FileTables(t.disk, g.ib, g.n);
    var old_, new_ := f.ib[..f.n], bs[f.n..];
    var taken := Members(ts, new_);
    SmallTables(s.disk, f.ib, f.n);
    assert Members([], old_) == SetOf(old_);
    SameWords(s, t, taken);
    GrownValid(s, t, taken);
    assert bs == old_ + new_;
    SetOfCat(old_, new_);
    forall b | b in SetOf(old_)
      ensures b !in taken && 0 < b < |t.disk| && b !in t.Free() && !t.IsBitmap(b)
    {
      SameBitmaps(s, t, b);
    }
    forall b | b in taken
      ensures 0 < b < |t.disk| && b !in t.Free() && !t.IsBitmap(b)
    {
      NotBitmap(s, b);
      SameBitmaps(s, t, b);
    }
    FamilySplit(old_, new_, ts);
    MembersInRange(t.disk, ts, bs);
    BlocksReachable(t.disk, g.ib, g.n);
  }

  lemma FamilySplit(old_: seq<nat>, new_: seq<nat>, ts: seq<nat>)
    requires Distinct(old_) && Family(ts, new_) && SetOf(old_) !! Members(ts, new_)
    ensures Family(ts, old_ + new_)
  {
    SetOfCat(old_, new_);
    DistinctCat(old_, new_);
    forall x | x in ts
      ensures x !in old_ + new_
    {
      assert x in SetOf(ts);
      assert x in old_ ==> x in SetOf(old_);
    }
  }

  lemma MembersInRange(disk: seq<Block>, ts: seq<nat>, bs: seq<nat>)
    requires forall b :: b in Members(ts, bs) ==> 0 < b < |disk|
    ensures InRange(disk, ts) && InRange(disk, bs)
  {
    assert forall b :: b in ts ==> b in Members(ts, bs);
    assert forall b :: b in bs ==> b in Members(ts, bs);
  }

  /** Writing a range of one file keeps the volume consistent, touches no other file and is what a read returns. */
  lemma WriteKeepsConsistent(s: Snapshot, files: seq<File>, i: nat, skip: nat, count: nat, src: seq<Block>)
    requires Consistent(s, files) && i < |files| && skip + count <= files[i].n && count <= |src|
    requires Uniform(s.words, src)
    ensures FileSound(s.disk, files[i].ib, skip + count)
    ensures var t := s.(disk := AfterWrite(s.disk, files[i].ib, skip, count, src));
      && Consistent(t, files)
      && (forall j :: 0 <= j < |files| && j != i ==> Untouched(s.disk, t.disk, files[j]))
      && FileOk(t.disk, files[i].ib, skip + count)
      && FileData(t.disk, files[i].ib, skip, count) == src[..count]
  {
    hide FileOk, FileSound, FileBlocks, FileTables, Untouched, Grown, Owned, Alone, AfterWrite,
      Snapshot.Valid, Snapshot.Free, FileData;
    var f := files[i];
    FileSoundPrefix(s.disk, f.ib, skip + count, f.n);
    var t := s.(disk := AfterWrite(s.disk, f.ib, skip, count, src));
    WriteThenRead(s.disk, f.ib, skip, count, src);
    WriteOwned(s, f, skip, count, src);
    forall j | 0 <= j < |files|
      ensures FileSound(t.disk, files[j].ib, files[j].n) && Owned(t.disk, files[j]) == Owned(s.disk, files[j])
      ensures j != i ==> Untouched(s.disk, t.disk, files[j])
    {
      if j != i {
        assert Alone(s.disk, files[j], f) || Alone(s.disk, f, files[j]);
        AloneFromWrite(s.disk, files[j], f, skip, count, src);
        UntouchedSound(s.disk, t.disk, files[j]);
      }
    }
    forall j, k | 0 <= j < k < |files|
      ensures Alone(t.disk, files[j], files[k])
    {
      assert Alone(s.disk, files[j], files[k]);
      StaysAlone(s.disk, t.disk, files[j], files[k], files[j], files[j], {}, false, false);
    }
    SameUse(s, t, files);
  }

  lemma SameUse(s: Snapshot, t: Snapshot, files: seq<File>)
    requires s.Valid() && t.Valid() && t.SameLayout(s) && t.Free() == s.Free()
    requires forall j :: 0 <= j < |files| ==> Owned(t.disk, files[j]) == Owned(s.disk, files[j])
    requires forall j :: 0 <= j < |files| ==> InUse(s, Owned(s.disk, files[j]))
    ensures forall j :: 0 <= j < |files| ==> InUse(t, Owned(t.disk, files[j]))
  {
    hide Owned, Snapshot.Valid, Snapshot.Free, Snapshot.SameLayout;
    ShapeOf(s);
    ShapeOf(t);
    forall j, b | 0 <= j < |files| && b in Owned(t.disk, files[j])
      ensures 0 < b < |t.disk| && b !in t.Free() && !t.IsBitmap(b)
    {
      assert b in Owned(s.disk, files[j]);
      LayoutFacts(s, t, b);
    }
  }

  /** The written volume is valid, and the writer is still sound and owns the same blocks. */
  lemma WriteOwned(s: Snapshot, f: File, skip: nat, count: nat, src: seq<Block>)
    requires s.Valid() && FileSound(s.disk, f.ib, f.n) && InUse(s, Owned(s.disk, f))
    requires skip + count <= f.n && count <= |src| && Uniform(s.words, src) && FileSound(s.disk, f.ib, skip + count)
    ensures var t := s.(disk := AfterWrite(s.disk, f.ib, skip, count, src));
      && t.Valid() && t.SameLayout(s) && t.Free() == s.Free()
      && FileSound(t.disk, f.ib, f.n) && Owned(t.disk, f) == Owned(s.disk, f)
  {
    hide FileOk, FileBlocks, FileTables, PutAll, Snapshot.Valid, Snapshot.Free, AfterWrite;
    FileSoundPrefix(s.disk, f.ib, skip + count, f.n);
    var all, bs := FileBlocks(s.disk, f.ib, f.n), FileBlocks(s.disk, f.ib, skip + count);
    assert forall b :: b in bs ==> b in all && b in SetOf(all);
    AfterWriteValid(s, f.ib, skip, count, src);
    WriteKeepsTables(s.disk, f.ib, skip, count, src, f.n);
  }

  lemma AfterWriteValid(s: Snapshot, ib: BlockMap, skip: nat, count: nat, src: seq<Block>)
    requires s.Valid() && FileOk(s.disk, ib, skip + count) && count <= |src| && Uniform(s.words, src)
    requires forall b :: b in FileBlocks(s.disk, ib, skip + count) ==> !s.IsBitmap(b)
    ensures var t := s.(disk := AfterWrite(s.disk, ib, skip, count, src));
      t.Valid() && t.SameLayout(s) && t.Free() == s.Free()
  {
    hide FileOk, FileBlocks, PutAll, Snapshot.Valid, Snapshot.Free;
    var bs := FileBlocks(s.disk, ib, skip + count);
    assert bs == bs[..skip] + bs[skip..];
    InRangeCat(s.disk, bs[..skip], bs[skip..]);
    PutAllValid(s, bs[skip..], src);
  }

  /** The tables of the whole file are not written, wherever the written range ends. */
  lemma WriteKeepsTables(disk: seq<Block>, ib: BlockMap, skip: nat, count: nat, src: seq<Block>, n: nat)
    requires skip + count <= n && count <= |src|
    requires FileSound(disk, ib, n) && FileSound(disk, ib, skip + count)
    ensures FileBlocks(AfterWrite(disk, ib, skip, count, src), ib, n) == FileBlocks(disk, ib, n)
    ensures FileTables(AfterWrite(disk, ib, skip, count, src), ib, n) == FileTables(disk, ib, n)
    ensures FileSound(AfterWrite(disk, ib, skip, count, src), ib, n)
  {
    hide FileFrom, FileTablesFrom, AfterWrite;
    FileSoundPrefix(disk, ib, skip + count, n);
    var own := FileBlocks(disk, ib, n);
    assert forall b :: b in own[..skip + count] ==> b in own;
    AfterWriteAgrees(disk, ib, skip, count, src, FileTables(disk, ib, n));
    FileFrame(disk, AfterWrite(disk, ib, skip, count, src), ib, 0, n);
  }

  lemma {:induction false} PutAllValid(s: Snapshot, bs: seq<nat>, src: seq<Block>)
    requires s.Valid() && InRange(s.disk, bs) && |bs| <= |src| && Uniform(s.words, src)
    requires forall b :: b in bs ==> !s.IsBitmap(b)
    ensures var t := s.(disk := PutAll(s.disk, bs, src));
      t.Valid() && t.SameLayout(s) && t.Free() == s.Free()
    decreases |bs|
  {
    hide Snapshot.Valid, Snapshot.Free;
    if bs != [] {
      var k := |bs| - 1;
      assert bs == bs[..k] + bs[k..];
      InRangeCat(s.disk, bs[..k], bs[k..]);
      PutAllValid(s, bs[..k], src);
      var t := s.(disk := PutAll(s.disk, bs[..k], src));
      assert bs[k] in bs;
      SameBitmaps(s, t, bs[k]);
      PutKeepsValid(t, bs[k], src[k]);
    }
  }

  lemma AloneFromWrite(disk: seq<Block>, other: File, f: File, skip: nat, count: nat, src: seq<Block>)
    requires FileSound(disk, other.ib, other.n) && FileSound(disk, f.ib, f.n) && FileSound(disk, f.ib, skip + count)
    requires Alone(disk, other, f) || Alone(disk, f, other)
    requires skip + count <= f.n && count <= |src|
    ensures Untouched(disk, AfterWrite(disk, f.ib, skip, count, src), other)
  {
    hide FileOk, FileBlocks, FileTables, AfterWrite;
    FileSoundPrefix(disk, f.ib, skip + count, f.n);
    AfterWriteElsewhere(disk, f.ib, skip, count, src);
    var all, bs := FileBlocks(disk, f.ib, f.n), FileBlocks(disk, f.ib, skip + count);
    assert forall b :: b in bs[skip..] ==> b in bs && b in all && b in SetOf(all);
    NoBlockWritten(disk, AfterWrite(disk, f.ib, skip, count, src), other);
  }

  /** Deleting a file keeps the volume consistent for the others and touches none of them. */
  lemma DeleteKeepsConsistent(s: Snapshot, t: Snapshot, files: seq<File>, i: nat)
    requires Consistent(s, files) && i < |files|
    requires Released(s, t, SetOf(FileBlocks(s.disk, files[i].ib, files[i].n)))
    ensures Consistent(t, files[..i] + files[i + 1..])
    ensures forall j :: 0 <= j < |files| && j != i ==> Untouched(s.disk, t.disk, files[j])
  {
    hide FileOk, FileSound, FileBlocks, FileTables, Untouched, Alone, Owned, Snapshot.Valid, Snapshot.Free;
    var f := files[i];
    ShapeOf(s);
    ShapeOf(t);
    forall j | 0 <= j < |files| && j != i
      ensures Untouched(s.disk, t.disk, files[j]) && FileSound(t.disk, files[j].ib, files[j].n)
      ensures Owned(t.disk, files[j]) == Owned(s.disk, files[j]) && InUse(t, Owned(t.disk, files[j]))
    {
      assert Alone(s.disk, files[j], f) || Alone(s.disk, f, files[j]);
      OthersKept(s, t, files[j], f);
    }
    var rest := files[..i] + files[i + 1..];
    forall j, k | 0 <= j < k < |rest|
      ensures Alone(t.disk, rest[j], rest[k])
    {
      var j', k' := if j < i then j else j + 1, if k < i then k else k + 1;
      assert Alone(s.disk, files[j'], files[k']);
      StaysAlone(s.disk, t.disk, files[j'], files[k'], files[j'], files[j'], {}, false, false);
    }
  }

  lemma OthersKept(s: Snapshot, t: Snapshot, other: File, f: File)
    requires Released(s, t, SetOf(FileBlocks(s.disk, f.ib, f.n)))
    requires FileSound(s.disk, other.ib, other.n) && InUse(s, Owned(s.disk, other))
    requires Alone(s.disk, other, f) || Alone(s.disk, f, other)
    ensures Untouched(s.disk, t.disk, other) && FileSound(t.disk, other.ib, other.n)
    ensures Owned(t.disk, other) == Owned(s.disk, other) && InUse(t, Owned(t.disk, other))
  {
    hide FileOk, FileSound, FileBlocks, FileTables, Untouched, Snapshot.Valid, Snapshot.Free;
    TablesAreMembers(FileTables(s.disk, f.ib, f.n), FileBlocks(s.disk, f.ib, f.n));
    ReleasedFree(s, t, SetOf(FileBlocks(s.disk, f.ib, f.n)));
    forall b | b in Owned(s.disk, other)
      ensures 0 < b < |s.disk| && t.disk[b] == s.disk[b] && b !in t.Free() && !t.IsBitmap(b)
    {
      LayoutFacts(s, t, b);
    }
    NoBlockWritten(s.disk, t.disk, other);
    UntouchedSound(s.disk, t.disk, other);
  }
}
