/** Two files whose tables hold junk behind the file's end: what the block-list loader makes of them. */
module Ext2JunkBehind {
  import opened Words
  import opened Ext2Volume
  import opened Ext2Tree
  import opened Ext2File
  import opened Ext2Grow
  import opened Ext2GrowFile
  import opened Ext2List
  import opened Ext2ListExact
  import opened Ext2Ownership
  import opened Ext2Read
  import opened Ext2Release
  import opened Ext2Runs

  /** Twenty-one blocks of two words: a full bitmap in block 1, tables in blocks 14, 17 and 18. */
  function SmallDisk(t14: Block, t17: Block, t18: Block): (disk: seq<Block>)
    ensures |disk| == 21 && disk[1] == [ALL_ONES, ALL_ONES] && disk[14] == t14 && disk[17] == t17 && disk[18] == t18
    ensures |t14| == |t17| == |t18| == 2 ==> Uniform(2, disk)
  {
    seq(21, b => if b == 1 then [ALL_ONES, ALL_ONES] else if b == 14 then t14 else if b == 17 then t17
                 else if b == 18 then t18 else [0, 0])
  }

  function FullVolume(disk: seq<Block>): Snapshot {
    Snapshot(2, 20, disk, [Group(1, 0)], 0)
  }

  lemma FullVolumeValid(disk: seq<Block>)
    requires |disk| == 21 && Uniform(2, disk) && disk[1] == [ALL_ONES, ALL_ONES]
    ensures FullVolume(disk).Valid() && FullVolume(disk).Free() == {}
    ensures forall b: nat :: FullVolume(disk).IsBitmap(b) <==> b == 1
  {
    hide Bit;
    var s := FullVolume(disk);
    assert s.Shape();
    FullWord(ALL_ONES);
    forall i: nat | i < 64
      ensures s.Used(0, i)
    {
      assert disk[1][i / 32] == ALL_ONES;
    }
    assert ZeroBits(s.Bitmap(0)) == {};
    assert SumFree(s.gd[1..]) == 0;
    assert s.gd[0].bitmap == 1;
  }

  /** A volume with one sound file on it. */
  lemma OneFile(disk: seq<Block>, ib: BlockMap, n: nat)
    requires |disk| == 21 && Uniform(2, disk) && disk[1] == [ALL_ONES, ALL_ONES]
    requires var bs, ts := FileBlocks(disk, ib, n), FileTables(disk, ib, n);
      && |bs| == n && Distinct(bs) && Apart(ts, bs) && InRange(disk, bs) && InRange(disk, ts) && 1 !in bs && 1 !in ts
    ensures Sane(System(FullVolume(disk), [File(ib, n)]))
  {
    hide Snapshot.Valid, Snapshot.Free, FileBlocks, FileTables;
    FullVolumeValid(disk);
    ShapeOf(FullVolume(disk));
    BlocksReachable(disk, ib, n);
  }

  // ----- a table with one entry more than the file

  function DirectSlots(): (r: seq<Word>)
    ensures |r| == 12 && Distinct(r) && forall b :: b in r ==> 2 <= b <= 13
  {
    [2, 3, 4, 5, 6, 7, 8, 9, 10, 11, 12, 13]
  }

  /** Direct slots with further blocks behind them are distinct blocks of the volume, and no tables. */
  lemma SlotsThen(disk: seq<Block>, xs: seq<nat>)
    requires |disk| == 21 && Distinct(xs) && forall x :: x in xs ==> x in {15, 16, 19, 20}
    ensures var bs := DirectSlots() + xs;
      Distinct(bs) && InRange(disk, bs) && 1 !in bs && 14 !in bs && 17 !in bs && 18 !in bs
  {
    hide DirectSlots;
    DistinctCat(DirectSlots(), xs);
  }

  function OverrunMap(): (ib: BlockMap)
    ensures ib[..DIRECT] == DirectSlots() && ib[12] == 14
  {
    DirectSlots() + [14, 0, 0]
  }

  function OverrunDisk(): seq<Block> {
    SmallDisk([15, 16], [0, 0], [0, 0])
  }

  lemma OverrunFile()
    ensures FileBlocks(OverrunDisk(), OverrunMap(), 13) == DirectSlots() + [15]
    ensures FileTables(OverrunDisk(), OverrunMap(), 13) == [14]
  {
    hide Leaves, Tables, LeavesOf, TablesOf, BlocksUpTo, TablesUpTo, FileFrom, FileTablesFrom, SmallDisk, Loaded,
      Loadable, Prefix, DirectSlots, OverrunMap, Distinct;
    var disk, ib := OverrunDisk(), OverrunMap();
    DirectPart(disk, ib, 13);
    IndirectTree(disk, 14, [15, 16], 1);
    EmptyTree(disk, ib[13]);
    TwoStages(disk, ib, 13, DirectSlots(), [15], [], [14], []);
  }

  lemma EmptyTree(disk: seq<Block>, b: nat)
    ensures Leaves(disk, b, 2, 0) == [] && Tables(disk, b, 2, 0) == []
  {
  }

  /** An indirect table as a tree. */
  lemma IndirectTree(disk: seq<Block>, b: nat, es: Block, n: nat)
    requires 0 < b < |disk| && disk[b] == es && n > 0
    ensures Leaves(disk, b, 1, n) == es[..Min(n, |es|)] && Tables(disk, b, 1, n) == [b]
    ensures Loaded(disk, b, 1) == Prefix(es) && Loadable(disk, b, 1)
  {
    hide LeavesOf, TablesOf, LoadedOf, LoadableOf;
    DirectLeaves(disk, es, n);
    LoadedOfZero(disk, Prefix(es));
    AllLeaves(disk, Prefix(es));
  }

  lemma {:induction false} AllLeaves(disk: seq<Block>, es: seq<Word>)
    ensures LoadableOf(disk, es, 0)
    decreases |es|
  {
    if es != [] {
      AllLeaves(disk, es[1..]);
    }
  }

  lemma DirectPart(disk: seq<Block>, ib: BlockMap, n: nat)
    requires n >= 12 && ib[..DIRECT] == DirectSlots()
    ensures ListUpTo(disk, ib, 1, n) == DirectSlots() && BlocksUpTo(disk, ib, 1, n) == DirectSlots()
    ensures TablesUpTo(disk, ib, 1, n) == [] && OpensUpTo(disk, ib, 1, n)
  {
    hide BlocksUpTo, TablesUpTo, DirectSlots;
    StageZero(disk, ib, n);
    assert forall i :: 0 <= i < 12 ==> ib[..DIRECT][i] in DirectSlots();
    DirectListAll(ib[..DIRECT], n);
    assert ib[..DIRECT][..12] == ib[..DIRECT];
  }

  lemma TwoEntries(a: Word, b: Word)
    ensures !Stops(a) && !Stops(b) ==> Prefix([a, b]) == [a, b]
  {
    assert [a, b][1..] == [b] && [b][1..] == [];
  }

  /** A file of 13 blocks whose indirect table has a second entry: with every table readable, 14 words are stored in
      a buffer of 13. */
  lemma StoresPastBuffer()
    ensures var disk, ib := OverrunDisk(), OverrunMap();
      && Sane(System(FullVolume(disk), [File(ib, 13)]))
      && OpensUpTo(disk, ib, 4, 13) && |WrittenUpTo(disk, ib, 4, 13)| == 14 && !ListFits(disk, ib, 4, 13)
  {
    hide Loaded, Loadable, Written, ListUpTo, OpensUpTo, WrittenUpTo, ListFits, Sane, SmallDisk, Prefix, FileBlocks,
      FileTables, DirectSlots, OverrunMap, Distinct;
    var disk, ib := OverrunDisk(), OverrunMap();
    OverrunFile();
    DistinctFew();
    SlotsThen(disk, [15]);
    OneFile(disk, ib, 13);
    DirectPart(disk, ib, 13);
    IndirectTree(disk, 14, [15, 16], 1);
    TwoEntries(15, 16);
    StopsAfterIndirect(disk, ib, 13);
    FitsIsOpens(disk, ib, 4, 13);
  }

  /** A list that is long enough after the indirect stage. */
  lemma StopsAfterIndirect(disk: seq<Block>, ib: BlockMap, n: nat)
    requires |ListUpTo(disk, ib, 1, n)| < n <= |ListUpTo(disk, ib, 1, n)| + |Loaded(disk, ib[12], 1)|
    requires Loadable(disk, ib[12], 1)
    ensures OpensUpTo(disk, ib, 4, n)
    ensures |ListUpTo(disk, ib, 4, n)| == |ListUpTo(disk, ib, 1, n)| + |Loaded(disk, ib[12], 1)|
    ensures WrittenUpTo(disk, ib, 4, n) == ListUpTo(disk, ib, 4, n)
  {
    hide Loaded, Loadable, Written, ListUpTo, OpensUpTo, WrittenUpTo;
    OpensAtFirst(disk, ib, n);
    WrittenIsLoaded(disk, ib[12], 1);
    StageList(disk, ib, 1, n);
    StageList(disk, ib, 2, n);
    StageList(disk, ib, 3, n);
    StoredIsList(disk, ib, 4, n);
  }

  lemma OpensAtFirst(disk: seq<Block>, ib: BlockMap, n: nat)
    ensures OpensUpTo(disk, ib, 1, n)
  {
  }

  // ----- a double indirect table with an entry that is no block of the volume

  function UnreadableMap(): (ib: BlockMap)
    ensures ib[..DIRECT] == DirectSlots() && ib[12] == 14 && ib[13] == 17
  {
    DirectSlots() + [14, 17, 0]
  }

  function UnreadableDisk(): seq<Block> {
    SmallDisk([15, 16], [18, 999], [19, 20])
  }

  lemma DoubleTree(disk: seq<Block>)
    requires disk == UnreadableDisk()
    ensures Leaves(disk, 17, 2, 2) == [19, 20] && Tables(disk, 17, 2, 2) == [17, 18]
    ensures Loaded(disk, 17, 2) == [19, 20] && !Loadable(disk, 17, 2) && Written(disk, 17, 2) == [19, 20]
  {
    hide Leaves, Tables, Loaded, Loadable, LoadableOf, Written, SmallDisk;
    IndirectTree(disk, 18, [19, 20], 2);
    TwoEntries(19, 20);
    TwoEntries(18, 999);
    WrittenIsLoaded(disk, 18, 1);
    TreeUnfold(disk, 17, 2, 2);
    assert [18, 999][1..] == [999];
    ForestCons(disk, [18, 999], 1, 2);
    ForestEmpty(disk, [999], 1, 0);
    LoadedTree(disk, 17, 2);
    LoadedCons(disk, 18, [999], 1);
    Unreadable(disk, 999);
    LoadedOfOne(disk, 999, 1);
    TableOutcome(disk, 17, [18, 999]);
  }

  lemma Unreadable(disk: seq<Block>, b: nat)
    requires |disk| <= b
    ensures Loaded(disk, b, 1) == [] && Written(disk, b, 1) == [] && (b > 0 ==> !Loadable(disk, b, 1))
  {
    assert Prefix([]) == [];
  }

  lemma LoadedOfOne(disk: seq<Block>, x: Word, d: nat)
    ensures LoadedOf(disk, [x], d) == Loaded(disk, x, d)
  {
    hide Loaded;
    assert LoadedOf(disk, [x][1..], d) == [];
  }

  lemma TableOutcome(disk: seq<Block>, b: nat, es: Block)
    requires 0 < b < |disk| && disk[b] == es && |es| == 2 && Prefix(es) == es
    requires Loadable(disk, es[0], 1) && !Loadable(disk, es[1], 1)
    ensures !Loadable(disk, b, 2) && Written(disk, b, 2) == Written(disk, es[0], 1) + Written(disk, es[1], 1)
  {
    assert es == [es[0]] + [es[1]];
    LoadableOfCat(disk, [es[0]], [es[1]], 1);
    WrittenOfCat(disk, [es[0]], [es[1]], 1);
    WrittenOfOne(disk, es[0], 1);
    WrittenOfOne(disk, es[1], 1);
    hide LoadableOf, WrittenOf, Prefix;
  }

  lemma DistinctFew()
    ensures Distinct([15, 16] + [19, 20]) && Distinct([15])
  {
  }

  lemma UnreadableFile()
    ensures FileBlocks(UnreadableDisk(), UnreadableMap(), 16) == DirectSlots() + [15, 16] + [19, 20]
    ensures FileTables(UnreadableDisk(), UnreadableMap(), 16) == [14, 17, 18]
  {
    hide Leaves, Tables, LeavesOf, TablesOf, BlocksUpTo, TablesUpTo, FileFrom, FileTablesFrom, SmallDisk, Loaded, Loadable,
      Written, DirectSlots, UnreadableMap, Distinct;
    var disk, ib := UnreadableDisk(), UnreadableMap();
    DirectPart(disk, ib, 16);
    IndirectTree(disk, 14, [15, 16], 4);
    DoubleTree(disk);
    TwoStages(disk, ib, 16, DirectSlots(), [15, 16], [19, 20], [14], [17, 18]);
    assert [14] + [17, 18] == [14, 17, 18];
  }

  /** A file that ends in its double indirect tree. */
  lemma TwoStages(disk: seq<Block>, ib: BlockMap, n: nat, direct: seq<nat>, one: seq<nat>, two: seq<nat>,
                  ts1: seq<nat>, ts2: seq<nat>)
    requires n == |direct| + |one| + |two|
    requires BlocksUpTo(disk, ib, 1, n) == direct && TablesUpTo(disk, ib, 1, n) == []
    requires var m := n - |direct|; Leaves(disk, ib[12], 1, m) == one && Tables(disk, ib[12], 1, m) == ts1
    requires Leaves(disk, ib[13], 2, |two|) == two && Tables(disk, ib[13], 2, |two|) == ts2
    ensures FileBlocks(disk, ib, n) == direct + one + two && FileTables(disk, ib, n) == ts1 + ts2
  {
    hide Leaves, Tables, LeavesOf, TablesOf, BlocksUpTo, TablesUpTo, FileFrom, FileTablesFrom;
    UpToUnfold(disk, ib, 1, n);
    UpToUnfold(disk, ib, 2, n);
    assert Stage(ib, 1) == [ib[12]] && Stage(ib, 2) == [ib[13]];
    ForestOne(disk, ib[12], 1, n - |direct|);
    ForestOne(disk, ib[13], 2, |two|);
    SplitAtStage(disk, ib, 3, n);
    FileEmpty(disk, ib, 3);
  }

  /** A file of 16 blocks whose list has 16 blocks, and still it cannot be deleted: behind the file's end the loader
      opens a table that is no block of the volume. */
  lemma RightLengthUnreadable()
    ensures var disk, ib := UnreadableDisk(), UnreadableMap();
      && Sane(System(FullVolume(disk), [File(ib, 16)]))
      && ListUpTo(disk, ib, 4, 16) == FileBlocks(disk, ib, 16) && |ListUpTo(disk, ib, 4, 16)| == 16
      && !OpensUpTo(disk, ib, 4, 16) && !Deletable(FullVolume(disk), ib, 16)
  {
    hide Loaded, Loadable, Written, ListUpTo, OpensUpTo, WrittenUpTo, Sane, FileBlocks, FileTables, SmallDisk,
      Prefix, DirectSlots, UnreadableMap, Distinct;
    var disk, ib := UnreadableDisk(), UnreadableMap();
    UnreadableFile();
    DistinctFew();
    SlotsThen(disk, [15, 16] + [19, 20]);
    assert DirectSlots() + [15, 16] + [19, 20] == DirectSlots() + ([15, 16] + [19, 20]);
    OneFile(disk, ib, 16);
    DirectPart(disk, ib, 16);
    IndirectTree(disk, 14, [15, 16], 2);
    TwoEntries(15, 16);
    DoubleTree(disk);
    StopsInDouble(disk, ib, 16);
  }

  /** A list that has its length after the double indirect stage, where a table could not be read. */
  lemma StopsInDouble(disk: seq<Block>, ib: BlockMap, n: nat)
    requires var a := |ListUpTo(disk, ib, 1, n)|;
      a + |Loaded(disk, ib[12], 1)| < n == a + |Loaded(disk, ib[12], 1)| + |Loaded(disk, ib[13], 2)|
    requires Loadable(disk, ib[12], 1) && !Loadable(disk, ib[13], 2)
    ensures !OpensUpTo(disk, ib, 4, n)
    ensures ListUpTo(disk, ib, 4, n) == ListUpTo(disk, ib, 1, n) + Loaded(disk, ib[12], 1) + Loaded(disk, ib[13], 2)
  {
    hide Loaded, Loadable, Written, ListUpTo, OpensUpTo, WrittenUpTo;
    OpensAtFirst(disk, ib, n);
    WrittenIsLoaded(disk, ib[12], 1);
    StageList(disk, ib, 1, n);
    StageList(disk, ib, 2, n);
    ListUnfold(disk, ib, 2, n);
    ListUnfold(disk, ib, 3, n);
    StoppedAt(disk, ib, 3, n);
  }
}
