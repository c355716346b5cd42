/** Growing a file of at most twelve direct blocks: ext2_allocate_blocks. */
module Ext2GrowFile {
  import opened Words
  import opened Ext2Volume
  import opened Ext2Tree
  import opened Ext2Alloc
  import opened Ext2Read
  import opened Ext2File
  import opened Ext2Grow

  // ----- the stages already in place

  /** Data blocks of the stages before `r`, for a file of `n` blocks. */
  ghost function BlocksUpTo(disk: seq<Block>, ib: BlockMap, r: nat, n: nat): (bs: seq<nat>)
    requires r <= 4
    ensures |bs| <= n
  {
    if r == 0 then [] else
      var before := BlocksUpTo(disk, ib, r - 1, n);
      before + LeavesOf(disk, Stage(ib, r - 1), r - 1, n - |before|)
  }

  ghost function TablesUpTo(disk: seq<Block>, ib: BlockMap, r: nat, n: nat): seq<nat>
    requires r <= 4
  {
    if r == 0 then [] else
      var before := TablesUpTo(disk, ib, r - 1, n);
      before + TablesOf(disk, Stage(ib, r - 1), r - 1, n - |BlocksUpTo(disk, ib, r - 1, n)|)
  }

  lemma UpToUnfold(disk: seq<Block>, ib: BlockMap, r: nat, n: nat)
    requires r <= 3
    ensures var before := BlocksUpTo(disk, ib, r, n);
      && BlocksUpTo(disk, ib, r + 1, n) == before + LeavesOf(disk, Stage(ib, r), r, n - |before|)
      && TablesUpTo(disk, ib, r + 1, n) == TablesUpTo(disk, ib, r, n) + TablesOf(disk, Stage(ib, r), r, n - |before|)
  {
    hide LeavesOf, TablesOf;
  }

  lemma UpToNothing(disk: seq<Block>, ib: BlockMap, n: nat)
    ensures BlocksUpTo(disk, ib, 0, n) == [] && TablesUpTo(disk, ib, 0, n) == []
  {
  }

  /** Stages before `r` followed by the stages from `r` on make the whole file. */
  lemma {:induction false} SplitAtStage(disk: seq<Block>, ib: BlockMap, r: nat, n: nat)
    requires r <= 4
    ensures var before := BlocksUpTo(disk, ib, r, n);
      && FileBlocks(disk, ib, n) == before + FileFrom(disk, ib, r, n - |before|)
      && FileTables(disk, ib, n) == TablesUpTo(disk, ib, r, n) + FileTablesFrom(disk, ib, r, n - |before|)
  {
    hide LeavesOf, TablesOf, FileFrom, FileTablesFrom, BlocksUpTo, TablesUpTo;
    if r == 0 {
      UpToNothing(disk, ib, n);
    } else {
      SplitAtStage(disk, ib, r - 1, n);
      UpToUnfold(disk, ib, r - 1, n);
      var before := BlocksUpTo(disk, ib, r - 1, n);
      var m := n - |before|;
      StageUnfold(disk, ib, r - 1, m);
      var here := LeavesOf(disk, Stage(ib, r - 1), r - 1, m);
      Reassociate(FileBlocks(disk, ib, n), before, here, FileFrom(disk, ib, r, m - |here|));
      Reassociate(FileTables(disk, ib, n), TablesUpTo(disk, ib, r - 1, n),
        TablesOf(disk, Stage(ib, r - 1), r - 1, m), FileTablesFrom(disk, ib, r, m - |here|));
    }
  }

  /** Stages before `r` survive later allocations and a new entry in slot `11 + r`. */
  lemma {:induction false} UpToFrame(disk: seq<Block>, disk': seq<Block>, ib: BlockMap, ib': BlockMap, r: nat, n: nat)
    requires r <= 4 && AgreeOn(disk, disk', TablesUpTo(disk, ib, r, n))
    requires r > 0 ==> ib[..DIRECT - 1 + r] == ib'[..DIRECT - 1 + r]
    ensures BlocksUpTo(disk', ib', r, n) == BlocksUpTo(disk, ib, r, n)
    ensures TablesUpTo(disk', ib', r, n) == TablesUpTo(disk, ib, r, n)
  {
    hide LeavesOf, TablesOf, BlocksUpTo, TablesUpTo;
    if r == 0 {
      UpToNothing(disk, ib, n);
      UpToNothing(disk', ib', n);
    } else {
      var before := BlocksUpTo(disk, ib, r - 1, n);
      UpToUnfold(disk, ib, r - 1, n);
      UpToUnfold(disk', ib', r - 1, n);
      assert forall j :: 0 <= j < DIRECT - 1 + r ==> ib[j] == ib[..DIRECT - 1 + r][j] == ib'[j];
      UpToFrame(disk, disk', ib, ib', r - 1, n);
      assert Stage(ib, r - 1) == Stage(ib', r - 1);
      ForestFrame(disk, disk', Stage(ib, r - 1), r - 1, n - |before|);
    }
  }

  // ----- how much room and how many blocks

  /** Data blocks the stages from `r` on can hold. */
  function Room(e: nat, r: nat): nat
    requires r <= 4
    decreases 4 - r
  {
    if r == 4 then 0 else Cap(e, r) + Room(e, r + 1)
  }

  /** Blocks, tables included, the stages from `r` on take for `n` data blocks. */
  function StageNeed(e: nat, r: nat, n: nat): nat
    requires r <= 4
    decreases 4 - r
  {
    if r == 4 then 0 else Need(e, r, n) + StageNeed(e, r + 1, n - Min(n, Cap(e, r)))
  }

  /** Data blocks a file with `k` direct blocks can still get: 12 - k + e + e^2 + e^3. */
  function FileRoom(e: nat, k: nat): nat
    requires k <= DIRECT
  {
    DIRECT - k + Room(e, 1)
  }

  function FileNeed(e: nat, k: nat, n: nat): nat
    requires k <= DIRECT
  {
    Min(n, DIRECT - k) + StageNeed(e, 1, n - Min(n, DIRECT - k))
  }

  lemma RoomFormula(e: nat, k: nat)
    requires k <= DIRECT
    ensures FileRoom(e, k) == 12 - k + e + e * e + e * e * e
  {
    assert Cap(e, 1) == e * Cap(e, 0) == e;
    assert Cap(e, 2) == e * Cap(e, 1) == e * e;
    assert Cap(e, 3) == e * Cap(e, 2) == e * (e * e) == e * e * e;
    assert Room(e, 4) == 0;
    assert Room(e, 3) == Cap(e, 3);
    assert Room(e, 2) == Cap(e, 2) + Room(e, 3);
  }

  lemma {:induction false} StageNeedNothing(e: nat, r: nat)
    requires r <= 4
    ensures StageNeed(e, r, 0) == 0
    decreases 4 - r
  {
    if r < 4 {
      StageNeedNothing(e, r + 1);
    }
  }

  // ----- the growing file

  /** The file's `k` old blocks are followed by new ones; exactly the new tables and data blocks were taken. */
  ghost predicate Extended(s: Snapshot, t: Snapshot, old_: seq<nat>, ts: seq<nat>, bs: seq<nat>) {
    && old_ <= bs
    && Family(ts, bs[|old_|..])
    && Grown(s, t, Members(ts, bs[|old_|..]))
  }

  /** After the stages before `r`: `got` blocks gained so far, or every block of the volume is gone. */
  ghost predicate Progress(s: Snapshot, t: Snapshot, old_: seq<nat>, ib: BlockMap, n: nat, r: nat, got: nat, failed: bool)
  {
    var k := |old_|;
    && 1 <= r <= 4 && k <= DIRECT && s.Valid()
    && if failed
       then Exhausted(s, t) && |s.Free()| < FileNeed(s.words, k, n) && got < n
       else
         var bs, ts := BlocksUpTo(t.disk, ib, r, k + n), TablesUpTo(t.disk, ib, r, k + n);
         && |bs| == k + got && Extended(s, t, old_, ts, bs)
         && |ts| + got + StageNeed(s.words, r, n - got) == FileNeed(s.words, k, n)
         && got + Min(n - got, Room(s.words, r)) == Min(n, FileRoom(s.words, k))
  }

  /** The whole outcome of growing a file by `n` blocks. */
  ghost predicate FileOutcome(s: Snapshot, t: Snapshot, old_: seq<nat>, ib: BlockMap, n: nat, rc: nat)
    requires s.Shape()
  {
    var k := |old_|;
    && k <= DIRECT
    && if |s.Free()| >= FileNeed(s.words, k, n)
       then
         var bs, ts := FileBlocks(t.disk, ib, k + n), FileTables(t.disk, ib, k + n);
         && |bs| == k + Min(n, FileRoom(s.words, k))
         && Extended(s, t, old_, ts, bs)
         && rc == if n <= FileRoom(s.words, k) then 0 else 1
       else Exhausted(s, t) && rc == 1
  }

  lemma ExtendedCat(s: Snapshot, t: Snapshot, u: Snapshot, old_: seq<nat>, ts: seq<nat>, bs: seq<nat>,
                    ts': seq<nat>, ls': seq<nat>)
    requires Extended(s, t, old_, ts, bs)
    requires Family(ts', ls') && Grown(t, u, Members(ts', ls'))
    ensures Extended(s, u, old_, ts + ts', bs + ls')
  {
    hide Family, Grown, Members;
    var ls := bs[|old_|..];
    GrownTrans(s, t, u, Members(ts, ls), Members(ts', ls'));
    FamilyCat(ts, ls, ts', ls');
    assert (bs + ls')[|old_|..] == ls + ls';
  }

  /** A built stage extends the file. */
  lemma StageBuilt(s: Snapshot, t: Snapshot, u: Snapshot, old_: seq<nat>, ib: BlockMap, n: nat, r: nat, got: nat, x: Word)
    requires Progress(s, t, old_, ib, n, r, got, false) && r <= 3 && got < n
    requires t.words == s.words && Built(t, u, x, r, n - got)
    ensures got + |Leaves(u.disk, x, r, n - got)| <= n
    ensures Progress(s, u, old_, ib[DIRECT - 1 + r := x], n, r + 1, got + |Leaves(u.disk, x, r, n - got)|, false)
  {
    hide Leaves, LeavesOf, Tables, TablesOf, Family, Grown, Members, Need, Cap, BlocksUpTo, TablesUpTo, Snapshot.Valid;
    var k := |old_|;
    var m := n - got;
    var ib' := ib[DIRECT - 1 + r := x];
    var bs, ts := BlocksUpTo(t.disk, ib, r, k + n), TablesUpTo(t.disk, ib, r, k + n);
    var ls', ts' := Leaves(u.disk, x, r, m), Tables(u.disk, x, r, m);
    TablesAreMembers(ts, bs[k..]);
    GrownAgrees(s, t, u, Members(ts, bs[k..]), Members(ts', ls'), ts);
    UpToFrame(t.disk, u.disk, ib, ib', r, k + n);
    UpToUnfold(u.disk, ib', r, k + n);
    assert Stage(ib', r) == [x];
    ForestOne(u.disk, x, r, m);
    ExtendedCat(s, t, u, old_, ts, bs, ts', ls');
  }

  lemma StageOutcome(s: Snapshot, t: Snapshot, u: Snapshot, old_: seq<nat>, ib: BlockMap, n: nat, r: nat, got: nat,
                     failed: bool, x: Word, more: nat, ib': BlockMap)
    requires Progress(s, t, old_, ib, n, r, got, failed) && 1 <= r <= 3 && got < n
    requires t.Valid() && t.words == s.words && Outcome(t, u, x, r, n - got, more)
    requires ib' == ib[DIRECT - 1 + r := x]
    ensures got + more <= n
    ensures Progress(s, u, old_, ib', n, r + 1, got + more, failed || |t.Free()| < Need(s.words, r, n - got))
  {
    hide *;
    ShapeOf(t);
    OutcomeCases(t, u, x, r, n - got, more);
    if failed {
      StillFailed(s, t, u, old_, ib, n, r, got, ib');
    } else if |t.Free()| < Need(s.words, r, n - got) {
      StageShort(s, t, u, old_, ib, n, r, got);
      NowFailed(s, u, old_, ib', n, r + 1, got + more);
    } else {
      StageBuilt(s, t, u, old_, ib, n, r, got, x);
    }
  }

  lemma OutcomeCases(s: Snapshot, t: Snapshot, b: nat, d: nat, n: nat, written: nat)
    requires s.Valid() && n > 0 && Outcome(s, t, b, d, n, written)
    ensures Need(s.words, d, n) > 0
    ensures |s.Free()| >= Need(s.words, d, n) ==> Built(s, t, b, d, n) && written == |Leaves(t.disk, b, d, n)|
    ensures |s.Free()| < Need(s.words, d, n) ==> Exhausted(s, t) && written < n
    ensures s.Free() == {} ==> written == 0
  {
    hide Built, Exhausted, Snapshot.Free, Snapshot.Valid, Leaves;
    NeedPositive(s.words, d, n);
  }

  lemma StillFailed(s: Snapshot, t: Snapshot, u: Snapshot, old_: seq<nat>, ib: BlockMap, n: nat, r: nat, got: nat, ib': BlockMap)
    requires Progress(s, t, old_, ib, n, r, got, true) && r <= 3
    ensures t.Shape() && t.Free() == {}
    ensures Exhausted(t, u) ==> Progress(s, u, old_, ib', n, r + 1, got, true)
  {
    hide Snapshot.Valid, Snapshot.Free, FileNeed;
    ExhaustedMeansNone(s, t);
    if Exhausted(t, u) {
      StayExhausted(s, t, u);
    }
  }

  lemma NowFailed(s: Snapshot, u: Snapshot, old_: seq<nat>, ib: BlockMap, n: nat, r: nat, got: nat)
    requires 1 <= r <= 4 && |old_| <= DIRECT && s.Valid()
    requires Exhausted(s, u) && |s.Free()| < FileNeed(s.words, |old_|, n) && got < n
    ensures Progress(s, u, old_, ib, n, r, got, true)
  {
  }

  lemma ExtendedCount(s: Snapshot, t: Snapshot, old_: seq<nat>, ts: seq<nat>, bs: seq<nat>)
    requires Extended(s, t, old_, ts, bs)
    ensures s.Valid() && t.Valid() && t.words == s.words
    ensures |s.Free()| == |t.Free()| + |ts| + |bs| - |old_|
  {
    hide Snapshot.Valid, Snapshot.Free, Family, Members;
    var ls := bs[|old_|..];
    FamilySize(ts, ls);
    SameWords(s, t, Members(ts, ls));
    GrownValid(s, t, Members(ts, ls));
    assert s.Free() == Members(ts, ls) + t.Free() && Members(ts, ls) !! t.Free();
  }

  lemma ShortCount(free: nat, left: nat, ts: nat, got: nat, e: nat, k: nat, n: nat, r: nat)
    requires k <= DIRECT && r <= 3 && got <= n
    requires free == left + ts + got && left < Need(e, r, n - got)
    requires ts + got + StageNeed(e, r, n - got) == FileNeed(e, k, n)
    ensures free < FileNeed(e, k, n)
  {
    hide Need, FileNeed;
    assert StageNeed(e, r, n - got) >= Need(e, r, n - got);
  }

  /** A stage that runs out of blocks: the file did not fit. */
  lemma StageShort(s: Snapshot, t: Snapshot, u: Snapshot, old_: seq<nat>, ib: BlockMap, n: nat, r: nat, got: nat)
    requires Progress(s, t, old_, ib, n, r, got, false) && r <= 3 && got <= n
    requires Exhausted(t, u) && |t.Free()| < Need(s.words, r, n - got)
    ensures Exhausted(s, u) && s.Valid() && |s.Free()| < FileNeed(s.words, |old_|, n) && |old_| <= DIRECT
  {
    hide Snapshot.Valid, Snapshot.Free, Family, Members, BlocksUpTo, TablesUpTo, Need, FileNeed, StageNeed, Grown, Room;
    var k := |old_|;
    var bs, ts := BlocksUpTo(t.disk, ib, r, k + n), TablesUpTo(t.disk, ib, r, k + n);
    ExtendedCount(s, t, old_, ts, bs);
    ShapeOf(s);
    ShapeOf(t);
    ShortCount(|s.Free()|, |t.Free()|, |ts|, got, s.words, k, n, r);
    SameWords(s, t, Members(ts, bs[k..]));
    GrownTrans(s, t, u, Members(ts, bs[k..]), t.Free());
    assert Members(ts, bs[k..]) + t.Free() == s.Free();
  }

  /** Reaching the wanted count, or the last stage, decides the outcome. */
  lemma Finished(s: Snapshot, t: Snapshot, old_: seq<nat>, ib: BlockMap, n: nat, r: nat, got: nat, failed: bool)
    requires Progress(s, t, old_, ib, n, r, got, failed) && got <= n && (got == n || r == 4)
    ensures s.Valid() && t.Valid() && FileOutcome(s, t, old_, ib, n, if got == n then 0 else 1)
  {
    hide Snapshot.Valid, Snapshot.Free, Extended, BlocksUpTo, TablesUpTo, FileFrom, FileTablesFrom, Need, Cap;
    hide FileNeed, FileBlocks, FileTables, FileRoom;
    var k := |old_|;
    ShapeOf(s);
    if failed {
      ExhaustedFacts(s, t);
    } else {
      var bs, ts := BlocksUpTo(t.disk, ib, r, k + n), TablesUpTo(t.disk, ib, r, k + n);
      ExtendedCount(s, t, old_, ts, bs);
      SplitAtStage(t.disk, ib, r, k + n);
      if got == n {
        FileEmpty(t.disk, ib, r);
        StageNeedNothing(s.words, r);
        assert FileBlocks(t.disk, ib, k + n) == bs && FileTables(t.disk, ib, k + n) == ts;
      } else {
        NoMoreStages(t.disk, ib, n - got);
        assert FileBlocks(t.disk, ib, k + n) == bs && FileTables(t.disk, ib, k + n) == ts;
        assert StageNeed(s.words, 4, n - got) == 0 && Room(s.words, 4) == 0;
      }
    }
  }

  lemma SuccessGrown(s: Snapshot, t: Snapshot, old_: seq<nat>, ib: BlockMap, n: nat)
    requires s.Valid() && FileOutcome(s, t, old_, ib, n, 0)
    ensures var bs, ts := FileBlocks(t.disk, ib, |old_| + n), FileTables(t.disk, ib, |old_| + n);
      |bs| == |old_| + n && Extended(s, t, old_, ts, bs)
  {
    hide FileBlocks, FileTables, FileNeed, FileRoom, Extended, Grown;
  }

  // ----- the direct slots

  /** The direct loop at slot `i`: slots before `k` are old, `got` slots after them are new, the rest empty. */
  ghost predicate DirectProgress(s: Snapshot, t: Snapshot, old_: seq<nat>, ib: BlockMap, n: nat, i: nat, got: nat) {
    var k := |old_|;
    && k <= DIRECT && i <= DIRECT && s.Valid()
    && got <= n && got == (if i <= k then 0 else Min(n, i - k))
    && old_ == ib[..k]
    && (forall j :: 0 <= j < k ==> ib[j] != 0)
    && (forall j :: k + got <= j < 15 ==> ib[j] == 0)
    && Distinct(ib[k..k + got])
    && Grown(s, t, SetOf(ib[k..k + got]))
  }

  lemma DirectStart(s: Snapshot, ib: BlockMap, k: nat, n: nat)
    requires s.Valid() && k <= DIRECT
    requires (forall j :: 0 <= j < k ==> ib[j] != 0) && (forall j :: k <= j < 15 ==> ib[j] == 0)
    ensures DirectProgress(s, s, ib[..k], ib, n, 0, 0)
  {
    GrownNothing(s);
    assert SetOf(ib[k..k]) == {};
  }

  /** The slot looked at is empty exactly when it lies behind the old blocks. */
  lemma DirectSlot(s: Snapshot, t: Snapshot, old_: seq<nat>, ib: BlockMap, n: nat, i: nat, got: nat)
    requires DirectProgress(s, t, old_, ib, n, i, got) && i < DIRECT && got < n
    ensures ib[i] == 0 <==> |old_| <= i
    ensures i < |old_| ==> DirectProgress(s, t, old_, ib, n, i + 1, got)
  {
  }

  lemma DirectTake(s: Snapshot, t: Snapshot, u: Snapshot, old_: seq<nat>, ib: BlockMap, n: nat, i: nat, got: nat, b: Word)
    requires DirectProgress(s, t, old_, ib, n, i, got) && |old_| <= i < DIRECT && got < n
    requires Grown(t, u, {b})
    ensures DirectProgress(s, u, old_, ib[i := b], n, i + 1, got + 1)
  {
    hide Grown;
    var k := |old_|;
    var new_ := ib[k..k + got];
    assert ib[i := b][k..k + got + 1] == new_ + [b];
    GrownTrans(s, t, u, SetOf(new_), {b});
    SetOfCat(new_, [b]);
    assert SetOf([b]) == {b};
    DistinctCat(new_, [b]);
    assert ib[i := b][..k] == ib[..k];
  }

  lemma StageZero(disk: seq<Block>, ib: BlockMap, n: nat)
    ensures BlocksUpTo(disk, ib, 1, n) == ib[..Min(n, DIRECT)] && TablesUpTo(disk, ib, 1, n) == []
  {
    hide LeavesOf, TablesOf;
    DirectLeaves(disk, ib[..DIRECT], n);
    UpToUnfold(disk, ib, 0, n);
    assert BlocksUpTo(disk, ib, 0, n) == [] && TablesUpTo(disk, ib, 0, n) == [];
    assert ib[..DIRECT][..Min(n, DIRECT)] == ib[..Min(n, DIRECT)];
  }

  lemma SubsetEqual(a: set<nat>, b: set<nat>)
    requires b <= a && a - b == {}
    ensures a == b
  {
    assert forall x :: x in a ==> x !in a - b;
  }

  /** The direct slots are filled as far as wanted. */
  lemma DirectDone(s: Snapshot, t: Snapshot, old_: seq<nat>, ib: BlockMap, n: nat, i: nat, got: nat)
    requires DirectProgress(s, t, old_, ib, n, i, got) && (i == DIRECT || got == n)
    ensures Progress(s, t, old_, ib, n, 1, got, false)
  {
    hide Grown, Need, Room, StageNeed, BlocksUpTo, TablesUpTo;
    var k := |old_|;
    StageZero(t.disk, ib, k + n);
    var bs: seq<nat> := ib[..k + got];
    assert bs[k..] == ib[k..k + got] && bs[..k] == old_;
    NoTables(bs[k..]);
    assert Extended(s, t, old_, [], bs);
  }

  lemma NoTables(ls: seq<nat>)
    requires Distinct(ls)
    ensures Family([], ls) && Members([], ls) == SetOf(ls)
  {
  }

  /** No block for a direct slot: the file did not fit. */
  lemma DirectShort(s: Snapshot, t: Snapshot, old_: seq<nat>, ib: BlockMap, n: nat, i: nat, got: nat, ib': BlockMap)
    requires DirectProgress(s, t, old_, ib, n, i, got) && |old_| <= i < DIRECT && got < n
    requires t.Valid() && t.Free() == {}
    ensures s.Valid() && FileOutcome(s, t, old_, ib', n, 1)
  {
    hide Snapshot.Valid, Snapshot.Free, StageNeed;
    var k := |old_|;
    var new_ := ib[k..k + got];
    SameWords(s, t, SetOf(new_));
    ShapeOf(s);
    SubsetEqual(s.Free(), SetOf(new_));
    SetOfSize(new_);
    assert FileNeed(s.words, k, n) >= Min(n, DIRECT - k) > got;
  }

  /** ext2_allocate_blocks on an inode whose first slots are in use and whose other slots are empty. */
  method AllocateBlocks(p: Partition, ib: array<Word>, n: nat, ghost k: nat) returns (rc: nat)
    requires p.Valid() && ib.Length == 15 && k <= DIRECT
    requires (forall j :: 0 <= j < k ==> ib[j] != 0) && (forall j :: k <= j < 15 ==> ib[j] == 0)
    modifies p, ib
    ensures p.Valid()
    ensures FileOutcome(old(p.Value()), p.Value(), old(ib[..k]), ib[..], n, rc)
    ensures ib[..k] == old(ib[..k])
  {
    hide Snapshot.Valid, Snapshot.Free, Snapshot.SameLayout, Progress, DirectProgress, FileOutcome, Outcome;
    hide Need, Grown, HandedOut, LeavesOf, Take;
    ghost var s := p.Value();
    ghost var old_: seq<nat> := ib[..k];
    var got := 0;
    var i := 0;
    DirectStart(s, ib[..], k, n);
    while i < 12
      invariant i <= 12 && got <= n && p.Valid() && ib[..k] == old(ib[..k])
      invariant DirectProgress(s, p.Value(), old_, ib[..], n, i, got)
    {
      if got == n {
        break;
      }
      DirectSlot(s, p.Value(), old_, ib[..], n, i, got);
      if ib[i] == 0 {
        ghost var t, before: BlockMap := p.Value(), ib[..];
        ShapeOf(t);
        var block := AllocateBlock(p);
        if block != 0 {
          BlockTaken(t, p.Value(), block);
        }
        ib[i] := block;
        if ib[i] == 0 {
          DirectShort(s, t, old_, before, n, i, got, ib[..]);
          return 1;
        }
        DirectTake(s, t, p.Value(), old_, before, n, i, got, block);
        got := got + 1;
      }
      i := i + 1;
    }
    DirectDone(s, p.Value(), old_, ib[..], n, i, got);
    ghost var direct := ib[..DIRECT];
    rc := AllocateTables(p, ib, n, got, s, old_);
    assert ib[..k] == direct[..k];
  }

  /** The part of ext2_allocate_blocks behind the direct slots. */
  method AllocateTables(p: Partition, ib: array<Word>, n: nat, direct: nat, ghost s: Snapshot, ghost old_: seq<nat>)
    returns (rc: nat)
    requires p.Valid() && ib.Length == 15 && direct <= n && p.words == s.words
    requires Progress(s, p.Value(), old_, ib[..], n, 1, direct, false)
    modifies p, ib
    ensures p.Valid() && s.Valid() && FileOutcome(s, p.Value(), old_, ib[..], n, rc)
    ensures ib[..DIRECT] == old(ib[..DIRECT])
  {
    hide Snapshot.Valid, Snapshot.Free, Snapshot.SameLayout, Progress, DirectProgress, FileOutcome, Outcome;
    hide Need, Grown, HandedOut, LeavesOf, Take;
    var got := direct;
    ghost var failed := false;
    if got == n {
      Finished(s, p.Value(), old_, ib[..], n, 1, got, failed);
      return 0;
    }
    ghost var t, before: BlockMap := p.Value(), ib[..];
    ShapeOf(t);
    var more, x := AllocateIndirect(p, n - got);
    ib[12] := x;
    assert ib[..] == before[12 := x];
    StageOutcome(s, t, p.Value(), old_, before, n, 1, got, failed, x, more, ib[..]);
    failed := failed || |t.Free()| < Need(s.words, 1, n - got);
    got := got + more;
    if got == n {
      Finished(s, p.Value(), old_, ib[..], n, 2, got, failed);
      return 0;
    }
    t, before := p.Value(), ib[..];
    ShapeOf(t);
    more, x := AllocateDouble(p, n - got);
    ib[13] := x;
    assert ib[..] == before[13 := x];
    StageOutcome(s, t, p.Value(), old_, before, n, 2, got, failed, x, more, ib[..]);
    failed := failed || |t.Free()| < Need(s.words, 2, n - got);
    got := got + more;
    if got == n {
      Finished(s, p.Value(), old_, ib[..], n, 3, got, failed);
      return 0;
    }
    t, before := p.Value(), ib[..];
    ShapeOf(t);
    more, x := AllocateTriple(p, n - got);
    ib[14] := x;
    assert ib[..] == before[14 := x];
    StageOutcome(s, t, p.Value(), old_, before, n, 3, got, failed, x, more, ib[..]);
    failed := failed || |t.Free()| < Need(s.words, 3, n - got);
    got := got + more;
    Finished(s, p.Value(), old_, ib[..], n, 4, got, failed);
    if got == n {
      return 0;
    }
    rc := 1;
  }
}
