/** When the block list is the file, and what releasing it restores. */
module Ext2Release {
  import opened Words
  import opened Ext2Volume
  import opened Ext2Tree
  import opened Ext2Alloc
  import opened Ext2Read
  import opened Ext2File
  import opened Ext2Grow
  import opened Ext2GrowFile
  import opened Ext2List
  import opened Ext2ListExact

  // ----- terminated trees

  /** Tables below `b` use no stop value for their part of `n` data blocks and have one right behind it. */
  ghost predicate Ends(disk: seq<Block>, b: nat, d: nat, n: nat)
    decreases d, 0
  {
    d == 0 || (0 < b < |disk| && EndsOf(disk, disk[b], d - 1, n))
  }

  ghost predicate EndsOf(disk: seq<Block>, es: seq<Word>, d: nat, n: nat)
    decreases d, |es| + 1
  {
    if es == [] then true
    else if n == 0 then Stops(es[0])
    else
      && !Stops(es[0]) && Ends(disk, es[0], d, n)
      && EndsOf(disk, es[1..], d, n - |Leaves(disk, es[0], d, n)|)
  }

  lemma EndsCons(disk: seq<Block>, es: seq<Word>, d: nat, n: nat)
    requires EndsOf(disk, es, d, n) && es != [] && n > 0
    ensures !Stops(es[0]) && Ends(disk, es[0], d, n)
    ensures EndsOf(disk, es[1..], d, n - |Leaves(disk, es[0], d, n)|)
  {
    hide Leaves, Ends;
  }

  lemma EndsHere(disk: seq<Block>, es: seq<Word>, d: nat, n: nat)
    requires EndsOf(disk, es, d, n) && (es == [] || n == 0)
    ensures Prefix(es) == [] && LoadableOf(disk, Prefix(es), d) && LoadedOf(disk, Prefix(es), d) == []
  {
    hide Leaves, Ends, Loadable;
  }

  lemma LoadableCons(disk: seq<Block>, x: Word, es: seq<Word>, d: nat)
    requires Loadable(disk, x, d) && LoadableOf(disk, es, d)
    ensures LoadableOf(disk, [x] + es, d)
  {
    hide Loadable;
    assert ([x] + es)[1..] == es;
  }

  lemma {:induction false} EndsLoaded(disk: seq<Block>, b: nat, d: nat, n: nat)
    requires n > 0 && Ends(disk, b, d, n)
    ensures Loadable(disk, b, d) && Loaded(disk, b, d) == Leaves(disk, b, d, n)
    decreases d, 0
  {
    if d > 0 {
      EndsOfLoaded(disk, disk[b], d - 1, n);
    }
  }

  lemma {:induction false} EndsOfLoaded(disk: seq<Block>, es: seq<Word>, d: nat, n: nat)
    requires EndsOf(disk, es, d, n)
    ensures LoadableOf(disk, Prefix(es), d) && LoadedOf(disk, Prefix(es), d) == LeavesOf(disk, es, d, n)
    decreases d, |es| + 1
  {
    hide Leaves, LeavesOf, Loaded, LoadedOf, Loadable, LoadableOf, Ends, EndsOf;
    if es == [] || n == 0 {
      EndsHere(disk, es, d, n);
      ForestEmpty(disk, es, d, n);
    } else {
      EndsCons(disk, es, d, n);
      EndsLoaded(disk, es[0], d, n);
      EndsOfLoaded(disk, es[1..], d, n - |Leaves(disk, es[0], d, n)|);
      PrefixOne(es);
      LoadedCons(disk, es[0], Prefix(es[1..]), d);
      LoadableCons(disk, es[0], Prefix(es[1..]), d);
      ForestCons(disk, es, d, n);
    }
  }

  /** For an indirect block the loader lists exactly the file's blocks iff the table ends where the file does. */
  lemma IndirectListExact(disk: seq<Block>, b: nat, n: nat)
    requires 0 < b < |disk| && 0 < n
    ensures Loaded(disk, b, 1) == Leaves(disk, b, 1, n) <==>
      && (forall i :: 0 <= i < n && i < |disk[b]| ==> !Stops(disk[b][i]))
      && (n < |disk[b]| ==> Stops(disk[b][n]))
  {
    var es := disk[b];
    LoadedOfZero(disk, Prefix(es));
    DirectLeaves(disk, es, n);
    assert Loaded(disk, b, 1) == Prefix(es);
    assert Leaves(disk, b, 1, n) == es[..Min(n, |es|)];
    PrefixExact(es, Min(n, |es|));
  }

  lemma {:induction false} PrefixExact(es: seq<Word>, n: nat)
    requires n <= |es|
    ensures Prefix(es) == es[..n] <==>
      (forall i :: 0 <= i < n ==> !Stops(es[i])) && (n < |es| ==> Stops(es[n]))
  {
    if Prefix(es) == es[..n] {
      assert forall i :: 0 <= i < n ==> es[i] == Prefix(es)[i] && Prefix(es)[i] in Prefix(es);
    } else if |Prefix(es)| < n {
      assert Stops(es[|Prefix(es)|]);
    } else if |Prefix(es)| > n {
      assert es[n] == Prefix(es)[n] && Prefix(es)[n] in Prefix(es);
    }
  }

  /** Each stage the file uses ends where the file does. */
  ghost predicate FileEnds(disk: seq<Block>, ib: BlockMap, k: nat, n: nat)
    requires 1 <= k <= 4
    decreases 4 - k
  {
    k < 4 && n > 0 ==>
      && Ends(disk, ib[DIRECT - 1 + k], k, n)
      && FileEnds(disk, ib, k + 1, n - |LeavesOf(disk, Stage(ib, k), k, n)|)
  }

  lemma {:induction false} ListIsBlocksUpTo(disk: seq<Block>, ib: BlockMap, r: nat, n: nat)
    requires 1 <= r <= 4 && FileOk(disk, ib, n)
    requires FileEnds(disk, ib, 1, n - Min(n, DIRECT))
    ensures ListFits(disk, ib, r, n)
    ensures ListUpTo(disk, ib, r, n) == BlocksUpTo(disk, ib, r, n)
    ensures FileEnds(disk, ib, r, n - |BlocksUpTo(disk, ib, r, n)|)
  {
    hide Loaded, Loadable, LeavesOf, TablesOf, BlocksUpTo, TablesUpTo, FileFrom, FileTablesFrom, Ends, Leaves;
    if r == 1 {
      StageZero(disk, ib, n);
      DirectIsBlocks(disk, ib, n);
    } else {
      ListIsBlocksUpTo(disk, ib, r - 1, n);
      UpToUnfold(disk, ib, r - 1, n);
      var before := BlocksUpTo(disk, ib, r - 1, n);
      var x := ib[DIRECT - 2 + r];
      var m := n - |before|;
      assert Stage(ib, r - 1) == [x];
      ForestOne(disk, x, r - 1, m);
      if m > 0 {
        EndsLoaded(disk, x, r - 1, m);
      } else {
        ForestEmpty(disk, [x], r - 1, m);
      }
    }
  }

  /** On a terminated tree the list is the file: the blocks the read walkers visit, all of them. */
  lemma ListIsFile(disk: seq<Block>, ib: BlockMap, n: nat)
    requires FileOk(disk, ib, n) && FileEnds(disk, ib, 1, n - Min(n, DIRECT))
    ensures ListFits(disk, ib, 4, n)
    ensures ListUpTo(disk, ib, 4, n) == FileBlocks(disk, ib, n)
  {
    hide LeavesOf, TablesOf, BlocksUpTo, TablesUpTo, ListUpTo, ListFits, FileEnds;
    ListIsBlocksUpTo(disk, ib, 4, n);
    SplitAtStage(disk, ib, 4, n);
    NoMoreStages(disk, ib, n - |BlocksUpTo(disk, ib, 4, n)|);
  }

  // ----- releasing blocks

  /** A block number the release code can look up: it belongs to a group and holds no bitmap. */
  ghost predicate Releasable(s: Snapshot, b: nat) {
    s.bpg > 0 && 0 < b < |s.disk| && GroupOf(s.bpg, b) < |s.gd| && !s.IsBitmap(b)
  }

  /** Only bitmaps, counters and free bits differ; exactly the blocks `given` became free. */
  ghost predicate Released(s: Snapshot, t: Snapshot, given: set<nat>) {
    && s.Valid() && t.Valid() && t.SameLayout(s)
    && t.Free() == s.Free() + given
    && forall b :: 0 <= b < |s.disk| && !s.IsBitmap(b) ==> t.disk[b] == s.disk[b]
  }

  lemma ReleasedTrans(s: Snapshot, t: Snapshot, u: Snapshot, a: set<nat>, b: set<nat>)
    requires Released(s, t, a) && Released(t, u, b)
    ensures Released(s, u, a + b)
  {
    hide Snapshot.Valid, Snapshot.Free;
    forall x | 0 <= x < |s.disk|
      ensures t.IsBitmap(x) == s.IsBitmap(x)
    {
      SameBitmaps(s, t, x);
    }
  }

  lemma ReleasedOne(s: Snapshot, t: Snapshot, b: nat)
    requires s.Valid() && t.Valid() && t.SameLayout(s) && Releasable(s, b)
    requires t.Free() == s.Free() + {b}
    requires t == s || t == Give(s, GroupOf(s.bpg, b), IndexOf(s.bpg, b))
    ensures Released(s, t, {b})
  {
    hide Snapshot.Valid, Snapshot.Free, Snapshot.SameLayout;
    if t != s {
      assert s.IsBitmap(s.gd[GroupOf(s.bpg, b)].bitmap);
    }
  }

  lemma StillReleasable(s: Snapshot, t: Snapshot, given: set<nat>, b: nat)
    requires Released(s, t, given) && Releasable(s, b)
    ensures Releasable(t, b)
  {
    hide Snapshot.Valid, Snapshot.Free;
    SameBitmaps(s, t, b);
  }

  lemma ReleasedNothing(s: Snapshot)
    requires s.Valid()
    ensures Released(s, s, {})
  {
  }

  lemma ReleasedFree(s: Snapshot, t: Snapshot, given: set<nat>)
    requires Released(s, t, given)
    ensures s.Shape() && t.Shape() && t.Valid() && t.Free() == s.Free() + given && t.bpg == s.bpg
  {
  }

  /** ext2_deallocate_blocks, from the last block to the first: it succeeds exactly on distinct used blocks. */
  method DeallocateBlocks(p: Partition, blocks: seq<Word>) returns (count: nat)
    requires p.Valid() && forall i :: 0 <= i < |blocks| ==> Releasable(p.Value(), blocks[i])
    modifies p
    ensures p.Valid()
    ensures count == |blocks| <==>
      Distinct(blocks) && forall i :: 0 <= i < |blocks| ==> blocks[i] !in old(p.Value().Free())
    ensures count == |blocks| ==> Released(old(p.Value()), p.Value(), SetOf(blocks))
    ensures count == |blocks| || count == 0
  {
    hide Snapshot.Valid, Snapshot.Free, Released, Snapshot.SameLayout, Give, Distinct, SetOf;
    ghost var s := p.Value();
    ShapeOf(s);
    ghost var bs: seq<nat> := blocks;
    ReleasedNothing(s);
    count := 0;
    var i := |blocks| - 1;
    NothingBehind(bs);
    while i >= 0
      invariant -1 <= i < |blocks| && count == |blocks| - 1 - i
      invariant p.Valid() && Released(s, p.Value(), SetOf(bs[i + 1..]))
      invariant Distinct(bs[i + 1..]) && forall j :: i < j < |bs| ==> bs[j] !in s.Free()
    {
      ghost var t := p.Value();
      ReleasedFree(s, t, SetOf(bs[i + 1..]));
      StillReleasable(s, t, SetOf(bs[i + 1..]), bs[i]);
      var ok := DeallocateBlock(p, blocks[i]);
      if ok == 0 {
        NotAllReleasable(bs, i, s.Free());
        return 0;
      }
      ReleasedOne(t, p.Value(), bs[i]);
      ReleasedTrans(s, t, p.Value(), SetOf(bs[i + 1..]), {bs[i]});
      TailGrows(bs, i);
      count := count + 1;
      i := i - 1;
    }
    assert bs[0..] == bs;
  }

  lemma NothingBehind(bs: seq<nat>)
    ensures SetOf(bs[|bs|..]) == {} && Distinct(bs[|bs|..])
  {
  }

  lemma TailGrows(bs: seq<nat>, i: nat)
    requires i < |bs|
    ensures SetOf(bs[i..]) == SetOf(bs[i + 1..]) + {bs[i]}
    ensures bs[i] !in SetOf(bs[i + 1..]) && Distinct(bs[i + 1..]) ==> Distinct(bs[i..])
  {
    assert bs[i..] == [bs[i]] + bs[i + 1..];
    SetOfCat([bs[i]], bs[i + 1..]);
    if bs[i] !in SetOf(bs[i + 1..]) && Distinct(bs[i + 1..]) {
      assert SetOf([bs[i]]) == {bs[i]};
      DistinctCat([bs[i]], bs[i + 1..]);
    }
  }

  lemma NotAllReleasable(bs: seq<nat>, i: nat, free: set<nat>)
    requires i < |bs| && bs[i] in free + SetOf(bs[i + 1..])
    ensures !Distinct(bs) || bs[i] in free
  {
    if bs[i] in SetOf(bs[i + 1..]) {
      var j :| 0 <= j < |bs[i + 1..]| && bs[i + 1..][j] == bs[i];
      assert bs[i + 1 + j] == bs[i];
    }
  }

  /** For an addressable file no empty slot is opened, and the list is loaded exactly when it stays within the file's
      length and every table can be read; then it is the file. */
  lemma ListedFile(s: Snapshot, ib: BlockMap, n: nat)
    requires s.Shape()
    ensures FileOk(s.disk, ib, n) ==> SlotsUsed(s.disk, ib, n) && (LoadsWhole(s.disk, ib, n) <==> ListFits(s.disk, ib, 4, n))
    ensures FileOk(s.disk, ib, n) && |ListUpTo(s.disk, ib, 4, n)| == n ==>
      ListUpTo(s.disk, ib, 4, n) == FileBlocks(s.disk, ib, n)
  {
    hide ListUpTo, ListFits, LoadsWhole, SlotsUsed, OpensUpTo, WrittenUpTo, FileOk, FileBlocks;
    if FileOk(s.disk, ib, n) {
      ListExact(s.words, s.disk, ib, n);
      LoadsExactly(s.words, s.disk, ib, n);
    }
  }

  /** Every table can be read, and the list has the file's length, no repetition and used blocks only. */
  ghost predicate Deletable(s: Snapshot, ib: BlockMap, n: nat) {
    var list := ListUpTo(s.disk, ib, 4, n);
    && s.Shape() && n > 0 && LoadsWhole(s.disk, ib, n) && Distinct(list)
    && forall b :: b in list ==> b !in s.Free()
  }

  /** The same of an addressable file: the list does not run past the file, and the file's blocks are distinct and in use. */
  ghost predicate FileDeletable(s: Snapshot, ib: BlockMap, n: nat) {
    var bs := FileBlocks(s.disk, ib, n);
    && s.Shape() && n > 0 && ListFits(s.disk, ib, 4, n) && Distinct(bs)
    && forall b :: b in bs ==> b !in s.Free()
  }

  lemma DeletableFile(s: Snapshot, ib: BlockMap, n: nat)
    requires s.Shape()
    ensures FileOk(s.disk, ib, n) ==> (Deletable(s, ib, n) <==> FileDeletable(s, ib, n))
  {
    hide ListUpTo, ListFits, OpensUpTo, FileOk, FileBlocks, Snapshot.Shape, Snapshot.Free;
    ListedFile(s, ib, n);
  }

  /** ext2_delete_file_blocks for a file of `n` blocks. */
  method DeleteFileBlocks(p: Partition, ib: BlockMap, n: nat) returns (rc: nat)
    requires p.Valid() && SlotsUsed(p.disk, ib, n)
    requires LoadsWhole(p.disk, ib, n) ==> forall b :: b in ListUpTo(p.disk, ib, 4, n) ==> Releasable(p.Value(), b)
    modifies p
    ensures p.Valid()
    ensures rc == 0 || rc == 1
    ensures rc == 0 <==> Deletable(old(p.Value()), ib, n)
    ensures FileOk(old(p.disk), ib, n) ==> (rc == 0 <==> FileDeletable(old(p.Value()), ib, n))
    ensures rc == 0 ==> Released(old(p.Value()), p.Value(), SetOf(ListUpTo(old(p.disk), ib, 4, n)))
    ensures rc == 0 && FileOk(old(p.disk), ib, n) ==>
      Released(old(p.Value()), p.Value(), SetOf(FileBlocks(old(p.disk), ib, n)))
    ensures n == 0 || !LoadsWhole(old(p.disk), ib, n) ==> p.Value() == old(p.Value())
  {
    hide ListUpTo, ListFits, OpensUpTo, SlotsUsed, Snapshot.Valid, Snapshot.Free, Released, Releasable, FileOk, FileBlocks,
      FileDeletable;
    ShapeOf(p.Value());
    ListedFile(p.Value(), ib, n);
    DeletableFile(p.Value(), ib, n);
    var list, overrun := LoadBlockList(p, ib, n);
    if list == null {
      return 1;
    }
    ghost var bs := ListUpTo(p.disk, ib, 4, n);
    assert list.words[..n] == bs;
    assert forall i :: 0 <= i < n ==> list.words[i] == bs[i] && bs[i] in bs;
    var count := DeallocateBlocks(p, list.words[..n]);
    if count != n {
      return 1;
    }
    rc := 0;
  }

  // ----- release undoes allocation

  lemma SameBlock(a: Block, b: Block)
    requires |a| == |b|
    requires forall i: nat :: i < 32 * |a| ==> BlockBit(a, i) == BlockBit(b, i)
    ensures a == b
  {
    hide Bit;
    forall j | 0 <= j < |a|
      ensures a[j] == b[j]
    {
      forall k | 0 <= k < 32
        ensures Bit(a[j], k) == Bit(b[j], k)
      {
        assert BlockBit(a, 32 * j + k) == BlockBit(b, 32 * j + k);
        assert (32 * j + k) / 32 == j && (32 * j + k) % 32 == k;
      }
      WordWidth();
      SameBits(a[j], b[j], 32);
    }
  }

  /** The free blocks determine every bitmap and every counter. */
  lemma FreeDeterminesBitmaps(s: Snapshot, t: Snapshot)
    requires s.Valid() && t.Valid() && t.SameLayout(s) && t.Free() == s.Free()
    ensures forall g: nat :: g < |s.gd| ==> t.Bitmap(g) == s.Bitmap(g)
    ensures t.gd == s.gd && t.total == s.total
  {
    hide Bit, GroupOf, IndexOf, SumFree, BlockNo;
    forall g: nat | g < |s.gd|
      ensures t.Bitmap(g) == s.Bitmap(g)
    {
      forall i: nat | i < 32 * s.words
        ensures BlockBit(t.Bitmap(g), i) == BlockBit(s.Bitmap(g), i)
      {
        if !s.Used(g, i) {
          BitByFree(s, t, g, i);
        } else if !t.Used(g, i) {
          BitByFree(t, s, g, i);
        }
      }
      SameBlock(t.Bitmap(g), s.Bitmap(g));
    }
    assert forall g :: 0 <= g < |s.gd| ==> t.gd[g] == s.gd[g];
  }

  lemma BitByFree(s: Snapshot, t: Snapshot, g: nat, i: nat)
    requires s.Valid() && t.Valid() && t.SameLayout(s) && t.Free() == s.Free()
    requires g < |s.gd| && i < 32 * s.words && !s.Used(g, i)
    ensures !t.Used(g, i)
  {
    hide Bit, SumFree;
    ZeroBitIsFree(s, g, i);
    NumberingInverse(s.bpg, g, i);
  }

  /** Growing an empty file and deleting it again gives back everything but the table blocks: all of it up to twelve
      blocks. `grownTo` is the volume in between, whose tables may hold junk behind the file's end. */
  method AllocateThenDelete(p: Partition, ib: array<Word>, m: nat)
    returns (grown: nat, deleted: nat, ghost grownTo: Snapshot)
    requires p.Valid() && ib.Length == 15 && m > 0 && forall j :: 0 <= j < 15 ==> ib[j] == 0
    modifies p, ib
    ensures p.Valid() && old(p.Value().Shape()) && FileOutcome(old(p.Value()), grownTo, [], ib[..], m, grown)
    ensures grown == 0 ==> (deleted == 0 <==> ListFits(grownTo.disk, ib[..], 4, m))
    ensures grown == 0 && deleted == 0 ==> p.Value().SameLayout(old(p.Value()))
    ensures grown == 0 && deleted == 0 ==>
      p.Value().Free() == old(p.Value().Free()) - SetOf(FileTables(grownTo.disk, ib[..], m))
    ensures m <= DIRECT ==> (grown == 0 <==> m <= |old(p.Value().Free())|)
    ensures grown == 0 && m <= DIRECT ==> deleted == 0 && Restored(old(p.Value()), p.Value())
  {
    hide Snapshot.Valid, Snapshot.Free, FileOutcome, ListUpTo, ListFits, Released, Releasable, Snapshot.SameLayout, LoadsWhole,
      SlotsUsed, FileOk, FileBlocks, FileTables, Restored, FileDeletable, Deletable;
    ghost var s := p.Value();
    ShapeOf(s);
    assert ib[..0] == [];
    grown := AllocateBlocks(p, ib, m, 0);
    grownTo := p.Value();
    ShapeOf(grownTo);
    if m <= DIRECT {
      SmallGrowth(s, grownTo, ib[..], m, grown);
    }
    if grown != 0 {
      return grown, 1, grownTo;
    }
    GrownFile(s, grownTo, ib[..], m);
    deleted := DeleteFileBlocks(p, ib[..], m);
    if deleted == 0 {
      TablesStay(s, grownTo, p.Value(), ib[..], m);
    }
    if m <= DIRECT {
      SmallRestored(s, grownTo, p.Value(), ib[..], m);
    }
  }

  /** Every bitmap and every counter is as before. */
  ghost predicate Restored(s: Snapshot, t: Snapshot) {
    && s.Shape() && t.Shape() && t.SameLayout(s) && t.gd == s.gd && t.total == s.total
    && forall g: nat :: g < |s.gd| ==> t.Bitmap(g) == s.Bitmap(g)
  }

  lemma SmallNeed(e: nat, m: nat)
    requires m <= DIRECT
    ensures FileNeed(e, 0, m) == m && m <= FileRoom(e, 0)
  {
    StageNeedNothing(e, 1);
  }

  lemma SmallGrowth(s: Snapshot, t: Snapshot, ib: BlockMap, m: nat, rc: nat)
    requires s.Valid() && m <= DIRECT && FileOutcome(s, t, [], ib, m, rc)
    ensures rc == 0 <==> m <= |s.Free()|
  {
    hide Snapshot.Valid, Snapshot.Free, FileRoom, FileNeed, FileBlocks, FileTables, Extended, Exhausted;
    SmallNeed(s.words, m);
  }

  /** A file just grown from nothing: sound, releasable, and deletable exactly when its list does not run past it. */
  lemma GrownFile(s: Snapshot, t: Snapshot, ib: BlockMap, m: nat)
    requires s.Valid() && m > 0 && FileOutcome(s, t, [], ib, m, 0)
    ensures t.Shape() && FileOk(t.disk, ib, m) && SlotsUsed(t.disk, ib, m)
    ensures LoadsWhole(t.disk, ib, m) ==> forall b :: b in ListUpTo(t.disk, ib, 4, m) ==> Releasable(t, b)
    ensures FileDeletable(t, ib, m) <==> ListFits(t.disk, ib, 4, m)
    ensures GrownFrom(s, t, ib, m)
  {
    hide Snapshot.Valid, Snapshot.Free, FileRoom, FileNeed, FileBlocks, FileTables, Grown, Releasable, FileOutcome, ListFits,
      ListUpTo, OpensUpTo, SlotsUsed, FileOk;
    SuccessGrown(s, t, [], ib, m);
    var bs, ts := FileBlocks(t.disk, ib, m), FileTables(t.disk, ib, m);
    assert bs[0..] == bs;
    GrownInRange(s, t, Members(ts, bs), bs);
    GrownInRange(s, t, Members(ts, bs), ts);
    BlocksReachable(t.disk, ib, m);
    GrownValid(s, t, Members(ts, bs));
    ShapeOf(t);
    ListedFile(t, ib, m);
    forall b | b in bs
      ensures Releasable(t, b) && b !in t.Free()
    {
      TakenIsReleasable(s, t, Members(ts, bs), b);
    }
  }

  /** Exactly the tables and the blocks of the file were taken. */
  ghost predicate GrownFrom(s: Snapshot, t: Snapshot, ib: BlockMap, m: nat) {
    var bs, ts := FileBlocks(t.disk, ib, m), FileTables(t.disk, ib, m);
    && |bs| == m && Family(ts, bs) && Grown(s, t, Members(ts, bs))
  }

  /** Releasing the file's blocks leaves its tables taken. */
  lemma TablesStay(s: Snapshot, t: Snapshot, u: Snapshot, ib: BlockMap, m: nat)
    requires GrownFrom(s, t, ib, m) && Released(t, u, SetOf(FileBlocks(t.disk, ib, m)))
    ensures s.Shape() && u.Shape() && s.Valid() && u.Valid() && u.SameLayout(s)
    ensures u.Free() == s.Free() - SetOf(FileTables(t.disk, ib, m))
  {
    hide Snapshot.Valid, Snapshot.Free, FileBlocks, FileTables;
    var bs, ts := FileBlocks(t.disk, ib, m), FileTables(t.disk, ib, m);
    ShapeOf(s);
    ShapeOf(u);
    assert forall b :: b in SetOf(ts) ==> b !in SetOf(bs);
  }

  lemma SmallRestored(s: Snapshot, t: Snapshot, u: Snapshot, ib: BlockMap, m: nat)
    requires 0 < m <= DIRECT && GrownFrom(s, t, ib, m) && FileOk(t.disk, ib, m)
    ensures ListFits(t.disk, ib, 4, m)
    ensures Released(t, u, SetOf(FileBlocks(t.disk, ib, m))) ==> Restored(s, u)
  {
    hide Snapshot.Valid, Snapshot.Free, FileBlocks, FileTables, Released, Grown, ListFits, ListUpTo;
    SmallTables(t.disk, ib, m);
    SmallOk(t.disk, ib, m);
    ListIsFile(t.disk, ib, m);
    if Released(t, u, SetOf(FileBlocks(t.disk, ib, m))) {
      TablesStay(s, t, u, ib, m);
      FreeDeterminesBitmaps(s, u);
    }
  }

  lemma SmallTables(disk: seq<Block>, ib: BlockMap, m: nat)
    requires m <= DIRECT
    ensures FileTables(disk, ib, m) == [] && FileBlocks(disk, ib, m) == ib[..m]
  {
    hide BlocksUpTo, TablesUpTo, FileFrom, FileTablesFrom;
    StageZero(disk, ib, m);
    SplitAtStage(disk, ib, 1, m);
    FileEmpty(disk, ib, 1);
  }

  lemma SmallOk(disk: seq<Block>, ib: BlockMap, m: nat)
    requires m <= DIRECT && InRange(disk, FileBlocks(disk, ib, m))
    ensures FileOk(disk, ib, m) && FileEnds(disk, ib, 1, m - Min(m, DIRECT))
  {
    SmallTables(disk, ib, m);
  }

  lemma TakenIsReleasable(s: Snapshot, t: Snapshot, taken: set<nat>, b: nat)
    requires Grown(s, t, taken) && b in taken
    ensures t.Shape() && Releasable(t, b) && b !in t.Free()
  {
    hide Snapshot.SameLayout;
    SameWords(s, t, taken);
    NotBitmap(s, b);
    FreeBits(s, b);
    LayoutFacts(s, t, b);
  }

  lemma LayoutFacts(s: Snapshot, t: Snapshot, b: nat)
    requires t.SameLayout(s)
    ensures t.bpg == s.bpg && |t.gd| == |s.gd| && |t.disk| == |s.disk| && t.IsBitmap(b) == s.IsBitmap(b)
  {
  }
}
