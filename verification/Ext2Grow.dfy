/** Growing a file: the allocator builds the block tree, one table at a time. */
module Ext2Grow {
  import opened Words
  import opened Ext2Volume
  import opened Ext2Tree
  import opened Ext2Alloc

  // ----- what an allocation changes

  /** `t` follows from `s` by handing out exactly the blocks `taken`; only they and bitmaps were written. */
  ghost predicate Grown(s: Snapshot, t: Snapshot, taken: set<nat>) {
    && s.Valid() && t.Valid() && t.SameLayout(s)
    && taken <= s.Free() && t.Free() == s.Free() - taken
    && forall b :: 0 <= b < |s.disk| && b !in taken && !s.IsBitmap(b) ==> t.disk[b] == s.disk[b]
  }

  /** Every free block has been handed out. */
  ghost predicate Exhausted(s: Snapshot, t: Snapshot) {
    s.Shape() && Grown(s, t, s.Free())
  }

  lemma SameBitmaps(s: Snapshot, t: Snapshot, b: nat)
    requires t.SameLayout(s)
    ensures t.IsBitmap(b) == s.IsBitmap(b)
  {
  }

  lemma GrownTrans(s: Snapshot, t: Snapshot, u: Snapshot, a: set<nat>, b: set<nat>)
    requires Grown(s, t, a) && Grown(t, u, b)
    ensures Grown(s, u, a + b) && a !! b
  {
    hide Snapshot.Valid, Snapshot.Free;
    forall x | 0 <= x < |s.disk|
      ensures t.IsBitmap(x) == s.IsBitmap(x)
    {
      SameBitmaps(s, t, x);
    }
  }

  lemma GrownNothing(s: Snapshot)
    requires s.Valid()
    ensures Grown(s, s, {})
  {
  }

  lemma GrownByOne(s: Snapshot, t: Snapshot, b: nat)
    requires s.Valid() && t.Valid() && t.SameLayout(s)
    requires HandedOut(s, t, b) && t.Free() == s.Free() - {b}
    ensures Grown(s, t, {b})
  {
    hide Snapshot.Valid, Snapshot.Free, Snapshot.SameLayout;
    FreeBits(s, b);
    var g := GroupOf(s.bpg, b);
    assert s.IsBitmap(s.gd[g].bitmap);
  }

  lemma SameBitmapsSameFree(s: Snapshot, t: Snapshot)
    requires s.Shape() && t.Shape() && t.SameLayout(s)
    requires forall g: nat :: g < |s.gd| ==> t.Bitmap(g) == s.Bitmap(g)
    ensures t.Free() == s.Free()
  {
    hide Bit, GroupOf, IndexOf;
    forall b: nat | 0 < b < |s.disk|
      ensures t.IsFree(b) == s.IsFree(b)
    {
      NumberingOnto(s.bpg, b);
    }
  }

  /** Writing a block that holds no bitmap keeps the volume valid and frees nothing. */
  lemma PutKeepsValid(s: Snapshot, b: nat, blk: Block)
    requires s.Valid() && b < |s.disk| && |blk| == s.words && !s.IsBitmap(b)
    ensures s.(disk := s.disk[b := blk]).Valid()
    ensures s.(disk := s.disk[b := blk]).SameLayout(s)
    ensures s.(disk := s.disk[b := blk]).Free() == s.Free()
  {
    hide Bit, GroupOf, IndexOf, BlockNo, SumFree, Snapshot.Free;
    var t := s.(disk := s.disk[b := blk]);
    assert forall g :: 0 <= g < |s.gd| ==> s.gd[g].bitmap != b;
    assert t.Shape();
    assert forall g: nat :: g < |s.gd| ==> t.Bitmap(g) == s.Bitmap(g);
    SameBitmapsSameFree(s, t);
    assert forall g: nat, i: nat :: g < |s.gd| && i < 32 * s.words ==> t.Used(g, i) == s.Used(g, i);
    assert t.BitsInRange();
    assert t.CountsExact();
  }

  lemma GrownPut(s: Snapshot, t: Snapshot, taken: set<nat>, b: nat, blk: Block)
    requires Grown(s, t, taken) && b in taken && b < |t.disk| && |blk| == t.words
    ensures Grown(s, t.(disk := t.disk[b := blk]), taken)
  {
    hide Snapshot.Valid, Snapshot.Free;
    NotBitmap(s, b);
    SameBitmaps(s, t, b);
    PutKeepsValid(t, b, blk);
  }

  lemma NotBitmap(s: Snapshot, b: nat)
    requires s.Valid() && b in s.Free()
    ensures !s.IsBitmap(b) && 0 < b < |s.disk|
  {
    if s.IsBitmap(b) {
      BitmapsNotFree(s, b);
    }
  }

  // ----- families of distinct blocks

  /** Tables `ts` and data blocks `ls`: all pairwise distinct. */
  ghost predicate Family(ts: seq<nat>, ls: seq<nat>) {
    Distinct(ts) && Distinct(ls) && Apart(ts, ls)
  }

  ghost function Members(ts: seq<nat>, ls: seq<nat>): set<nat> {
    SetOf(ts) + SetOf(ls)
  }

  lemma DistinctCat(a: seq<nat>, b: seq<nat>)
    requires Distinct(a) && Distinct(b) && SetOf(a) !! SetOf(b)
    ensures Distinct(a + b)
  {
    forall i, j | 0 <= i < j < |a + b|
      ensures (a + b)[i] != (a + b)[j]
    {
      if i < |a| <= j {
        assert a[i] in SetOf(a) && b[j - |a|] in SetOf(b);
      }
    }
  }

  lemma SetOfCat(a: seq<nat>, b: seq<nat>)
    ensures SetOf(a + b) == SetOf(a) + SetOf(b)
  {
  }

  lemma FamilyCat(ts: seq<nat>, ls: seq<nat>, ts': seq<nat>, ls': seq<nat>)
    requires Family(ts, ls) && Family(ts', ls') && Members(ts, ls) !! Members(ts', ls')
    ensures Family(ts + ts', ls + ls')
    ensures Members(ts + ts', ls + ls') == Members(ts, ls) + Members(ts', ls')
  {
    hide Distinct;
    SetOfCat(ts, ts');
    SetOfCat(ls, ls');
    DistinctCat(ts, ts');
    DistinctCat(ls, ls');
    forall x | x in ts + ts'
      ensures x !in ls + ls'
    {
      assert x in Members(ts, ls) || x in Members(ts', ls');
      assert x in ls ==> x in Members(ts, ls);
      assert x in ls' ==> x in Members(ts', ls');
    }
  }

  lemma {:induction false} SetOfSize(bs: seq<nat>)
    requires Distinct(bs)
    ensures |SetOf(bs)| == |bs|
  {
    if bs != [] {
      var k := |bs| - 1;
      assert bs == bs[..k] + [bs[k]];
      SetOfCat(bs[..k], [bs[k]]);
      assert SetOf([bs[k]]) == {bs[k]};
      SetOfSize(bs[..k]);
    } else {
      assert SetOf(bs) == {};
    }
  }

  lemma FamilySize(ts: seq<nat>, ls: seq<nat>)
    requires Family(ts, ls)
    ensures |Members(ts, ls)| == |ts| + |ls|
  {
    SetOfSize(ts);
    SetOfSize(ls);
    assert SetOf(ts) !! SetOf(ls);
  }

  // ----- how many blocks a tree takes

  /** Blocks, tables included, of a tree of depth `d` with `n` data blocks. */
  function Need(e: nat, d: nat, n: nat): nat
    decreases d, 0
  {
    if n == 0 then 0 else if d == 0 then 1 else 1 + NeedOf(e, d - 1, e, n)
  }

  /** The same for a list of at most `k` such trees. */
  function NeedOf(e: nat, d: nat, k: nat, n: nat): nat
    decreases d, k
  {
    if n == 0 || k == 0 then 0 else Need(e, d, n) + NeedOf(e, d, k - 1, n - Min(n, Cap(e, d)))
  }

  lemma {:induction false} TreeSize(e: nat, disk: seq<Block>, b: nat, d: nat, n: nat)
    requires Uniform(e, disk) && InRange(disk, Tables(disk, b, d, n))
    ensures |Tables(disk, b, d, n)| + |Leaves(disk, b, d, n)| == Need(e, d, n)
    decreases d, 0
  {
    if n > 0 && d > 0 {
      TreeUnfold(disk, b, d, n);
      InRangeCat(disk, [b], TablesOf(disk, Entries(disk, b), d - 1, n));
      assert b in [b];
      ForestSize(e, disk, Entries(disk, b), d - 1, n);
    }
  }

  lemma {:induction false} ForestSize(e: nat, disk: seq<Block>, es: seq<Word>, d: nat, n: nat)
    requires Uniform(e, disk) && InRange(disk, TablesOf(disk, es, d, n))
    ensures |TablesOf(disk, es, d, n)| + |LeavesOf(disk, es, d, n)| == NeedOf(e, d, |es|, n)
    decreases d, |es|
  {
    hide Leaves, LeavesOf, Tables, TablesOf;
    if n > 0 && es != [] {
      ForestCons(disk, es, d, n);
      var rest := n - |Leaves(disk, es[0], d, n)|;
      InRangeCat(disk, Tables(disk, es[0], d, n), TablesOf(disk, es[1..], d, rest));
      LeavesCount(e, disk, es[0], d, n);
      TreeSize(e, disk, es[0], d, n);
      ForestSize(e, disk, es[1..], d, rest);
    } else {
      ForestEmpty(disk, es, d, n);
    }
  }

  // ----- one tree

  /** From `s` to `t`, a tree of depth `d` with up to `n` data blocks has been built under block `b`. */
  ghost predicate Built(s: Snapshot, t: Snapshot, b: nat, d: nat, n: nat) {
    var ts, ls := Tables(t.disk, b, d, n), Leaves(t.disk, b, d, n);
    && Family(ts, ls)
    && Grown(s, t, Members(ts, ls))
    && |ts| + |ls| == Need(s.words, d, n)
    && |ls| == Min(n, Cap(s.words, d))
  }

  /** Exactly when there are enough free blocks the tree is built; otherwise every block is gone. */
  ghost predicate Outcome(s: Snapshot, t: Snapshot, b: nat, d: nat, n: nat, written: nat)
    requires s.Shape()
  {
    if |s.Free()| >= Need(s.words, d, n)
    then Built(s, t, b, d, n) && written == |Leaves(t.disk, b, d, n)|
    else Exhausted(s, t) && written < n && (s.Free() == {} ==> written == 0)
  }

  lemma GrownInRange(s: Snapshot, t: Snapshot, taken: set<nat>, bs: seq<nat>)
    requires Grown(s, t, taken) && SetOf(bs) <= taken
    ensures InRange(t.disk, bs)
  {
    forall b | b in bs
      ensures 0 < b < |t.disk|
    {
      assert b in SetOf(bs);
      NotBitmap(s, b);
    }
  }

  /** Blocks handed out earlier are not written by later allocations. */
  lemma GrownAgrees(s: Snapshot, t: Snapshot, u: Snapshot, old_: set<nat>, new_: set<nat>, bs: seq<nat>)
    requires Grown(s, t, old_) && Grown(t, u, new_) && SetOf(bs) <= old_
    ensures AgreeOn(t.disk, u.disk, bs)
  {
    hide Snapshot.Valid, Snapshot.Free;
    forall b | b in bs && b < |t.disk|
      ensures t.disk[b] == u.disk[b]
    {
      assert b in SetOf(bs);
      NotBitmap(s, b);
      SameBitmaps(s, t, b);
    }
  }

  /** A single data block is a tree of depth 0. */
  lemma BlockIsBuilt(s: Snapshot, t: Snapshot, b: nat, n: nat)
    requires n > 0 && Grown(s, t, {b})
    ensures Built(s, t, b, 0, n) && Leaves(t.disk, b, 0, n) == [b]
  {
    assert Members([], [b]) == {b};
  }

  /** Table `target` and the trees under its entries `es` exist; entries after them are still to come. */
  ghost predicate Building(s: Snapshot, t: Snapshot, target: nat, d: nat, n: nat, es: seq<Word>) {
    var ts, ls := TablesOf(t.disk, es, d, n), LeavesOf(t.disk, es, d, n);
    && |es| <= s.words
    && Family(ts, ls)
    && target !in Members(ts, ls)
    && Grown(s, t, {target} + Members(ts, ls))
    && |ts| + |ls| + NeedOf(s.words, d, s.words - |es|, n - |ls|) == NeedOf(s.words, d, s.words, n)
  }

  lemma BuildStart(s: Snapshot, t: Snapshot, target: nat, d: nat, n: nat)
    requires Grown(s, t, {target})
    ensures Building(s, t, target, d, n, []) && LeavesOf(t.disk, [], d, n) == []
  {
    hide Leaves, LeavesOf, Tables, TablesOf, Grown, Need, NeedOf;
    ForestEmpty(t.disk, [], d, n);
    assert Members([], []) == {};
    assert {target} + {} == {target};
  }

  lemma TablesAreMembers(ts: seq<nat>, ls: seq<nat>)
    ensures SetOf(ts) <= Members(ts, ls) && SetOf(ls) <= Members(ts, ls)
  {
  }

  /** The frame part of a step: what was built stays, and the new tree is appended. */
  lemma BuildAppend(s: Snapshot, t: Snapshot, u: Snapshot, target: nat, d: nat, n: nat, es: seq<Word>, x: Word)
    requires Building(s, t, target, d, n, es)
    requires Built(t, u, x, d, n - |LeavesOf(t.disk, es, d, n)|)
    ensures var m := n - |LeavesOf(t.disk, es, d, n)|;
      && TablesOf(u.disk, es + [x], d, n) == TablesOf(t.disk, es, d, n) + Tables(u.disk, x, d, m)
      && LeavesOf(u.disk, es + [x], d, n) == LeavesOf(t.disk, es, d, n) + Leaves(u.disk, x, d, m)
  {
    hide Leaves, LeavesOf, Tables, TablesOf, Family, Need, NeedOf, Cap, Grown, Members;
    var ts, ls := TablesOf(t.disk, es, d, n), LeavesOf(t.disk, es, d, n);
    var m := n - |ls|;
    var ts', ls' := Tables(u.disk, x, d, m), Leaves(u.disk, x, d, m);
    TablesAreMembers(ts, ls);
    GrownAgrees(s, t, u, {target} + Members(ts, ls), Members(ts', ls'), ts);
    ForestFrame(t.disk, u.disk, es, d, n);
    LeavesOfCat(u.disk, es, [x], d, n);
    TablesOfCat(u.disk, es, [x], d, n);
    ForestOne(u.disk, x, d, m);
  }

  lemma BuildStep(s: Snapshot, t: Snapshot, u: Snapshot, target: nat, d: nat, n: nat, es: seq<Word>, x: Word)
    requires |es| < s.words && |LeavesOf(t.disk, es, d, n)| < n
    requires Building(s, t, target, d, n, es)
    requires Built(t, u, x, d, n - |LeavesOf(t.disk, es, d, n)|)
    ensures Building(s, u, target, d, n, es + [x])
    ensures |LeavesOf(u.disk, es + [x], d, n)|
         == |LeavesOf(t.disk, es, d, n)| + |Leaves(u.disk, x, d, n - |LeavesOf(t.disk, es, d, n)|)|
  {
    hide Leaves, LeavesOf, Tables, TablesOf, Family, Need, Cap, Members, Grown;
    var ts, ls := TablesOf(t.disk, es, d, n), LeavesOf(t.disk, es, d, n);
    var m := n - |ls|;
    var ts', ls' := Tables(u.disk, x, d, m), Leaves(u.disk, x, d, m);
    BuildAppend(s, t, u, target, d, n, es, x);
    GrownTrans(s, t, u, {target} + Members(ts, ls), Members(ts', ls'));
    FamilyCat(ts, ls, ts', ls');
    assert {target} + Members(ts, ls) + Members(ts', ls') == {target} + Members(ts + ts', ls + ls');
    SameWords(s, t, {target} + Members(ts, ls));
  }

  lemma SameWords(s: Snapshot, t: Snapshot, taken: set<nat>)
    requires Grown(s, t, taken)
    ensures t.words == s.words && t.Shape() && s.Shape() && Uniform(s.words, t.disk)
    ensures |t.disk| == |s.disk| <= 0x1_0000_0000
    ensures t.Free() == s.Free() - taken
    ensures taken <= s.Free()
  {
  }

  /** The tree under a table that has just been written. */
  lemma TableWritten(disk: seq<Block>, target: nat, d: nat, n: nat, es: seq<Word>, rest: seq<Word>)
    requires n > 0 && target < |disk|
    requires target !in Members(TablesOf(disk, es, d, n), LeavesOf(disk, es, d, n))
    requires |LeavesOf(disk, es, d, n)| == n || rest == []
    ensures var disk' := disk[target := es + rest];
      && Leaves(disk', target, d + 1, n) == LeavesOf(disk, es, d, n)
      && Tables(disk', target, d + 1, n) == [target] + TablesOf(disk, es, d, n)
  {
    hide Leaves, LeavesOf, Tables, TablesOf, Members;
    var disk' := disk[target := es + rest];
    var ts, ls := TablesOf(disk, es, d, n), LeavesOf(disk, es, d, n);
    TargetNotInside(disk, disk', target, ts, ls);
    ForestFrame(disk, disk', es, d, n);
    LeavesOfCat(disk', es, rest, d, n);
    TablesOfCat(disk', es, rest, d, n);
    ForestEmpty(disk', rest, d, n - |ls|);
    TreeUnfold(disk', target, d + 1, n);
  }

  /** All entries are in place: writing the table completes the tree. */
  lemma BuildEnd(s: Snapshot, t: Snapshot, target: nat, d: nat, n: nat, es: seq<Word>, rest: seq<Word>)
    requires n > 0 && Building(s, t, target, d, n, es) && |es| + |rest| == s.words
    requires |LeavesOf(t.disk, es, d, n)| == n || rest == []
    requires target < |t.disk|
    ensures Built(s, t.(disk := t.disk[target := es + rest]), target, d + 1, n)
    ensures Leaves(t.disk[target := es + rest], target, d + 1, n) == LeavesOf(t.disk, es, d, n)
  {
    hide Leaves, LeavesOf, Tables, TablesOf, Members, Grown, Family, Cap;
    var ts, ls := TablesOf(t.disk, es, d, n), LeavesOf(t.disk, es, d, n);
    var taken := {target} + Members(ts, ls);
    SameWords(s, t, taken);
    GrownPut(s, t, taken, target, es + rest);
    TableWritten(t.disk, target, d, n, es, rest);
    FamilyUnder(target, ts, ls);
    var u := t.(disk := t.disk[target := es + rest]);
    SameWords(s, u, taken);
    TargetMembers(target, ts, ls);
    GrownInRange(s, u, taken, [target] + ts);
    LeavesCount(s.words, u.disk, target, d + 1, n);
  }

  lemma TargetNotInside(disk: seq<Block>, disk': seq<Block>, target: nat, ts: seq<nat>, ls: seq<nat>)
    requires target !in Members(ts, ls) && target < |disk| == |disk'|
    requires forall b :: 0 <= b < |disk| && b != target ==> disk'[b] == disk[b]
    ensures AgreeOn(disk, disk', ts)
  {
    assert forall b :: b in ts ==> b in Members(ts, ls);
  }

  lemma TargetMembers(target: nat, ts: seq<nat>, ls: seq<nat>)
    ensures SetOf([target] + ts) <= {target} + Members(ts, ls)
    ensures Members([target] + ts, ls) == {target} + Members(ts, ls)
  {
  }

  lemma FamilyUnder(target: nat, ts: seq<nat>, ls: seq<nat>)
    requires Family(ts, ls) && target !in Members(ts, ls)
    ensures Family([target] + ts, ls)
    ensures Members([target] + ts, ls) == {target} + Members(ts, ls)
  {
    TargetMembers(target, ts, ls);
    assert target !in SetOf(ts) && target !in SetOf(ls);
  }
  // ----- allocation by levels

  lemma TakenCount(free: set<nat>, rest: set<nat>, target: nat, members: set<nat>)
    requires {target} + members <= free && rest == free - ({target} + members) && target !in members
    ensures |free| == |rest| + 1 + |members|
  {
    var taken := {target} + members;
    assert |taken| == 1 + |members|;
    assert free == taken + rest && taken !! rest;
  }

  lemma BuildingFacts(s: Snapshot, t: Snapshot, target: nat, d: nat, n: nat, es: seq<Word>)
    requires Building(s, t, target, d, n, es)
    ensures s.Valid() && t.Valid() && t.words == s.words && |t.disk| == |s.disk|
    ensures target in s.Free() && 0 < target < |s.disk|
    ensures |s.Free()| == |t.Free()| + 1 + |TablesOf(t.disk, es, d, n)| + |LeavesOf(t.disk, es, d, n)|
    ensures |TablesOf(t.disk, es, d, n)| + |LeavesOf(t.disk, es, d, n)|
          + NeedOf(s.words, d, s.words - |es|, n - |LeavesOf(t.disk, es, d, n)|) == NeedOf(s.words, d, s.words, n)
  {
    hide Leaves, LeavesOf, Tables, TablesOf, Members, Grown, Family, NeedOf, Snapshot.Valid, Snapshot.Free;
    var ts, ls := TablesOf(t.disk, es, d, n), LeavesOf(t.disk, es, d, n);
    var taken := {target} + Members(ts, ls);
    SameWords(s, t, taken);
    GrownValid(s, t, taken);
    FamilySize(ts, ls);
    assert target in taken;
    NotBitmap(s, target);
    TakenCount(s.Free(), t.Free(), target, Members(ts, ls));
  }

  lemma GrownValid(s: Snapshot, t: Snapshot, taken: set<nat>)
    requires Grown(s, t, taken)
    ensures s.Valid() && t.Valid() && t.SameLayout(s)
  {
  }

  lemma NeedPositive(e: nat, d: nat, n: nat)
    requires n > 0
    ensures Need(e, d, n) > 0
  {
  }

  lemma NeedOfAtLeastOne(e: nat, d: nat, k: nat, n: nat)
    requires n > 0 && k > 0
    ensures NeedOf(e, d, k, n) >= Need(e, d, n)
  {
  }

  lemma NeedOfDone(e: nat, d: nat, k: nat, n: nat)
    requires n == 0 || k == 0
    ensures NeedOf(e, d, k, n) == 0
  {
  }

  lemma NeedUnfold(e: nat, d: nat, n: nat)
    requires n > 0
    ensures Need(e, d + 1, n) == 1 + NeedOf(e, d, e, n)
  {
  }

  /** If the next tree cannot be built there were not enough blocks for the whole, and none is left. */
  lemma BuildFails(s: Snapshot, t: Snapshot, u: Snapshot, target: nat, d: nat, n: nat, es: seq<Word>)
    requires Building(s, t, target, d, n, es) && |es| < s.words && |LeavesOf(t.disk, es, d, n)| < n
    requires Exhausted(t, u) && |t.Free()| < Need(s.words, d, n - |LeavesOf(t.disk, es, d, n)|)
    ensures s.Valid() && u.Valid() && target in s.Free()
    ensures Exhausted(s, u) && |s.Free()| < Need(s.words, d + 1, n)
  {
    hide LeavesOf, TablesOf, Leaves, Tables, Members, Need, NeedOf, Grown, Family, Snapshot.Valid, Snapshot.Free;
    var ts, ls := TablesOf(t.disk, es, d, n), LeavesOf(t.disk, es, d, n);
    BuildingFacts(s, t, target, d, n, es);
    NeedOfAtLeastOne(s.words, d, s.words - |es|, n - |ls|);
    NeedUnfold(s.words, d, n);
    GrownTrans(s, t, u, {target} + Members(ts, ls), t.Free());
    SameWords(s, t, {target} + Members(ts, ls));
    assert {target} + Members(ts, ls) + t.Free() == s.Free();
    ExhaustedFacts(t, u);
  }

  lemma BuildFits(s: Snapshot, t: Snapshot, target: nat, d: nat, n: nat, es: seq<Word>)
    requires n > 0 && Building(s, t, target, d, n, es)
    requires |es| == s.words || |LeavesOf(t.disk, es, d, n)| == n
    ensures s.Valid() && |s.Free()| >= Need(s.words, d + 1, n)
  {
    hide LeavesOf, TablesOf, Leaves, Tables, Members, Need, NeedOf, Grown, Family, Snapshot.Valid, Snapshot.Free;
    BuildingFacts(s, t, target, d, n, es);
    NeedOfDone(s.words, d, s.words - |es|, n - |LeavesOf(t.disk, es, d, n)|);
    NeedUnfold(s.words, d, n);
  }

  lemma NothingFree(s: Snapshot, d: nat, n: nat)
    requires s.Valid() && s.Free() == {} && n > 0
    ensures Outcome(s, s, 0, d, n, 0)
  {
    GrownNothing(s);
    NeedPositive(s.words, d, n);
  }

  lemma StayExhausted(s: Snapshot, t: Snapshot, u: Snapshot)
    requires Exhausted(s, t) && Exhausted(t, u)
    ensures Exhausted(s, u) && t.Free() == {}
  {
    hide Snapshot.Valid, Snapshot.Free;
    GrownTrans(s, t, u, s.Free(), t.Free());
  }

  lemma ExhaustedPut(s: Snapshot, t: Snapshot, b: nat, blk: Block)
    requires Exhausted(s, t) && b in s.Free() && |blk| == t.words
    ensures s.Valid() && b < |t.disk| && Exhausted(s, t.(disk := t.disk[b := blk]))
  {
    NotBitmap(s, b);
    GrownPut(s, t, s.Free(), b, blk);
  }

  lemma BuildOutcome(s: Snapshot, t: Snapshot, target: nat, d: nat, n: nat, es: seq<Word>, rest: seq<Word>)
    requires n > 0 && Building(s, t, target, d, n, es) && |es| + |rest| == s.words
    requires |LeavesOf(t.disk, es, d, n)| == n || rest == []
    ensures 0 < target < |t.disk| && s.Valid()
    ensures t.(disk := t.disk[target := es + rest]).Valid()
    ensures Outcome(s, t.(disk := t.disk[target := es + rest]), target, d + 1, n, |LeavesOf(t.disk, es, d, n)|)
  {
    hide LeavesOf, TablesOf, Leaves, Tables, Members, Need, NeedOf, Grown, Cap, Family;
    BuildingFacts(s, t, target, d, n, es);
    BuildFits(s, t, target, d, n, es);
    BuildEnd(s, t, target, d, n, es, rest);
    var u := t.(disk := t.disk[target := es + rest]);
    GrownValid(s, u, Members(Tables(u.disk, target, d + 1, n), Leaves(u.disk, target, d + 1, n)));
  }

  /** ext2_allocate_indirect_block. */
  method AllocateIndirect(p: Partition, n: nat) returns (written: nat, target: Word)
    requires p.Valid() && n > 0
    modifies p
    ensures p.Valid() && Outcome(old(p.Value()), p.Value(), target, 1, n, written)
  {
    hide Building, Built, Exhausted, Grown, LeavesOf, TablesOf, Need, Snapshot.Valid, Snapshot.Free;
    hide HandedOut, Outcome, Snapshot.SameLayout;
    ghost var s := p.Value();
    ShapeOf(s);
    var first := AllocateBlock(p);
    if first == 0 {
      NothingFree(s, 1, n);
      return 0, 0;
    }
    BlockTaken(s, p.Value(), first);
    target := first;
    BuildStart(s, p.Value(), target, 0, n);
    var buf: Block := p.BlockBuffer();
    written := 0;
    var j := 0;
    while j < p.words
      invariant p.Valid() && p.words == s.words && j <= p.words == |buf|
      invariant Building(s, p.Value(), target, 0, n, buf[..j])
      invariant written == |LeavesOf(p.disk, buf[..j], 0, n)| <= n
    {
      if written == n {
        break;
      }
      ghost var t := p.Value();
      ShapeOf(t);
      var block := AllocateBlock(p);
      if block == 0 {
        NoBlockForTable(s, t, target, n, buf[..j]);
        return 0, target;
      }
      OneMoreBlock(s, t, p.Value(), target, n, buf[..j], block);
      assert buf[j := block][..j + 1] == buf[..j] + [block];
      buf := buf[j := block];
      written := written + 1;
      j := j + 1;
    }
    assert buf == buf[..j] + buf[j..];
    BuildOutcome(s, p.Value(), target, 0, n, buf[..j], buf[j..]);
    var _ := p.WriteBlock(target, buf);
  }

  lemma BlockTaken(s: Snapshot, t: Snapshot, b: nat)
    requires s.Valid() && t.Valid() && t.SameLayout(s)
    requires HandedOut(s, t, b) && t.Free() == s.Free() - {b}
    ensures Grown(s, t, {b}) && 0 < b < 0x1_0000_0000
  {
    hide Snapshot.Free;
    GrownByOne(s, t, b);
    NotBitmap(s, b);
  }

  /** The volume ran full while an indirect table was being filled. */
  lemma NoBlockForTable(s: Snapshot, t: Snapshot, target: nat, n: nat, es: seq<Word>)
    requires Building(s, t, target, 0, n, es) && |es| < s.words && |LeavesOf(t.disk, es, 0, n)| < n
    requires t.Valid() && t.Free() == {}
    ensures s.Valid() && Outcome(s, t, target, 1, n, 0)
  {
    hide Building, Exhausted, Grown, LeavesOf, Need, Outcome, Snapshot.Valid, Snapshot.Free;
    NoBlockExhausts(t, n - |LeavesOf(t.disk, es, 0, n)|);
    BuildingFacts(s, t, target, 0, n, es);
    BuildFails(s, t, t, target, 0, n, es);
    FailedOutcome(s, t, target, 1, n, 0);
  }

  /** One more entry of an indirect table. */
  lemma OneMoreBlock(s: Snapshot, t: Snapshot, u: Snapshot, target: nat, n: nat, es: seq<Word>, block: nat)
    requires Building(s, t, target, 0, n, es) && |es| < s.words && |LeavesOf(t.disk, es, 0, n)| < n
    requires t.Valid() && u.Valid() && u.SameLayout(t) && HandedOut(t, u, block) && u.Free() == t.Free() - {block}
    ensures block < 0x1_0000_0000
    ensures Building(s, u, target, 0, n, es + [block])
    ensures |LeavesOf(u.disk, es + [block], 0, n)| == |LeavesOf(t.disk, es, 0, n)| + 1
  {
    hide Building, Built, Grown, LeavesOf, Leaves, HandedOut, Snapshot.Valid, Snapshot.Free;
    BlockTaken(t, u, block);
    BlockIsBuilt(t, u, block, n - |LeavesOf(t.disk, es, 0, n)|);
    BuildStep(s, t, u, target, 0, n, es, block);
  }

  lemma NoBlockExhausts(s: Snapshot, n: nat)
    requires s.Valid() && s.Free() == {} && n > 0
    ensures Exhausted(s, s) && |s.Free()| < Need(s.words, 0, n)
  {
    GrownNothing(s);
  }

  lemma FailedOutcome(s: Snapshot, t: Snapshot, b: nat, d: nat, n: nat, written: nat)
    requires s.Valid() && Exhausted(s, t) && |s.Free()| < Need(s.words, d, n)
    requires written < n && (s.Free() == {} ==> written == 0)
    ensures t.Valid() && Outcome(s, t, b, d, n, written)
  {
  }

  /** The loop over a double or triple indirect table: still building, or all blocks are gone. */
  ghost predicate InProgress(s: Snapshot, t: Snapshot, target: nat, d: nat, n: nat, es: seq<Word>, written: nat, failed: bool)
  {
    && s.Valid() && target in s.Free()
    && if failed
       then Exhausted(s, t) && |s.Free()| < Need(s.words, d + 1, n) && written < n
       else Building(s, t, target, d, n, es) && written == |LeavesOf(t.disk, es, d, n)|
  }

  lemma SubtreeStep(s: Snapshot, t: Snapshot, u: Snapshot, target: nat, d: nat, n: nat, es: seq<Word>, written: nat,
                    failed: bool, entry: Word, more: nat)
    requires InProgress(s, t, target, d, n, es, written, failed) && |es| < s.words && written < n
    requires t.Valid() && t.words == s.words
    requires Outcome(t, u, entry, d, n - written, more)
    ensures u.words == s.words && written + more <= n
    ensures InProgress(s, u, target, d, n, es + [entry], written + more,
                       failed || |t.Free()| < Need(s.words, d, n - written))
  {
    hide Building, Built, Exhausted, LeavesOf, TablesOf, Need, Snapshot.Valid, Snapshot.Free;
    NeedPositive(s.words, d, n - written);
    ShapeOf(t);
    if failed {
      ExhaustedMeansNone(s, t);
      StayExhausted(s, t, u);
      ExhaustedFacts(t, u);
    } else if |t.Free()| < Need(s.words, d, n - written) {
      BuildFails(s, t, u, target, d, n, es);
      ExhaustedFacts(t, u);
    } else {
      BuildStep(s, t, u, target, d, n, es, entry);
      BuildingFacts(s, u, target, d, n, es + [entry]);
    }
  }

  lemma ExhaustedMeansNone(s: Snapshot, t: Snapshot)
    requires Exhausted(s, t)
    ensures s.Shape() && t.Shape() && t.Free() == {}
  {
  }

  lemma ExhaustedFacts(s: Snapshot, t: Snapshot)
    requires Exhausted(s, t)
    ensures t.Valid() && t.words == s.words && |t.disk| == |s.disk|
  {
  }

  lemma TableOutcome(s: Snapshot, t: Snapshot, target: nat, d: nat, n: nat, es: seq<Word>, rest: seq<Word>,
                     written: nat, failed: bool)
    requires n > 0 && InProgress(s, t, target, d, n, es, written, failed) && |es| + |rest| == s.words
    requires written == n || rest == []
    ensures 0 < target < |t.disk| && t.Valid()
    ensures t.(disk := t.disk[target := es + rest]).Valid()
    ensures Outcome(s, t.(disk := t.disk[target := es + rest]), target, d + 1, n, written)
  {
    hide Building, Built, Exhausted, LeavesOf, TablesOf, Need, Snapshot.Valid, Snapshot.Free;
    if failed {
      NotBitmap(s, target);
      ExhaustedFacts(s, t);
      ExhaustedPut(s, t, target, es + rest);
      FailedOutcome(s, t.(disk := t.disk[target := es + rest]), target, d + 1, n, written);
    } else {
      BuildingFacts(s, t, target, d, n, es);
      BuildOutcome(s, t, target, d, n, es, rest);
    }
  }

  /** ext2_allocate_double_indirect_block. */
  method AllocateDouble(p: Partition, n: nat) returns (written: nat, target: Word)
    requires p.Valid() && n > 0
    modifies p
    ensures p.Valid() && Outcome(old(p.Value()), p.Value(), target, 2, n, written)
  {
    hide Building, Built, Exhausted, Grown, Outcome, LeavesOf, TablesOf, Need, Snapshot.Valid, Snapshot.Free;
    ghost var s := p.Value();
    ShapeOf(s);
    var first := AllocateBlock(p);
    if first == 0 {
      NothingFree(s, 2, n);
      return 0, 0;
    }
    BlockTaken(s, p.Value(), first);
    target := first;
    BuildStart(s, p.Value(), target, 1, n);
    var buf: Block := p.BlockBuffer();
    written := 0;
    var j := 0;
    ghost var failed := false;
    while j < p.words
      invariant p.Valid() && p.words == s.words && j <= p.words == |buf| && written <= n
      invariant InProgress(s, p.Value(), target, 1, n, buf[..j], written, failed)
    {
      if written == n {
        break;
      }
      ghost var t := p.Value();
      ShapeOf(t);
      var more, entry := AllocateIndirect(p, n - written);
      SubtreeStep(s, t, p.Value(), target, 1, n, buf[..j], written, failed, entry, more);
      failed := failed || |t.Free()| < Need(s.words, 1, n - written);
      assert buf[j := entry][..j + 1] == buf[..j] + [entry];
      buf := buf[j := entry];
      written := written + more;
      j := j + 1;
    }
    assert buf == buf[..j] + buf[j..];
    TableOutcome(s, p.Value(), target, 1, n, buf[..j], buf[j..], written, failed);
    var _ := p.WriteBlock(target, buf);
  }

  /** ext2_allocate_triple_indirect_block. */
  method AllocateTriple(p: Partition, n: nat) returns (written: nat, target: Word)
    requires p.Valid() && n > 0
    modifies p
    ensures p.Valid() && Outcome(old(p.Value()), p.Value(), target, 3, n, written)
  {
    hide Building, Built, Exhausted, Grown, Outcome, LeavesOf, TablesOf, Need, Snapshot.Valid, Snapshot.Free;
    ghost var s := p.Value();
    ShapeOf(s);
    var first := AllocateBlock(p);
    if first == 0 {
      NothingFree(s, 3, n);
      return 0, 0;
    }
    BlockTaken(s, p.Value(), first);
    target := first;
    BuildStart(s, p.Value(), target, 2, n);
    var buf: Block := p.BlockBuffer();
    written := 0;
    var j := 0;
    ghost var failed := false;
    while j < p.words
      invariant p.Valid() && p.words == s.words && j <= p.words == |buf| && written <= n
      invariant InProgress(s, p.Value(), target, 2, n, buf[..j], written, failed)
    {
      if written == n {
        break;
      }
      ghost var t := p.Value();
      ShapeOf(t);
      var more, entry := AllocateDouble(p, n - written);
      SubtreeStep(s, t, p.Value(), target, 2, n, buf[..j], written, failed, entry, more);
      failed := failed || |t.Free()| < Need(s.words, 2, n - written);
      assert buf[j := entry][..j + 1] == buf[..j] + [entry];
      buf := buf[j := entry];
      written := written + more;
      j := j + 1;
    }
    assert buf == buf[..j] + buf[j..];
    TableOutcome(s, p.Value(), target, 2, n, buf[..j], buf[j..], written, failed);
    var _ := p.WriteBlock(target, buf);
  }
}
