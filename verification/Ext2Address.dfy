/** Where a block of a file is, in the numbers on the disk. */
module Ext2Address {
  import opened Division
  import opened Words
  import opened Ext2Volume
  import opened Ext2Tree
  import opened Ext2Read
  import opened Ext2File
  import opened Ext2Bytes

  /** Going down from block `b` over `d` levels of tables, `x` picks the block `r`. */
  ghost predicate LeadsTo(e: nat, disk: seq<Block>, b: nat, d: nat, x: nat, r: nat)
    requires e > 0
    decreases d
  {
    if d == 0 then x == 0 && r == b
    else
      CapPositive(e, d - 1);
      var i := x / Cap(e, d - 1);
      0 < b < |disk| && 0 <= i < |disk[b]| && LeadsTo(e, disk, disk[b][i], d - 1, x % Cap(e, d - 1), r)
  }

  lemma {:induction false} LeafAt(e: nat, disk: seq<Block>, b: nat, d: nat, n: nat, x: nat)
    requires e > 0 && Uniform(e, disk) && InRange(disk, Tables(disk, b, d, n)) && x < |Leaves(disk, b, d, n)|
    ensures LeadsTo(e, disk, b, d, x, Leaves(disk, b, d, n)[x])
    decreases d, 0
  {
    if d > 0 {
      hide Leaves, Tables, LeavesOf, TablesOf;
      TreeEmpty(disk, b, d, n);
      TreeUnfold(disk, b, d, n);
      InRangeCat(disk, [b], TablesOf(disk, Entries(disk, b), d - 1, n));
      assert b in [b];
      CapPositive(e, d - 1);
      ForestAt(e, disk, Entries(disk, b), d - 1, n, x);
    }
  }

  lemma TreeEmpty(disk: seq<Block>, b: nat, d: nat, n: nat)
    ensures n == 0 ==> Leaves(disk, b, d, n) == []
  {
  }

  lemma {:induction false} ForestAt(e: nat, disk: seq<Block>, es: seq<Word>, d: nat, n: nat, x: nat)
    requires e > 0 && Uniform(e, disk) && InRange(disk, TablesOf(disk, es, d, n)) && x < |LeavesOf(disk, es, d, n)|
    ensures Cap(e, d) > 0 && 0 <= x / Cap(e, d) < |es|
    ensures LeadsTo(e, disk, es[x / Cap(e, d)], d, x % Cap(e, d), LeavesOf(disk, es, d, n)[x])
    decreases d, |es|
  {
    hide Leaves, Tables, LeavesOf, TablesOf, LeadsTo, Cap;
    CapPositive(e, d);
    if n == 0 || es == [] {
      ForestEmpty(disk, es, d, n);
    } else {
      var c := Cap(e, d);
      var first := Leaves(disk, es[0], d, n);
      ForestCons(disk, es, d, n);
      InRangeCat(disk, Tables(disk, es[0], d, n), TablesOf(disk, es[1..], d, n - |first|));
      LeavesCount(e, disk, es[0], d, n);
      if x < |first| {
        LeafAt(e, disk, es[0], d, n, x);
        QuotientIs(x, c, 0, x);
      } else {
        ForestAt(e, disk, es[1..], d, n - |first|, x - c);
        OneLess(x, c);
      }
    }
  }

  lemma OneLess(x: nat, c: nat)
    requires 0 < c <= x
    ensures x / c == (x - c) / c + 1 && x % c == (x - c) % c
  {
    var q, r := (x - c) / c, (x - c) % c;
    assert x - c == q * c + r;
    assert (q + 1) * c == q * c + c;
    QuotientIs(x, c, q + 1, r);
  }

  // ----- the stages of a file

  lemma DirectAt(disk: seq<Block>, ib: BlockMap, n: nat, k: nat)
    requires FileOk(disk, ib, n) && k < n
    ensures k < 12 ==> FileBlocks(disk, ib, n)[k] == ib[k]
    ensures k >= 12 ==> Reachable(disk, ib, 1, n - 12) && FileBlocks(disk, ib, n)[k] == FileFrom(disk, ib, 1, n - 12)[k - 12]
  {
    hide LeavesOf, TablesOf, FileFrom, FileTablesFrom;
    StageUnfold(disk, ib, 0, n);
    DirectLeaves(disk, ib[..DIRECT], n);
    var here := LeavesOf(disk, ib[..DIRECT], 0, n);
    InRangeCat(disk, here, FileFrom(disk, ib, 1, n - |here|));
    InRangeCat(disk, TablesOf(disk, ib[..DIRECT], 0, n), FileTablesFrom(disk, ib, 1, n - |here|));
  }

  lemma StageAt(e: nat, disk: seq<Block>, ib: BlockMap, s: nat, n: nat, k: nat)
    requires e > 0 && Uniform(e, disk) && 1 <= s <= 3 && Reachable(disk, ib, s, n) && k < n
    ensures k < Cap(e, s) ==> LeadsTo(e, disk, ib[11 + s], s, k, FileFrom(disk, ib, s, n)[k])
    ensures k >= Cap(e, s) ==>
      && n >= Cap(e, s) && Reachable(disk, ib, s + 1, n - Cap(e, s))
      && FileFrom(disk, ib, s, n)[k] == FileFrom(disk, ib, s + 1, n - Cap(e, s))[k - Cap(e, s)]
  {
    hide LeavesOf, TablesOf, Leaves, Tables, FileFrom, FileTablesFrom, Cap, LeadsTo;
    var root := ib[11 + s];
    StageUnfold(disk, ib, s, n);
    ForestOne(disk, root, s, n);
    assert Stage(ib, s) == [root];
    var here := Leaves(disk, root, s, n);
    InRangeCat(disk, here, FileFrom(disk, ib, s + 1, n - |here|));
    InRangeCat(disk, Tables(disk, root, s, n), FileTablesFrom(disk, ib, s + 1, n - |here|));
    LeavesCount(e, disk, root, s, n);
    if k < Cap(e, s) {
      LeafAt(e, disk, root, s, n, k);
    }
  }

  /** No file goes on behind its triple indirect block. */
  lemma BehindTriple(disk: seq<Block>, ib: BlockMap, n: nat)
    requires Reachable(disk, ib, 4, n)
    ensures n == 0
  {
  }

  lemma Caps(e: nat)
    ensures Cap(e, 0) == 1 && Cap(e, 1) == e && Cap(e, 2) == e * e && Cap(e, 3) == e * (e * e)
  {
    assert Cap(e, 1) == e * Cap(e, 0);
    assert Cap(e, 2) == e * Cap(e, 1);
  }

  // ----- the address of a block

  lemma OneLevel(e: nat, disk: seq<Block>, b: nat, x: nat, r: nat)
    requires e > 0 && LeadsTo(e, disk, b, 1, x, r)
    ensures 0 < b < |disk| && x < |disk[b]| && r == disk[b][x]
  {
    Caps(e);
    assert x / 1 == x && x % 1 == 0;
  }

  lemma TwoLevels(e: nat, disk: seq<Block>, b: nat, x: nat, r: nat)
    requires e > 0 && LeadsTo(e, disk, b, 2, x, r)
    ensures 0 < b < |disk| && 0 <= x / e < |disk[b]|
    ensures var t := disk[b][x / e]; 0 < t < |disk| && 0 <= x % e < |disk[t]| && r == disk[t][x % e]
  {
    Caps(e);
    hide Cap;
    OneLevel(e, disk, disk[b][x / e], x % e, r);
  }

  lemma ThreeLevels(e: nat, disk: seq<Block>, b: nat, x: nat, r: nat)
    requires e > 0 && LeadsTo(e, disk, b, 3, x, r)
    ensures e * e > 0 && 0 < b < |disk| && 0 <= x / (e * e) < |disk[b]| && 0 <= x % (e * e)
    ensures LeadsTo(e, disk, disk[b][x / (e * e)], 2, x % (e * e), r)
  {
    Caps(e);
    CapPositive(e, 2);
    hide Cap;
  }

  /** Block `k` of a file of `n` blocks, with `e` entries in a table: a number in the inode, or the number found by one,
      two or three look-ups on the disk. */
  lemma BlockAddress(e: nat, disk: seq<Block>, ib: BlockMap, n: nat, k: nat)
    requires e > 0 && Uniform(e, disk) && FileOk(disk, ib, n) && k < n
    ensures k < 12 ==> FileBlocks(disk, ib, n)[k] == ib[k]
    ensures 12 <= k < 12 + e ==>
      0 < ib[12] < |disk| && k - 12 < |disk[ib[12]]| && FileBlocks(disk, ib, n)[k] == disk[ib[12]][k - 12]
    ensures 12 + e <= k < 12 + e + e * e ==>
      var x := k - 12 - e;
      && 0 < ib[13] < |disk| && 0 <= x / e < |disk[ib[13]]|
      && var t := disk[ib[13]][x / e];
      0 < t < |disk| && 0 <= x % e < |disk[t]| && FileBlocks(disk, ib, n)[k] == disk[t][x % e]
    ensures 12 + e + e * e <= k ==>
      var x := k - 12 - e - e * e;
      && e * e > 0 && 0 < ib[14] < |disk| && 0 <= x / (e * e) < |disk[ib[14]]|
      && var d, y := disk[ib[14]][x / (e * e)], x % (e * e);
      && 0 < d < |disk| && 0 <= y / e < |disk[d]|
      && var t := disk[d][y / e];
      0 < t < |disk| && 0 <= y % e < |disk[t]| && FileBlocks(disk, ib, n)[k] == disk[t][y % e]
  {
    hide FileBlocks, FileOk, FileFrom, Reachable, Uniform, LeadsTo, Cap;
    Caps(e);
    DirectAt(disk, ib, n, k);
    if k >= 12 {
      var r := FileBlocks(disk, ib, n)[k];
      StageAt(e, disk, ib, 1, n - 12, k - 12);
      if k < 12 + e {
        OneLevel(e, disk, ib[12], k - 12, r);
      } else {
        BehindDirect(e, disk, ib, n - 12 - e, k - 12 - e, r);
      }
    }
  }

  /** What is read as block `k` of a range is the block at that address. */
  lemma BlockOnDisk(disk: seq<Block>, ib: BlockMap, skip: nat, count: nat, k: nat)
    requires FileOk(disk, ib, skip + count) && k < count
    ensures |FileBlocks(disk, ib, skip + count)| == skip + count
    ensures var b := FileBlocks(disk, ib, skip + count)[skip + k];
      0 < b < |disk| && FileData(disk, ib, skip, count)[k] == disk[b]
  {
    hide FileBlocks, Gather, InRange, FileOk;
    var bs := FileBlocks(disk, ib, skip + count);
    assert FileData(disk, ib, skip, count) == Gather(disk, bs)[skip..];
    GatherAt(disk, bs, skip + k);
  }

  lemma BehindDirect(e: nat, disk: seq<Block>, ib: BlockMap, n: nat, x: nat, r: nat)
    requires e > 0 && Uniform(e, disk) && Reachable(disk, ib, 2, n) && x < n && r == FileFrom(disk, ib, 2, n)[x]
    ensures x < e * e ==>
      && 0 < ib[13] < |disk| && 0 <= x / e < |disk[ib[13]]|
      && var t := disk[ib[13]][x / e];
      0 < t < |disk| && 0 <= x % e < |disk[t]| && r == disk[t][x % e]
    ensures x >= e * e ==>
      && e * e > 0 && 0 < ib[14] < |disk| && 0 <= (x - e * e) / (e * e) < |disk[ib[14]]|
      && var d, y := disk[ib[14]][(x - e * e) / (e * e)], (x - e * e) % (e * e);
      && 0 < d < |disk| && 0 <= y / e < |disk[d]|
      && var t := disk[d][y / e];
      0 < t < |disk| && 0 <= y % e < |disk[t]| && r == disk[t][y % e]
  {
    hide FileFrom, Reachable, Uniform, LeadsTo, Cap;
    Caps(e);
    StageAt(e, disk, ib, 2, n, x);
    if x < e * e {
      TwoLevels(e, disk, ib[13], x, r);
    } else {
      var z := x - e * e;
      StageAt(e, disk, ib, 3, n - e * e, z);
      if z >= Cap(e, 3) {
        BehindTriple(disk, ib, n - e * e - Cap(e, 3));
      }
      ThreeLevels(e, disk, ib[14], z, r);
      TwoLevels(e, disk, disk[ib[14]][z / (e * e)], z % (e * e), r);
    }
  }
}
