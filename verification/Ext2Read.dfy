/** The four nested read walkers and the block-wise read of a file. */
module Ext2Read {
  import opened Words
  import opened Ext2Volume
  import opened Ext2Tree
  import opened Ext2Alloc

  /** Block counts stay below the values that double as failure codes. */
  const COUNT_LIMIT: int := WRITE_FAILED

  ghost function Gather(disk: seq<Block>, bs: seq<nat>): (data: seq<Block>)
    requires InRange(disk, bs)
    ensures |data| == |bs|
  {
    seq(|bs|, i requires 0 <= i < |bs| => assert bs[i] in bs; disk[bs[i]])
  }

  lemma GatherCat(disk: seq<Block>, a: seq<nat>, b: seq<nat>)
    requires InRange(disk, a) && InRange(disk, b)
    ensures InRange(disk, a + b)
    ensures Gather(disk, a + b) == Gather(disk, a) + Gather(disk, b)
  {
  }

  /** The blocks a forest walk needs are all addressable. */
  ghost predicate Walkable(disk: seq<Block>, es: seq<Word>, d: nat, n: nat)
    ensures Walkable(disk, es, d, n) ==> InRange(disk, LeavesOf(disk, es, d, n))
  {
    InRange(disk, TablesOf(disk, es, d, n)) && InRange(disk, LeavesOf(disk, es, d, n))
  }

  /** The walk over `es` has visited the trees before entry `i`: blocks `done`, contents `data`. */
  ghost predicate WalkedTo(disk: seq<Block>, es: seq<Word>, d: nat, n: nat, i: nat, done: seq<nat>, data: seq<Block>)
  {
    && i <= |es| && |done| <= n
    && InRange(disk, done) && data == Gather(disk, done)
    && LeavesOf(disk, es, d, n) == done + LeavesOf(disk, es[i..], d, n - |done|)
    && Walkable(disk, es[i..], d, n - |done|)
  }

  lemma WalkStart(disk: seq<Block>, es: seq<Word>, d: nat, n: nat)
    requires Walkable(disk, es, d, n)
    ensures WalkedTo(disk, es, d, n, 0, [], [])
  {
    assert es[0..] == es;
  }

  lemma ForestHead(e: nat, disk: seq<Block>, es: seq<Word>, d: nat, n: nat)
    requires e > 0 && Uniform(e, disk)
    requires n > 0 && es != [] && d > 0 && Walkable(disk, es, d, n)
    ensures 0 < es[0] < |disk|
    ensures Walkable(disk, disk[es[0]], d - 1, n)
    ensures |LeavesOf(disk, disk[es[0]], d - 1, n)| > 0
  {
    hide LeavesOf, TablesOf, Leaves, Tables;
    var b := es[0];
    TreeUnfold(disk, b, d, n);
    var first := Leaves(disk, b, d, n);
    ForestCons(disk, es, d, n);
    InRangeCat(disk, Tables(disk, b, d, n), TablesOf(disk, es[1..], d, n - |first|));
    InRangeCat(disk, first, LeavesOf(disk, es[1..], d, n - |first|));
    InRangeCat(disk, [b], TablesOf(disk, Entries(disk, b), d - 1, n));
    assert b in [b];
    CapPositive(e, d);
    LeavesCount(e, disk, b, d, n);
  }

  lemma WalkStep(e: nat, disk: seq<Block>, es: seq<Word>, d: nat, n: nat, i: nat, done: seq<nat>, data: seq<Block>)
    requires e > 0 && Uniform(e, disk)
    requires d > 0 && i < |es| && |done| < n && WalkedTo(disk, es, d, n, i, done, data)
    ensures 0 < es[i] < |disk|
    ensures Walkable(disk, disk[es[i]], d - 1, n - |done|)
    ensures |LeavesOf(disk, disk[es[i]], d - 1, n - |done|)| > 0
  {
    ForestHead(e, disk, es[i..], d, n - |done|);
  }

  lemma WalkChunk(disk: seq<Block>, es: seq<Word>, d: nat, n: nat, i: nat, done: seq<nat>, data: seq<Block>, chunk: seq<Block>)
    requires d > 0 && i < |es| && |done| < n && WalkedTo(disk, es, d, n, i, done, data)
    requires es[i] < |disk| && Walkable(disk, disk[es[i]], d - 1, n - |done|)
    requires chunk == Gather(disk, LeavesOf(disk, disk[es[i]], d - 1, n - |done|))
    ensures WalkedTo(disk, es, d, n, i + 1,
                     done + LeavesOf(disk, disk[es[i]], d - 1, n - |done|), data + chunk)
  {
    hide LeavesOf, TablesOf, Leaves, Tables;
    var m := n - |done|;
    var first := LeavesOf(disk, disk[es[i]], d - 1, m);
    TreeUnfold(disk, es[i], d, m);
    assert es[i..][0] == es[i] && es[i..][1..] == es[i + 1..];
    ForestCons(disk, es[i..], d, m);
    InRangeCat(disk, Tables(disk, es[i], d, m), TablesOf(disk, es[i + 1..], d, m - |first|));
    InRangeCat(disk, first, LeavesOf(disk, es[i + 1..], d, m - |first|));
    GatherCat(disk, done, first);
    Reassociate(LeavesOf(disk, es, d, n), done, first, LeavesOf(disk, es[i + 1..], d, m - |first|));
  }

  lemma WalkEnd(disk: seq<Block>, es: seq<Word>, d: nat, n: nat, i: nat, done: seq<nat>, data: seq<Block>)
    requires WalkedTo(disk, es, d, n, i, done, data) && (i == |es| || |done| == n)
    ensures LeavesOf(disk, es, d, n) == done && InRange(disk, done) && data == Gather(disk, done)
  {
    ForestEmpty(disk, es[i..], d, n - |done|);
  }

  lemma {:induction false} CapPositive(e: nat, d: nat)
    requires e > 0
    ensures Cap(e, d) > 0
  {
    if d > 0 {
      CapPositive(e, d - 1);
    }
  }

  function Rest(n: nat, used: nat): nat {
    if used <= n then n - used else 0
  }

  /** What a direct walk delivers: blocks of `wanted` in order, up to the first entry 0 or past the device. */
  ghost predicate DirectResult(disk: seq<Block>, wanted: seq<nat>, rc: int, data: seq<Block>) {
    && (rc == READ_FAILED || 0 <= rc <= |wanted|)
    && (rc == READ_FAILED ==> exists b :: b in wanted && b >= |disk|)
    && (rc != READ_FAILED ==> InRange(disk, wanted[..rc]) && data == Gather(disk, wanted[..rc]))
    && (rc != READ_FAILED && rc < |wanted| ==> wanted[rc] == 0)
  }

  lemma DirectAll(disk: seq<Block>, wanted: seq<nat>, rc: int, data: seq<Block>)
    requires DirectResult(disk, wanted, rc, data) && InRange(disk, wanted)
    ensures rc == |wanted| && data == Gather(disk, wanted)
  {
    assert forall k :: 0 <= k < |wanted| ==> wanted[k] in wanted;
    assert wanted[..|wanted|] == wanted;
  }

  ghost predicate ReadSoFar(disk: seq<Block>, wanted: seq<nat>, k: nat, data: seq<Block>) {
    k <= |wanted| && InRange(disk, wanted[..k]) && data == Gather(disk, wanted[..k])
  }

  lemma ReadOneMore(disk: seq<Block>, wanted: seq<nat>, k: nat, data: seq<Block>)
    requires k < |wanted| && ReadSoFar(disk, wanted, k, data) && 0 < wanted[k] < |disk|
    ensures ReadSoFar(disk, wanted, k + 1, data + [disk[wanted[k]]])
  {
    assert wanted[..k + 1] == wanted[..k] + [wanted[k]];
    GatherCat(disk, wanted[..k], [wanted[k]]);
  }

  lemma ReadStops(disk: seq<Block>, wanted: seq<nat>, k: nat, data: seq<Block>)
    requires ReadSoFar(disk, wanted, k, data) && k < COUNT_LIMIT
    ensures k == |wanted| || wanted[k] == 0 ==> DirectResult(disk, wanted, k, data)
    ensures k < |wanted| && wanted[k] >= |disk| ==> DirectResult(disk, wanted, READ_FAILED, data)
  {
    if k < |wanted| {
      assert wanted[k] in wanted;
    }
  }

  /** ext2_read_direct_blocks: skips `skip` entries, then reads until `count` blocks, the end or block 0. */
  method ReadDirect(p: Partition, blocks: seq<Word>, count: nat, skip: nat)
    returns (rc: int, data: seq<Block>, left: nat)
    requires p.Value().Shape() && 0 < count < COUNT_LIMIT
    ensures left == Rest(skip, |blocks|)
    ensures DirectResult(p.disk, LeavesOf(p.disk, blocks[Min(skip, |blocks|)..], 0, count), rc, data)
  {
    hide LeavesOf, InRange, ReadSoFar, DirectResult, Snapshot.Shape;
    left := skip;
    data := [];
    var read := 0;
    var i := 0;
    ghost var from := Min(skip, |blocks|);
    ghost var wanted := LeavesOf(p.disk, blocks[from..], 0, count);
    DirectLeaves(p.disk, blocks[from..], count);
    NothingRead(p.disk, wanted);
    while i < |blocks|
      invariant i <= |blocks| && left == Rest(skip, i)
      invariant 0 <= read == Rest(i, skip) && read < count && read <= |wanted|
      invariant ReadSoFar(p.disk, wanted, read, data)
    {
      if left > 0 {
        left := left - 1;
        i := i + 1;
        continue;
      }
      ReadStops(p.disk, wanted, read, data);
      var result, buf := p.ReadBlock(blocks[i]);
      if result == READ_FAILED {
        rc := READ_FAILED;
        return;
      } else if result == 0 {
        rc := read;
        return;
      }
      ReadOneMore(p.disk, wanted, read, data);
      data := data + [buf];
      read := read + result;
      if read == count {
        break;
      }
      i := i + 1;
    }
    ReadStops(p.disk, wanted, read, data);
    rc := read;
  }

  lemma NothingRead(disk: seq<Block>, wanted: seq<nat>)
    ensures ReadSoFar(disk, wanted, 0, [])
  {
  }

  lemma {:induction false} DirectLeaves(disk: seq<Block>, es: seq<Word>, n: nat)
    ensures LeavesOf(disk, es, 0, n) == es[..Min(n, |es|)]
    ensures TablesOf(disk, es, 0, n) == []
    decreases |es|
  {
    if n > 0 && es != [] {
      DirectLeaves(disk, es[1..], n - 1);
      assert Leaves(disk, es[0], 0, n) == [es[0]];
    }
  }

  /** ext2_read_indirect_blocks, entered with the skip counter at zero. */
  method ReadIndirect(p: Partition, blocks: seq<Word>, count: nat) returns (rc: int, data: seq<Block>)
    requires p.Value().Shape() && 0 < count < COUNT_LIMIT
    ensures rc == READ_FAILED || (0 <= rc <= count && (rc > 0 ==> |data| == rc))
    ensures Walkable(p.disk, blocks, 1, count) ==>
      rc == |LeavesOf(p.disk, blocks, 1, count)| && data == Gather(p.disk, LeavesOf(p.disk, blocks, 1, count))
  {
    hide LeavesOf, TablesOf, Leaves, Tables, Walkable, WalkedTo;
    ghost var ok := Walkable(p.disk, blocks, 1, count);
    ghost var done: seq<nat> := [];
    data := [];
    var read := 0;
    var i := 0;
    if ok {
      WalkStart(p.disk, blocks, 1, count);
    }
    while i < |blocks|
      invariant i <= |blocks| && read == |data| < count
      invariant ok ==> |done| == read && WalkedTo(p.disk, blocks, 1, count, i, done, data)
    {
      if ok {
        WalkStep(p.words, p.disk, blocks, 1, count, i, done, data);
      }
      var status, table := p.ReadBlock(blocks[i]);
      assert table[0..] == table;
      if status <= 0 {
        return READ_FAILED, data;
      }
      var result, chunk, _ := ReadDirect(p, table, count - read, 0);
      if ok {
        DirectAll(p.disk, LeavesOf(p.disk, table, 0, count - read), result, chunk);
      }
      if result == READ_FAILED || result == 0 {
        return result, data;
      }
      if ok {
        WalkChunk(p.disk, blocks, 1, count, i, done, data, chunk);
        done := done + LeavesOf(p.disk, table, 0, count - read);
      }
      data := data + chunk;
      read := read + result;
      if read == count {
        break;
      }
      i := i + 1;
    }
    if ok {
      WalkEnd(p.disk, blocks, 1, count, if read == count then i + 1 else i, done, data);
    }
    rc := read;
  }

  /** ext2_read_double_indirect_blocks, entered with the skip counter at zero. */
  method ReadDouble(p: Partition, blocks: seq<Word>, count: nat) returns (rc: int, data: seq<Block>)
    requires p.Value().Shape() && 0 < count < COUNT_LIMIT
    ensures rc == READ_FAILED || (0 <= rc <= count && (rc > 0 ==> |data| == rc))
    ensures Walkable(p.disk, blocks, 2, count) ==>
      rc == |LeavesOf(p.disk, blocks, 2, count)| && data == Gather(p.disk, LeavesOf(p.disk, blocks, 2, count))
  {
    hide LeavesOf, TablesOf, Leaves, Tables, Walkable, WalkedTo;
    ghost var ok := Walkable(p.disk, blocks, 2, count);
    ghost var done: seq<nat> := [];
    data := [];
    var read := 0;
    var i := 0;
    if ok {
      WalkStart(p.disk, blocks, 2, count);
    }
    while i < |blocks|
      invariant i <= |blocks| && read == |data| < count
      invariant ok ==> |done| == read && WalkedTo(p.disk, blocks, 2, count, i, done, data)
    {
      if ok {
        WalkStep(p.words, p.disk, blocks, 2, count, i, done, data);
      }
      var status, table := p.ReadBlock(blocks[i]);
      if status <= 0 {
        return READ_FAILED, data;
      }
      var result, chunk := ReadIndirect(p, table, count - read);
      if result == READ_FAILED || result == 0 {
        return result, data;
      }
      if ok {
        WalkChunk(p.disk, blocks, 2, count, i, done, data, chunk);
        done := done + LeavesOf(p.disk, table, 1, count - read);
      }
      data := data + chunk;
      read := read + result;
      if read == count {
        break;
      }
      i := i + 1;
    }
    if ok {
      WalkEnd(p.disk, blocks, 2, count, if read == count then i + 1 else i, done, data);
    }
    rc := read;
  }

  /** ext2_read_triple_indirect_blocks, entered with the skip counter at zero. */
  method ReadTriple(p: Partition, blocks: seq<Word>, count: nat) returns (rc: int, data: seq<Block>)
    requires p.Value().Shape() && 0 < count < COUNT_LIMIT
    ensures rc == READ_FAILED || (0 <= rc <= count && (rc > 0 ==> |data| == rc))
    ensures Walkable(p.disk, blocks, 3, count) ==>
      rc == |LeavesOf(p.disk, blocks, 3, count)| && data == Gather(p.disk, LeavesOf(p.disk, blocks, 3, count))
  {
    hide LeavesOf, TablesOf, Leaves, Tables, Walkable, WalkedTo;
    ghost var ok := Walkable(p.disk, blocks, 3, count);
    ghost var done: seq<nat> := [];
    data := [];
    var read := 0;
    var i := 0;
    if ok {
      WalkStart(p.disk, blocks, 3, count);
    }
    while i < |blocks|
      invariant i <= |blocks| && read == |data| < count
      invariant ok ==> |done| == read && WalkedTo(p.disk, blocks, 3, count, i, done, data)
    {
      if ok {
        WalkStep(p.words, p.disk, blocks, 3, count, i, done, data);
      }
      var status, table := p.ReadBlock(blocks[i]);
      if status <= 0 {
        return READ_FAILED, data;
      }
      var result, chunk := ReadDouble(p, table, count - read);
      if result == READ_FAILED || result == 0 {
        return result, data;
      }
      if ok {
        WalkChunk(p.disk, blocks, 3, count, i, done, data, chunk);
        done := done + LeavesOf(p.disk, table, 2, count - read);
      }
      data := data + chunk;
      read := read + result;
      if read == count {
        break;
      }
      i := i + 1;
    }
    if ok {
      WalkEnd(p.disk, blocks, 3, count, if read == count then i + 1 else i, done, data);
    }
    rc := read;
  }
}
