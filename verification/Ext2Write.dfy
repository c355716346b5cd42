/** The four nested write walkers and the block-wise write of a file. */
module Ext2Write {
  import opened Words
  import opened Ext2Volume
  import opened Ext2Tree
  import opened Ext2Alloc
  import opened Ext2Read

  /** The disk after block `bs[k]` has received `data[k]` for each `k` in turn. */
  ghost function PutAll(disk: seq<Block>, bs: seq<nat>, data: seq<Block>): (r: seq<Block>)
    requires InRange(disk, bs) && |bs| <= |data|
    ensures |r| == |disk|
    decreases |bs|
  {
    if bs == [] then disk
    else
      var k := |bs| - 1;
      assert bs[k] in bs;
      InRangeCat(disk, bs[..k], bs[k..]);
      assert bs == bs[..k] + bs[k..];
      PutAll(disk, bs[..k], data)[bs[k] := data[k]]
  }

  lemma {:induction false} PutAllElsewhere(disk: seq<Block>, bs: seq<nat>, data: seq<Block>)
    requires InRange(disk, bs) && |bs| <= |data|
    ensures forall b :: 0 <= b < |disk| && b !in bs ==> PutAll(disk, bs, data)[b] == disk[b]
    decreases |bs|
  {
    if bs != [] {
      var k := |bs| - 1;
      InRangeCat(disk, bs[..k], bs[k..]);
      assert bs == bs[..k] + bs[k..];
      PutAllElsewhere(disk, bs[..k], data);
    }
  }

  /** Only the first `|bs|` buffers matter. */
  lemma {:induction false} PutAllPrefix(disk: seq<Block>, bs: seq<nat>, data: seq<Block>, data': seq<Block>)
    requires InRange(disk, bs) && |bs| <= |data| && |bs| <= |data'|
    requires data[..|bs|] == data'[..|bs|]
    ensures PutAll(disk, bs, data) == PutAll(disk, bs, data')
    decreases |bs|
  {
    if bs != [] {
      var k := |bs| - 1;
      InRangeCat(disk, bs[..k], bs[k..]);
      assert bs == bs[..k] + bs[k..];
      assert data[..k] == data[..|bs|][..k] && data'[..k] == data'[..|bs|][..k];
      assert data[k] == data[..|bs|][k] && data'[k] == data'[..|bs|][k];
      PutAllPrefix(disk, bs[..k], data, data');
    }
  }

  lemma {:induction false} PutAllCat(disk: seq<Block>, a: seq<nat>, b: seq<nat>, data: seq<Block>)
    requires InRange(disk, a) && InRange(disk, b) && |a| + |b| <= |data|
    ensures InRange(disk, a + b)
    ensures PutAll(disk, a + b, data) == PutAll(PutAll(disk, a, data), b, data[|a|..])
    decreases |b|
  {
    InRangeCat(disk, a, b);
    if b == [] {
      assert a + b == a;
    } else {
      var k := |b| - 1;
      InRangeCat(disk, b[..k], b[k..]);
      assert b == b[..k] + b[k..];
      PutAllCat(disk, a, b[..k], data);
      assert (a + b)[..|a + b| - 1] == a + b[..k];
    }
  }

  lemma PutAllLast(disk: seq<Block>, bs: seq<nat>, data: seq<Block>)
    requires InRange(disk, bs) && |bs| <= |data| && bs != []
    ensures var k := |bs| - 1;
      && InRange(disk, bs[..k]) && 0 < bs[k] < |disk|
      && PutAll(disk, bs, data) == PutAll(disk, bs[..k], data)[bs[k] := data[k]]
  {
    var k := |bs| - 1;
    InRangeCat(disk, bs[..k], bs[k..]);
    assert bs == bs[..k] + bs[k..];
    assert bs[k] in bs;
  }

  /** Writing distinct blocks puts each piece of the data in its place. */
  lemma {:induction false} PutAllAt(disk: seq<Block>, bs: seq<nat>, data: seq<Block>, j: nat)
    requires InRange(disk, bs) && |bs| <= |data| && Distinct(bs) && j < |bs|
    ensures 0 < bs[j] < |disk| && PutAll(disk, bs, data)[bs[j]] == data[j]
    decreases |bs|
  {
    hide PutAll, InRange;
    PutAllLast(disk, bs, data);
    var k := |bs| - 1;
    if j < k {
      PutAllAt(disk, bs[..k], data, j);
    }
  }

  /** Writing distinct blocks and gathering them again gives the data back. */
  lemma PutAllThenGather(disk: seq<Block>, bs: seq<nat>, data: seq<Block>)
    requires InRange(disk, bs) && |bs| <= |data| && Distinct(bs)
    ensures InRange(PutAll(disk, bs, data), bs)
    ensures Gather(PutAll(disk, bs, data), bs) == data[..|bs|]
  {
    hide PutAll, Distinct;
    var after := PutAll(disk, bs, data);
    forall j | 0 <= j < |bs|
      ensures Gather(after, bs)[j] == data[..|bs|][j]
    {
      PutAllAt(disk, bs, data, j);
    }
  }

  ghost predicate SameSizes(disk: seq<Block>, disk': seq<Block>) {
    |disk| == |disk'| && forall b :: 0 <= b < |disk| ==> |disk'[b]| == |disk[b]|
  }

  lemma PutAllNothing(disk: seq<Block>, data: seq<Block>)
    ensures PutAll(disk, [], data) == disk
  {
  }

  lemma SameSizesRefl(disk: seq<Block>)
    ensures SameSizes(disk, disk)
  {
  }

  lemma ShapeUniform(s: Snapshot)
    requires s.Shape()
    ensures s.words > 0 && Uniform(s.words, s.disk)
  {
  }

  lemma UniformTail(e: nat, src: seq<Block>, k: nat)
    requires Uniform(e, src) && k <= |src|
    ensures Uniform(e, src[k..])
  {
  }

  lemma SameSizesTrans(disk0: seq<Block>, disk1: seq<Block>, disk2: seq<Block>)
    requires SameSizes(disk0, disk1) && SameSizes(disk1, disk2)
    ensures SameSizes(disk0, disk2)
  {
  }

  lemma {:induction false} PutAllSizes(e: nat, disk: seq<Block>, bs: seq<nat>, data: seq<Block>)
    requires InRange(disk, bs) && |bs| <= |data| && Uniform(e, disk) && Uniform(e, data)
    ensures Uniform(e, PutAll(disk, bs, data))
    decreases |bs|
  {
    if bs != [] {
      var k := |bs| - 1;
      InRangeCat(disk, bs[..k], bs[k..]);
      assert bs == bs[..k] + bs[k..];
      PutAllSizes(e, disk, bs[..k], data);
    }
  }

  /** The forest can be walked and none of its data blocks is one of its tables. */
  ghost predicate Writable(disk: seq<Block>, es: seq<Word>, d: nat, n: nat)
    ensures Writable(disk, es, d, n) ==> InRange(disk, LeavesOf(disk, es, d, n))
  {
    Walkable(disk, es, d, n) && Apart(TablesOf(disk, es, d, n), LeavesOf(disk, es, d, n))
  }

  /** The write over `es`, begun on `disk0`, has filled the blocks `done` and now looks at entry `i`. */
  ghost predicate WrittenTo(disk0: seq<Block>, disk: seq<Block>, es: seq<Word>, d: nat, n: nat, i: nat,
                            done: seq<nat>, src: seq<Block>)
  {
    && |done| <= n <= |src|
    && InRange(disk0, done) && WalkedTo(disk0, es, d, n, i, done, Gather(disk0, done))
    && Writable(disk0, es, d, n)
    && disk == PutAll(disk0, done, src)
    && forall t :: t in TablesOf(disk0, es[i..], d, n - |done|) ==> t in TablesOf(disk0, es, d, n)
  }

  lemma WriteStart(disk: seq<Block>, es: seq<Word>, d: nat, n: nat, src: seq<Block>)
    requires Writable(disk, es, d, n) && n <= |src|
    ensures WrittenTo(disk, disk, es, d, n, 0, [], src)
  {
    WalkStart(disk, es, d, n);
    assert es[0..] == es;
  }

  /** The blocks below the first entry are blocks of the forest. */
  lemma HeadBlocks(disk: seq<Block>, es: seq<Word>, d: nat, n: nat)
    requires n > 0 && es != [] && d > 0 && es[0] < |disk|
    ensures es[0] in TablesOf(disk, es, d, n)
    ensures forall t :: t in TablesOf(disk, disk[es[0]], d - 1, n) ==> t in TablesOf(disk, es, d, n)
    ensures forall b :: b in LeavesOf(disk, disk[es[0]], d - 1, n) ==> b in LeavesOf(disk, es, d, n)
  {
    ForestCons(disk, es, d, n);
    var tables := Tables(disk, es[0], d, n);
    assert tables == [es[0]] + TablesOf(disk, disk[es[0]], d - 1, n);
    assert es[0] in tables;
  }

  lemma ApartFromPrefix(tables: seq<nat>, leaves: seq<nat>, done: seq<nat>, rest: seq<nat>, t: nat)
    requires Apart(tables, leaves) && leaves == done + rest && t in tables
    ensures t !in done && t !in rest
  {
    assert t !in leaves;
  }

  /** The tables below entry `i` are still what they were when the write began. */
  lemma WriteStep(e: nat, disk0: seq<Block>, disk: seq<Block>, es: seq<Word>, d: nat, n: nat, i: nat,
                  done: seq<nat>, src: seq<Block>)
    requires e > 0 && Uniform(e, disk0)
    requires d > 0 && i < |es| && |done| < n && WrittenTo(disk0, disk, es, d, n, i, done, src)
    ensures 0 < es[i] < |disk| && disk[es[i]] == disk0[es[i]]
    ensures Walkable(disk0, disk0[es[i]], d - 1, n - |done|)
    ensures Writable(disk, disk[es[i]], d - 1, n - |done|)
    ensures LeavesOf(disk, disk[es[i]], d - 1, n - |done|) == LeavesOf(disk0, disk0[es[i]], d - 1, n - |done|)
    ensures |LeavesOf(disk, disk[es[i]], d - 1, n - |done|)| > 0
  {
    hide LeavesOf, TablesOf, Leaves, Tables, PutAll;
    var m := n - |done|;
    WalkStep(e, disk0, es, d, n, i, done, Gather(disk0, done));
    var table := disk0[es[i]];
    HeadBlocks(disk0, es[i..], d, m);
    var all := TablesOf(disk0, es, d, n);
    var tables, leaves := TablesOf(disk0, table, d - 1, m), LeavesOf(disk0, table, d - 1, m);
    forall t | t == es[i] || t in tables
      ensures t !in done && t !in leaves
    {
      assert t in TablesOf(disk0, es[i..], d, m);
      ApartFromPrefix(all, LeavesOf(disk0, es, d, n), done, LeavesOf(disk0, es[i..], d, m), t);
    }
    PutAllElsewhere(disk0, done, src);
    ForestFrame(disk0, disk, table, d - 1, m);
  }

  lemma WriteChunk(disk0: seq<Block>, disk1: seq<Block>, disk2: seq<Block>, es: seq<Word>, d: nat, n: nat, i: nat,
                   done: seq<nat>, src: seq<Block>)
    requires d > 0 && i < |es| && |done| < n && WrittenTo(disk0, disk1, es, d, n, i, done, src)
    requires es[i] < |disk1| && disk1[es[i]] == disk0[es[i]]
    requires var first := LeavesOf(disk1, disk1[es[i]], d - 1, n - |done|);
      && first == LeavesOf(disk0, disk0[es[i]], d - 1, n - |done|)
      && Walkable(disk0, disk0[es[i]], d - 1, n - |done|)
      && InRange(disk1, first) && disk2 == PutAll(disk1, first, src[|done|..])
    ensures WrittenTo(disk0, disk2, es, d, n, i + 1, done + LeavesOf(disk1, disk1[es[i]], d - 1, n - |done|), src)
  {
    hide LeavesOf, TablesOf, Leaves, Tables, PutAll;
    var m := n - |done|;
    var first := LeavesOf(disk0, disk0[es[i]], d - 1, m);
    TreeUnfold(disk0, es[i], d, m);
    WalkChunk(disk0, es, d, n, i, done, Gather(disk0, done), Gather(disk0, first));
    GatherCat(disk0, done, first);
    PutAllCat(disk0, done, first, src);
    assert es[i..][0] == es[i] && es[i..][1..] == es[i + 1..];
    ForestCons(disk0, es[i..], d, m);
  }

  lemma WriteEnd(disk0: seq<Block>, disk: seq<Block>, es: seq<Word>, d: nat, n: nat, i: nat,
                 done: seq<nat>, src: seq<Block>)
    requires WrittenTo(disk0, disk, es, d, n, i, done, src) && (i == |es| || |done| == n)
    ensures LeavesOf(disk0, es, d, n) == done && InRange(disk0, done)
    ensures disk == PutAll(disk0, done, src)
  {
    WalkEnd(disk0, es, d, n, i, done, Gather(disk0, done));
  }

  /** What a direct write has done: `src` is in the blocks of `wanted`, up to the first 0 or the device's end. */
  ghost predicate DirectWritten(disk0: seq<Block>, disk: seq<Block>, wanted: seq<nat>, rc: int, src: seq<Block>)
    requires |wanted| <= |src|
  {
    && (rc == WRITE_FAILED || 0 <= rc <= |wanted|)
    && (rc == WRITE_FAILED ==> exists b :: b in wanted && b >= |disk0|)
    && (rc != WRITE_FAILED ==> InRange(disk0, wanted[..rc]) && disk == PutAll(disk0, wanted[..rc], src))
    && (rc != WRITE_FAILED && rc < |wanted| ==> wanted[rc] == 0)
  }

  lemma DirectWrittenAll(disk0: seq<Block>, disk: seq<Block>, wanted: seq<nat>, rc: int, src: seq<Block>)
    requires |wanted| <= |src|
    requires DirectWritten(disk0, disk, wanted, rc, src) && InRange(disk0, wanted)
    ensures rc == |wanted| && disk == PutAll(disk0, wanted, src)
  {
    assert forall k :: 0 <= k < |wanted| ==> wanted[k] in wanted;
    assert wanted[..|wanted|] == wanted;
  }

  ghost predicate WrittenSoFar(disk0: seq<Block>, disk: seq<Block>, wanted: seq<nat>, k: nat, src: seq<Block>)
    requires |wanted| <= |src|
  {
    k <= |wanted| && InRange(disk0, wanted[..k]) && disk == PutAll(disk0, wanted[..k], src)
  }

  lemma NothingWritten(disk: seq<Block>, wanted: seq<nat>, src: seq<Block>)
    requires |wanted| <= |src|
    ensures WrittenSoFar(disk, disk, wanted, 0, src)
  {
  }

  lemma WrittenOneMore(disk0: seq<Block>, disk: seq<Block>, wanted: seq<nat>, k: nat, src: seq<Block>)
    requires k < |wanted| <= |src| && WrittenSoFar(disk0, disk, wanted, k, src)
    requires 0 < wanted[k] < |disk| == |disk0|
    ensures WrittenSoFar(disk0, disk[wanted[k] := src[k]], wanted, k + 1, src)
  {
    assert wanted[..k + 1] == wanted[..k] + [wanted[k]];
    InRangeCat(disk0, wanted[..k], [wanted[k]]);
  }

  lemma WriteStops(disk0: seq<Block>, disk: seq<Block>, wanted: seq<nat>, k: nat, src: seq<Block>)
    requires |wanted| <= |src| && WrittenSoFar(disk0, disk, wanted, k, src) && k < COUNT_LIMIT
    ensures k == |wanted| || wanted[k] == 0 ==> DirectWritten(disk0, disk, wanted, k, src)
    ensures k < |wanted| && wanted[k] >= |disk0| ==> DirectWritten(disk0, disk, wanted, WRITE_FAILED, src)
  {
    if k < |wanted| {
      assert wanted[k] in wanted;
    }
  }

  /** ext2_write_direct_blocks: skips `skip` entries, then writes until `count` blocks, the end or block 0. */
  method WriteDirect(p: Partition, blocks: seq<Word>, src: seq<Block>, count: nat, skip: nat)
    returns (rc: int, left: nat)
    requires p.Value().Shape() && 0 < count < COUNT_LIMIT
    requires count <= |src| && Uniform(p.words, src)
    modifies p`disk
    ensures SameSizes(old(p.disk), p.disk) && p.Value().Shape()
    ensures left == Rest(skip, |blocks|)
    ensures DirectWritten(old(p.disk), p.disk, LeavesOf(old(p.disk), blocks[Min(skip, |blocks|)..], 0, count), rc, src)
  {
    hide LeavesOf, InRange, WrittenSoFar, DirectWritten;
    left := skip;
    var written := 0;
    var i := 0;
    ghost var disk0 := p.disk;
    ghost var from := Min(skip, |blocks|);
    ghost var wanted := LeavesOf(p.disk, blocks[from..], 0, count);
    DirectLeaves(p.disk, blocks[from..], count);
    NothingWritten(disk0, wanted, src);
    while i < |blocks|
      invariant i <= |blocks| && left == Rest(skip, i)
      invariant 0 <= written == Rest(i, skip) && written < count && written <= |wanted|
      invariant SameSizes(disk0, p.disk)
      invariant WrittenSoFar(disk0, p.disk, wanted, written, src)
    {
      if left > 0 {
        left := left - 1;
        i := i + 1;
        continue;
      }
      ghost var disk1 := p.disk;
      WriteStops(disk0, disk1, wanted, written, src);
      var result := p.WriteBlock(blocks[i], src[written]);
      if result == WRITE_FAILED {
        rc := WRITE_FAILED;
        return;
      } else if result == 0 {
        rc := written;
        return;
      }
      WrittenOneMore(disk0, disk1, wanted, written, src);
      written := written + result;
      if written == count {
        break;
      }
      i := i + 1;
    }
    WriteStops(disk0, p.disk, wanted, written, src);
    rc := written;
  }

  /** ext2_write_indirect_blocks, entered with the skip counter at zero. */
  method WriteIndirect(p: Partition, blocks: seq<Word>, src: seq<Block>, count: nat) returns (rc: int)
    requires p.Value().Shape() && 0 < count < COUNT_LIMIT
    requires count <= |src| && Uniform(p.words, src)
    modifies p`disk
    ensures SameSizes(old(p.disk), p.disk) && p.Value().Shape()
    ensures rc == WRITE_FAILED || 0 <= rc <= count
    ensures Writable(old(p.disk), blocks, 1, count) ==>
      && rc == |LeavesOf(old(p.disk), blocks, 1, count)|
      && p.disk == PutAll(old(p.disk), LeavesOf(old(p.disk), blocks, 1, count), src)
  {
    hide LeavesOf, TablesOf, Leaves, Tables, Walkable, Writable, WrittenTo, PutAll, InRange;
    ghost var disk0 := p.disk;
    ghost var ok := Writable(disk0, blocks, 1, count);
    ghost var done: seq<nat> := [];
    var written := 0;
    var i := 0;
    if ok {
      WriteStart(disk0, blocks, 1, count, src);
    }
    while i < |blocks|
      invariant i <= |blocks| && 0 <= written < count && SameSizes(disk0, p.disk)
      invariant ok ==> |done| == written && WrittenTo(disk0, p.disk, blocks, 1, count, i, done, src)
    {
      ghost var disk1 := p.disk;
      if ok {
        WriteStep(p.words, disk0, disk1, blocks, 1, count, i, done, src);
      }
      var status, table := p.ReadBlock(blocks[i]);
      assert table[0..] == table;
      if status <= 0 {
        return WRITE_FAILED;
      }
      var result, _ := WriteDirect(p, table, src[written..], count - written, 0);
      if ok {
        DirectWrittenAll(disk1, p.disk, LeavesOf(disk1, table, 0, count - written), result, src[written..]);
      }
      if result == WRITE_FAILED || result == 0 {
        return result;
      }
      if ok {
        WriteChunk(disk0, disk1, p.disk, blocks, 1, count, i, done, src);
        done := done + LeavesOf(disk1, table, 0, count - written);
      }
      written := written + result;
      if written == count {
        break;
      }
      i := i + 1;
    }
    if ok {
      WriteEnd(disk0, p.disk, blocks, 1, count, if written == count then i + 1 else i, done, src);
    }
    rc := written;
  }

  /** ext2_write_double_indirect_blocks, entered with the skip counter at zero. */
  method WriteDouble(p: Partition, blocks: seq<Word>, src: seq<Block>, count: nat) returns (rc: int)
    requires p.Value().Shape() && 0 < count < COUNT_LIMIT
    requires count <= |src| && Uniform(p.words, src)
    modifies p`disk
    ensures SameSizes(old(p.disk), p.disk) && p.Value().Shape()
    ensures rc == WRITE_FAILED || 0 <= rc <= count
    ensures Writable(old(p.disk), blocks, 2, count) ==>
      && rc == |LeavesOf(old(p.disk), blocks, 2, count)|
      && p.disk == PutAll(old(p.disk), LeavesOf(old(p.disk), blocks, 2, count), src)
  {
    hide LeavesOf, TablesOf, Leaves, Tables, Walkable, Writable, WrittenTo, PutAll, InRange, SameSizes, Uniform, Snapshot.Shape;
    ShapeUniform(p.Value());
    ghost var disk0 := p.disk;
    ghost var ok := Writable(disk0, blocks, 2, count);
    SameSizesRefl(disk0);
    ghost var done: seq<nat> := [];
    var written := 0;
    var i := 0;
    if ok {
      WriteStart(disk0, blocks, 2, count, src);
    }
    while i < |blocks|
      invariant i <= |blocks| && 0 <= written < count && SameSizes(disk0, p.disk) && p.Value().Shape()
      invariant ok ==> |done| == written && WrittenTo(disk0, p.disk, blocks, 2, count, i, done, src)
    {
      ghost var disk1 := p.disk;
      if ok {
        WriteStep(p.words, disk0, disk1, blocks, 2, count, i, done, src);
      }
      var status, table := p.ReadBlock(blocks[i]);
      if status <= 0 {
        return WRITE_FAILED;
      }
      UniformTail(p.words, src, written);
      var result := WriteIndirect(p, table, src[written..], count - written);
      SameSizesTrans(disk0, disk1, p.disk);
      if result == WRITE_FAILED || result == 0 {
        return result;
      }
      if ok {
        WriteChunk(disk0, disk1, p.disk, blocks, 2, count, i, done, src);
        done := done + LeavesOf(disk1, table, 1, count - written);
      }
      written := written + result;
      if written == count {
        break;
      }
      i := i + 1;
    }
    if ok {
      WriteEnd(disk0, p.disk, blocks, 2, count, if written == count then i + 1 else i, done, src);
    }
    rc := written;
  }

  /** ext2_write_triple_indirect_blocks, entered with the skip counter at zero. */
  method WriteTriple(p: Partition, blocks: seq<Word>, src: seq<Block>, count: nat) returns (rc: int)
    requires p.Value().Shape() && 0 < count < COUNT_LIMIT
    requires count <= |src| && Uniform(p.words, src)
    modifies p`disk
    ensures SameSizes(old(p.disk), p.disk) && p.Value().Shape()
    ensures rc == WRITE_FAILED || 0 <= rc <= count
    ensures Writable(old(p.disk), blocks, 3, count) ==>
      && rc == |LeavesOf(old(p.disk), blocks, 3, count)|
      && p.disk == PutAll(old(p.disk), LeavesOf(old(p.disk), blocks, 3, count), src)
  {
    hide LeavesOf, TablesOf, Leaves, Tables, Walkable, Writable, WrittenTo, PutAll, InRange, SameSizes, Uniform, Snapshot.Shape;
    ShapeUniform(p.Value());
    ghost var disk0 := p.disk;
    ghost var ok := Writable(disk0, blocks, 3, count);
    SameSizesRefl(disk0);
    ghost var done: seq<nat> := [];
    var written := 0;
    var i := 0;
    if ok {
      WriteStart(disk0, blocks, 3, count, src);
    }
    while i < |blocks|
      invariant i <= |blocks| && 0 <= written < count && SameSizes(disk0, p.disk) && p.Value().Shape()
      invariant ok ==> |done| == written && WrittenTo(disk0, p.disk, blocks, 3, count, i, done, src)
    {
      ghost var disk1 := p.disk;
      if ok {
        WriteStep(p.words, disk0, disk1, blocks, 3, count, i, done, src);
      }
      var status, table := p.ReadBlock(blocks[i]);
      if status <= 0 {
        return WRITE_FAILED;
      }
      UniformTail(p.words, src, written);
      var result := WriteDouble(p, table, src[written..], count - written);
      SameSizesTrans(disk0, disk1, p.disk);
      if result == WRITE_FAILED || result == 0 {
        return result;
      }
      if ok {
        WriteChunk(disk0, disk1, p.disk, blocks, 3, count, i, done, src);
        done := done + LeavesOf(disk1, table, 2, count - written);
      }
      written := written + result;
      if written == count {
        break;
      }
      i := i + 1;
    }
    if ok {
      WriteEnd(disk0, p.disk, blocks, 3, count, if written == count then i + 1 else i, done, src);
    }
    rc := written;
  }
}
