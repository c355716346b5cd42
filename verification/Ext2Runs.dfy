/** Runs of growing, failing to grow, writing and deleting files on one volume. */
module Ext2Runs {
  import opened Ext2Volume
  import opened Ext2Tree
  import opened Ext2File
  import opened Ext2GrowFile
  import opened Ext2List
  import opened Ext2Read
  import opened Ext2Release
  import opened Ext2Ownership

  /** The volume with the files it holds. */
  datatype System = System(volume: Snapshot, files: seq<File>)

  ghost predicate Sane(a: System) {
    Consistent(a.volume, a.files)
  }

  /** ext2_allocate_blocks succeeded on file `i`. */
  ghost predicate Grows(a: System, b: System, i: nat)
    requires Sane(a) && i < |a.files|
  {
    exists ib: BlockMap, n: nat :: GrowsBy(a, b, i, ib, n)
  }

  ghost predicate GrowsBy(a: System, b: System, i: nat, ib: BlockMap, n: nat)
    requires Sane(a) && i < |a.files|
  {
    var f := a.files[i];
    && f.n <= DIRECT && FileOutcome(a.volume, b.volume, f.ib[..f.n], ib, n, 0)
    && b.files == Regrown(a.files, i, ib, n)
  }

  /** File `i` has `n` more blocks. */
  ghost function Regrown(files: seq<File>, i: nat, ib: BlockMap, n: nat): seq<File>
    requires i < |files|
  {
    files[i := File(ib, files[i].n + n)]
  }

  /** ext2_write_inode_blocks wrote a range of file `i`. */
  ghost predicate Writes(a: System, b: System, i: nat)
    requires Sane(a) && i < |a.files|
  {
    exists skip: nat, count: nat, src: seq<Block> ::
      && skip + count <= a.files[i].n && count <= |src| && Uniform(a.volume.words, src)
      && FileOk(a.volume.disk, a.files[i].ib, skip + count)
      && b == a.(volume := a.volume.(disk := AfterWrite(a.volume.disk, a.files[i].ib, skip, count, src)))
  }

  /** ext2_delete_file_blocks succeeded on file `i`: what it promises of the list it loaded. */
  ghost predicate Deletes(a: System, b: System, i: nat)
    requires Sane(a) && i < |a.files|
  {
    var f := a.files[i];
    var list := ListUpTo(a.volume.disk, f.ib, 4, f.n);
    && |list| == f.n && Released(a.volume, b.volume, SetOf(list))
    && b.files == a.files[..i] + a.files[i + 1..]
  }

  /** ext2_allocate_blocks failed on file `i`: the inode is not written, and what was taken stays taken. */
  ghost predicate FailsToGrow(a: System, b: System, i: nat)
    requires Sane(a) && i < |a.files|
  {
    exists ib: BlockMap, n: nat :: FailsToGrowBy(a, b, i, ib, n)
  }

  ghost predicate FailsToGrowBy(a: System, b: System, i: nat, ib: BlockMap, n: nat)
    requires Sane(a) && i < |a.files|
  {
    var f := a.files[i];
    && f.n <= DIRECT && FileOutcome(a.volume, b.volume, f.ib[..f.n], ib, n, 1)
    && b.files == a.files
  }

  /** One operation on file `i`. */
  ghost predicate Step(a: System, b: System, i: nat) {
    Sane(a) && i < |a.files| && (Grows(a, b, i) || FailsToGrow(a, b, i) || Writes(a, b, i) || Deletes(a, b, i))
  }

  /** File `f` is there, and the operation on file `i` is on another one or is a failed growth. */
  ghost predicate Spared(a: System, b: System, i: nat, f: File) {
    exists j :: 0 <= j < |a.files| && a.files[j] == f && (j != i || (Step(a, b, i) && FailsToGrow(a, b, i)))
  }

  /** A run: the k-th operation works on file `ops[k]`. */
  ghost predicate Run(states: seq<System>, ops: seq<nat>) {
    |states| == |ops| + 1 && forall k :: 0 <= k < |ops| ==> Step(states[k], states[k + 1], ops[k])
  }

  lemma SaneShape(a: System)
    requires Sane(a)
    ensures a.volume.Shape()
  {
  }

  lemma GrowIsolates(a: System, b: System, i: nat)
    requires Sane(a) && i < |a.files| && Grows(a, b, i)
    ensures Sane(b)
    ensures forall j :: 0 <= j < |a.files| && j != i ==> Untouched(a.volume.disk, b.volume.disk, a.files[j])
  {
    hide Sane, GrowsBy, Untouched;
    var ib: BlockMap, n: nat :| GrowsBy(a, b, i, ib, n);
    GrowByIsolates(a, b, i, ib, n);
  }

  lemma GrowByIsolates(a: System, b: System, i: nat, ib: BlockMap, n: nat)
    requires Sane(a) && i < |a.files| && GrowsBy(a, b, i, ib, n)
    ensures Sane(b)
    ensures forall j :: 0 <= j < |a.files| && j != i ==> Untouched(a.volume.disk, b.volume.disk, a.files[j])
  {
    SaneShape(a);
    hide Consistent, FileOutcome, Untouched, Snapshot.Valid, Snapshot.Shape, FileBlocks, Regrown;
    GrowFiles(a.volume, b.volume, a.files, i, ib, n);
  }

  lemma GrowFiles(s: Snapshot, t: Snapshot, files: seq<File>, i: nat, ib: BlockMap, n: nat)
    requires Consistent(s, files) && i < |files| && files[i].n <= DIRECT
    requires s.Shape() && FileOutcome(s, t, files[i].ib[..files[i].n], ib, n, 0)
    ensures Consistent(t, Regrown(files, i, ib, n))
    ensures forall j :: 0 <= j < |files| && j != i ==> Untouched(s.disk, t.disk, files[j])
  {
    hide Consistent, FileOutcome, Untouched, Snapshot.Valid, Snapshot.Shape, FileBlocks;
    GrowKeepsConsistent(s, t, files, i, ib, n);
  }

  lemma WriteIsolates(a: System, b: System, i: nat)
    requires Sane(a) && i < |a.files| && Writes(a, b, i)
    ensures Sane(b)
    ensures forall j :: 0 <= j < |a.files| && j != i ==> Untouched(a.volume.disk, b.volume.disk, a.files[j])
  {
    hide Consistent, Untouched, Snapshot.Valid, Snapshot.Shape, FileOk, FileSound, AfterWrite, FileBlocks, FileData, Uniform;
    var skip: nat, count: nat, src: seq<Block> :| skip + count <= a.files[i].n && count <= |src|
      && Uniform(a.volume.words, src) && FileOk(a.volume.disk, a.files[i].ib, skip + count)
      && b == a.(volume := a.volume.(disk := AfterWrite(a.volume.disk, a.files[i].ib, skip, count, src)));
    WriteKeepsConsistent(a.volume, a.files, i, skip, count, src);
  }

  lemma FailIsolates(a: System, b: System, i: nat)
    requires Sane(a) && i < |a.files| && FailsToGrow(a, b, i)
    ensures Sane(b)
    ensures forall j :: 0 <= j < |a.files| ==> Untouched(a.volume.disk, b.volume.disk, a.files[j])
  {
    hide Consistent, FileOutcome, Untouched;
    var ib: BlockMap, n: nat :| FailsToGrowBy(a, b, i, ib, n);
    FailedGrowKeepsConsistent(a.volume, b.volume, a.files, i, ib, n);
  }

  lemma SoundFile(a: System, i: nat)
    requires Sane(a) && i < |a.files|
    ensures a.volume.Shape() && InUse(a.volume, Owned(a.volume.disk, a.files[i]))
    ensures FileOk(a.volume.disk, a.files[i].ib, a.files[i].n)
    ensures Distinct(FileBlocks(a.volume.disk, a.files[i].ib, a.files[i].n))
  {
    hide InUse, Owned, FileBlocks, Alone;
  }

  lemma DeleteIsolates(a: System, b: System, i: nat)
    requires Sane(a) && i < |a.files| && Deletes(a, b, i)
    ensures Sane(b)
    ensures forall j :: 0 <= j < |a.files| && j != i ==> Untouched(a.volume.disk, b.volume.disk, a.files[j])
  {
    hide Consistent, Untouched, Released, FileBlocks, FileOk, ListUpTo, Owned, InUse, Snapshot.Shape;
    SoundFile(a, i);
    ListedFile(a.volume, a.files[i].ib, a.files[i].n);
    DeleteKeepsConsistent(a.volume, b.volume, a.files, i);
  }

  /** On a consistent volume deletion succeeds if and only if the file is not empty, the list does not run past it, and
      every table opened for the list can be read. */
  lemma DeletionDecided(a: System, i: nat)
    requires Sane(a) && i < |a.files|
    ensures var f := a.files[i];
      && SlotsUsed(a.volume.disk, f.ib, f.n)
      && (Deletable(a.volume, f.ib, f.n) <==> f.n > 0 && ListFits(a.volume.disk, f.ib, 4, f.n))
  {
    var f := a.files[i];
    hide Sane, FileBlocks, FileTables, FileOk, ListUpTo, ListFits, LoadsWhole, SlotsUsed, Deletable, Snapshot.Shape,
      Snapshot.Free;
    SoundFile(a, i);
    ListedFile(a.volume, f.ib, f.n);
    DeletableFile(a.volume, f.ib, f.n);
    assert forall b :: b in FileBlocks(a.volume.disk, f.ib, f.n) ==> b in Owned(a.volume.disk, f);
  }

  /** Every operation keeps the volume consistent and leaves every other file as it was. */
  lemma StepIsolates(a: System, b: System, i: nat)
    requires Step(a, b, i)
    ensures Sane(b)
    ensures forall j :: 0 <= j < |a.files| && (j != i || FailsToGrow(a, b, i)) ==>
      Untouched(a.volume.disk, b.volume.disk, a.files[j])
  {
    hide Sane, Grows, Writes, FailsToGrow, Deletes, Untouched;
    if FailsToGrow(a, b, i) {
      FailIsolates(a, b, i);
    } else if Grows(a, b, i) {
      GrowIsolates(a, b, i);
    } else if Writes(a, b, i) {
      WriteIsolates(a, b, i);
    } else {
      DeleteIsolates(a, b, i);
    }
  }

  lemma UntouchedAgain(d0: seq<Block>, d1: seq<Block>, d2: seq<Block>, f: File)
    requires Untouched(d0, d1, f) && Untouched(d1, d2, f)
    ensures Untouched(d0, d2, f)
  {
    hide FileOk, FileBlocks, FileTables, Gather;
  }

  lemma UntouchedAtFirst(a: System, j: nat)
    requires Sane(a) && j < |a.files|
    ensures Untouched(a.volume.disk, a.volume.disk, a.files[j])
  {
    hide FileOk, FileBlocks, FileTables, Owned;
  }

  /** A file that no operation of a run changes reads the same at its end, whatever happened to the others. */
  lemma {:induction false} RunIsolates(states: seq<System>, ops: seq<nat>, f: File)
    requires Run(states, ops) && Sane(states[0]) && f in states[0].files
    requires forall k :: 0 <= k < |ops| ==> Spared(states[k], states[k + 1], ops[k], f)
    ensures Sane(states[|ops|])
    ensures Untouched(states[0].volume.disk, states[|ops|].volume.disk, f)
    decreases |ops|
  {
    hide Sane, Step, Untouched, FailsToGrow;
    if ops == [] {
      var j :| 0 <= j < |states[0].files| && states[0].files[j] == f;
      UntouchedAtFirst(states[0], j);
    } else {
      var k := |ops| - 1;
      assert forall m :: 0 <= m < k ==> ops[..k][m] == ops[m] && states[..k + 1][m] == states[m];
      RunIsolates(states[..k + 1], ops[..k], f);
      StepIsolates(states[k], states[k + 1], ops[k]);
      assert Spared(states[k], states[k + 1], ops[k], f);
      UntouchedAgain(states[0].volume.disk, states[k].volume.disk, states[k + 1].volume.disk, f);
    }
  }
}
