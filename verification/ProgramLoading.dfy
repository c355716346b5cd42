/** Loading a program into a fresh duplicate: the father keeps his translations and his data. */
module ProgramLoading {
  import opened PageTables
  import opened WayEntries
  import opened Paging
  import opened AddressSpaces
  import opened PageDuplication
  import opened SharedTables
  import opened Loader

  /** No data frame of the father becomes a table of his duplicate: its upper tables are fresh, the others are his own. */
  lemma DuplicateReachesNoData(m0: Memory, m: Memory, father: nat, child: nat, start: nat, end: nat, g: nat)
    requires IsDuplicate(m0, m, father, child, start, end) && g !in m0.free && !Reached(m.frames, father, g)
    ensures !Reached(m.frames, child, g)
  {
    hide Space, TableAt, SameSpace, Duplicated, Leaf, Index;
    forall w: Page, k: nat | k <= 3
      ensures TableAt(m.frames, child, w, k) != g
    {
      if k == 3 {
        DuplicateShares(m0, m, father, child, start, end, w);
      }
    }
  }

  /** A page of the father with data behind it keeps the data, and no table of the duplicate is among it. */
  lemma DuplicateSecure(m0: Memory, m: Memory, father: nat, child: nat, start: nat, end: nat, v: Page)
    requires IsDuplicate(m0, m, father, child, start, end) && OnlyFreeTaken(m0, m)
    ensures PageKept(m0, m, father, v)
    ensures Backed(m0, father, v) ==> Secure(m, father, child, v)
  {
    hide Space, TableAt, Duplicated, UpperFresh, Leaf, Reached;
    SameLeaf(m0, m, father, v);
    if Backed(m0, father, v) {
      var g := Leaf(m0.frames, father, v).ppn;
      SameReached(m0, m, father, g);
      DuplicateReachesNoData(m0, m, father, child, start, end, g);
    }
  }

  /** A duplicate of the kernel half is made in `m0`, and a program of user segments is loaded into it from `m` on: the
      father translates every page as before, and behind every page of his with data the data is as it was. */
  lemma FatherKeepsData(m0: Memory, m: Memory, m': Memory, father: nat, child: nat)
    requires IsDuplicate(m0, m, father, child, KERNEL_HALF, 512) && OnlyFreeTaken(m0, m)
    requires FatherSafe(m, m', father, child)
    ensures SameSpace(m0, m', father)
    ensures forall v: Page :: PageKept(m0, m', father, v)
  {
    hide Space, TableAt, Duplicated, UpperFresh, Leaf, Reached, Private, IsDuplicate, OnlyFreeTaken, Backed;
    FromDuplicate(m0, m, father, child);
    SameSpaceAgain(m0, m, m', father);
    forall v: Page
      ensures PageKept(m0, m', father, v)
    {
      DuplicateSecure(m0, m, father, child, KERNEL_HALF, 512, v);
      SameLeaf(m0, m', father, v);
      assert SecureKept(m, m', father, child, v);
    }
  }

  /** The program can run: in a fresh duplicate user code reads every byte of a loaded user segment, writes it exactly
      when bit 1 of the segment's flags is set, and executes it exactly when bit 0 is. */
  lemma ProgramRuns(m: Memory, m': Memory, father: nat, child: nat, ph: ProgramHeader, file: seq<int>, i: nat)
    requires WaysCopied(m.frames, father, child, KERNEL_HALF, 512) && RightsKept(m.frames, m'.frames, child)
    requires ph.offset + ph.filesz <= |file| && ph.filesz <= ph.memsz
    requires UserSegment(ph) && Loaded(m', child, ph, file) && i < ph.memsz
    ensures var at := Translate(m'.frames, child, PageOf(ph.vaddr + i)) + (ph.vaddr + i) % 4096;
      && 0 <= at / 4096 < |m'.frames| && m'.frames[at / 4096].Data? && at % 4096 < |m'.frames[at / 4096].bytes|
      && m'.frames[at / 4096].bytes[at % 4096] == if i < ph.filesz then file[ph.offset + i] else 0
    ensures var v := PageOf(ph.vaddr + i);
      && UserReaches(m'.frames, child, v)
      && (UserWrites(m'.frames, child, v) <==> ph.flags / 2 % 2 == 1)
      && (UserExecutes(m'.frames, child, v) <==> ph.flags % 2 == 1)
  {
    hide WaysCopied, Leaf, ByteAt, PageOfSegment, UserReaches, UserWrites, UserExecutes, WayUser, WayWriteable,
      WayExecutable, PageCount;
    var v := PageOf(ph.vaddr + i);
    assert LoadedAt(m', child, ph, file, i);
    ByteInSegment(ph, i);
    assert UserPage(v);
    ByteInFrame(m', child, ph.vaddr + i, SegmentByte(ph, file, i));
    EmptyWay(m.frames, father, child, KERNEL_HALF, 512, v);
    assert SameRights(m.frames, m'.frames, child, v);
  }

  /** The byte at an address, found through its translation. */
  lemma ByteInFrame(m: Memory, root: nat, a: nat, x: int)
    requires ByteAt(m, root, a) == Some(x)
    ensures var at := Translate(m.frames, root, PageOf(a)) + a % 4096;
      && 0 <= at / 4096 < |m.frames| && m.frames[at / 4096].Data? && at % 4096 < |m.frames[at / 4096].bytes|
      && m.frames[at / 4096].bytes[at % 4096] == x
  {
    hide Leaf, Reached;
    var f, b := Leaf(m.frames, root, PageOf(a)).ppn, a % 4096;
    assert (f * 4096 + b) / 4096 == f && (f * 4096 + b) % 4096 == b;
  }

  lemma FromDuplicate(m0: Memory, m: Memory, father: nat, child: nat)
    requires IsDuplicate(m0, m, father, child, KERNEL_HALF, 512)
    ensures SameSpace(m0, m, father)
  {
  }
}
