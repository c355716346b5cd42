/** When a change in a duplicated address space is seen by the one it was copied from. */
module SharedTables {
  import opened PageTables
  import opened Paging
  import opened AddressSpaces
  import opened PageDuplication

  /** If the father reaches the child's page table of `v` at all, he does so at page `v`. */
  ghost predicate SharedInPlace(frames: seq<Frame>, father: nat, child: nat, v: Page) {
    Reached(frames, father, TableAt(frames, child, v, 3)) ==> TableAt(frames, father, v, 3) == TableAt(frames, child, v, 3)
  }

  // ----- one stored entry

  lemma StoredUnseen(m: Memory, father: nat, t: nat, i: int, e: Entry)
    requires Space(m, father) && !Reached(m.frames, father, t)
    ensures LeavesKept(m, Memory(Write(m.frames, t, i, e), m.free), father)
  {
    hide Space, TableAt, Reached;
    WriteShape(m, t, i, e);
    UntouchedSpace(m, Memory(Write(m.frames, t, i, e), m.free), father);
  }

  lemma StoredSeen(m: Memory, father: nat, v: Page, e: Entry)
    requires Space(m, father) && TableAt(m.frames, father, v, 3) != NONE
    ensures var m' := Memory(Write(m.frames, TableAt(m.frames, father, v, 3), Index(v, 3), e), m.free);
      LeavesKept(m, m', father) <==> e == Leaf(m.frames, father, v)
  {
    var frames' := Write(m.frames, TableAt(m.frames, father, v, 3), Index(v, 3), e);
    hide Space, TableAt, Write, Leaf;
    WriteLeaf(m, father, v, e, frames');
  }

  /** An entry stored in the child's page table changes no page of the father if and only if the table is not the
      father's, or the entry is what was there. */
  lemma StoreVisible(m: Memory, father: nat, child: nat, v: Page, e: Entry)
    requires Space(m, father) && Space(m, child) && SharedInPlace(m.frames, father, child, v)
    requires TableAt(m.frames, child, v, 3) != NONE
    ensures var t := TableAt(m.frames, child, v, 3);
      var frames' := Write(m.frames, t, Index(v, 3), e);
      (forall w: Page :: Leaf(frames', father, w) == Leaf(m.frames, father, w)) <==>
        TableAt(m.frames, father, v, 3) != t || e == Leaf(m.frames, child, v)
  {
    hide Space, Write, TableAt;
    var t := TableAt(m.frames, child, v, 3);
    TableIs(m, child, v, 3);
    if TableAt(m.frames, father, v, 3) == t {
      StoredSeen(m, father, v, e);
    } else {
      StoredUnseen(m, father, t, Index(v, 3), e);
    }
  }

  // ----- a whole change in the child: map, unmap or new permissions

  /** No table of the upper three levels on the child's way to `v` is the father's. */
  ghost predicate OwnUpper(frames: seq<Frame>, father: nat, child: nat, v: Page) {
    forall l: nat :: l <= 2 && TableAt(frames, child, v, l) != NONE ==> !Reached(frames, father, TableAt(frames, child, v, l))
  }

  lemma WayBelow(frames: seq<Frame>, father: nat, child: nat, v: Page, s: nat)
    requires OwnUpper(frames, father, child, v) && OnWay(frames, child, v, s) && Reached(frames, father, s)
    ensures s == TableAt(frames, child, v, 3)
  {
    hide TableAt, Reached;
  }

  /** The change at `v` touched no frame of the father's, save perhaps the page table of `v`. */
  lemma FatherFrames(m: Memory, m': Memory, father: nat, child: nat, v: Page, s: nat)
    requires Space(m, father) && Grew(m, m', child, v) && OwnUpper(m.frames, father, child, v)
    requires s < |m.frames| && Reached(m.frames, father, s) && s != TableAt(m.frames, child, v, 3)
    ensures m'.frames[s] == m.frames[s]
  {
    hide Space, TableAt;
    if s in m.free {
      FreeUnreached(m, father, s);
    }
    if OnWay(m.frames, child, v, s) {
      WayBelow(m.frames, father, child, v, s);
    }
  }

  /** Without a page table in common the father sees nothing. */
  lemma ChangeUnseen(m: Memory, m': Memory, father: nat, child: nat, v: Page)
    requires Space(m, father) && Grew(m, m', child, v) && OwnUpper(m.frames, father, child, v)
    requires TableAt(m.frames, child, v, 3) == NONE || !Reached(m.frames, father, TableAt(m.frames, child, v, 3))
    ensures LeavesKept(m, m', father)
  {
    GrewFree(m, m', child, v);
    hide Space, TableAt, Grew, OwnUpper, Leaf, SameTables;
    forall s | 0 <= s < |m.frames| && Reached(m.frames, father, s)
      ensures m'.frames[s] == m.frames[s]
    {
      FatherFrames(m, m', father, child, v, s);
    }
    UntouchedSpace(m, m', father);
  }

  lemma GrewFree(m: Memory, m': Memory, root: nat, v: Page)
    requires Grew(m, m', root, v)
    ensures |m'.frames| == |m.frames| && m'.free <= m.free && Space(m', root)
    ensures forall w: Page :: TableAt(m.frames, root, w, 3) != NONE ==>
      TableAt(m'.frames, root, w, 3) == TableAt(m.frames, root, w, 3)
  {
    hide Space, TableAt, FramesKept;
  }

  /** The page that shares v's page table and uses slot `i` of it. */
  function Neighbour(v: Page, i: nat): (w: Page)
    requires i < 512
    ensures Prefix(w, 3) == Prefix(v, 3) && Index(w, 3) == i
  {
    v / 512 * 512 + i
  }

  /** In the page table of `v` the change wrote the entry of `v` and no other. */
  lemma OneEntry(m: Memory, m': Memory, child: nat, v: Page, e: Entry)
    requires Space(m, child) && Grew(m, m', child, v) && OnlyLeaf(m.frames, m'.frames, child, v, e)
    requires TableAt(m.frames, child, v, 3) != NONE
    ensures var t := TableAt(m.frames, child, v, 3);
      && IsTable(m, t) && IsTable(m', t)
      && m'.frames[t].entries == m.frames[t].entries[Index(v, 3) := e]
  {
    GrewFree(m, m', child, v);
    hide Space, Grew, OnlyLeaf, Prefix, Index, TableAt;
    var t := TableAt(m.frames, child, v, 3);
    TableIs(m, child, v, 3);
    TableIs(m', child, v, 3);
    IndexBound(v, 3);
    forall i | 0 <= i < 512
      ensures m'.frames[t].entries[i] == m.frames[t].entries[Index(v, 3) := e][i]
    {
      var w := Neighbour(v, i);
      SameWay(m.frames, child, v, w, 3);
      SameWay(m'.frames, child, v, w, 3);
      OnlyLeafAt(m.frames, m'.frames, child, v, e, w);
      SameSlot(v, w);
    }
  }

  lemma OnlyLeafAt(frames: seq<Frame>, frames': seq<Frame>, root: nat, v: Page, e: Entry, w: Page)
    requires OnlyLeaf(frames, frames', root, v, e)
    ensures Leaf(frames', root, w) == if w == v then e else Leaf(frames, root, w)
  {
    hide Leaf;
  }

  lemma SameSlot(v: Page, w: Page)
    requires Prefix(w, 3) == Prefix(v, 3)
    ensures w == v <==> Index(w, 3) == Index(v, 3)
  {
    SamePrefix(v, w, 3);
    PrefixFour(v, w);
  }

  /** In a shared page table the father sees the entry. */
  lemma ChangeSeen(m: Memory, m': Memory, father: nat, child: nat, v: Page, e: Entry)
    requires Space(m, father) && Space(m, child) && Grew(m, m', child, v) && OwnUpper(m.frames, father, child, v)
    requires OnlyLeaf(m.frames, m'.frames, child, v, e)
    requires TableAt(m.frames, father, v, 3) == TableAt(m.frames, child, v, 3) != NONE
    ensures LeavesKept(m, m', father) <==> e == Leaf(m.frames, father, v)
  {
    var t := TableAt(m.frames, child, v, 3);
    OneEntry(m, m', child, v, e);
    GrewFree(m, m', child, v);
    hide Space, TableAt, Grew, OwnUpper, OnlyLeaf, Leaf, SameTables, IsTable, Index;
    TableShape(m, t);
    TableShape(m', t);
    var before := Memory(m'.frames[t := m.frames[t]], m'.free);
    forall s | 0 <= s < |m.frames| && Reached(m.frames, father, s)
      ensures before.frames[s] == m.frames[s]
    {
      if s != t {
        FatherFrames(m, m', father, child, v, s);
      }
    }
    UntouchedSpace(m, before, father);
    SameTableThere(m, before, father, v);
    IndexBound(v, 3);
    assert m'.frames == Write(before.frames, t, Index(v, 3), e);
    StoredSeen(before, father, v, e);
    KeptTwice(m, before, m', father);
  }

  lemma SameTableThere(m: Memory, m': Memory, root: nat, v: Page)
    requires SameSpace(m, m', root)
    ensures TableAt(m'.frames, root, v, 3) == TableAt(m.frames, root, v, 3)
    ensures Leaf(m'.frames, root, v) == Leaf(m.frames, root, v) && LeavesKept(m, m', root)
  {
    hide Leaf, TableAt;
  }

  lemma KeptTwice(m0: Memory, m1: Memory, m2: Memory, root: nat)
    requires LeavesKept(m0, m1, root)
    ensures LeavesKept(m0, m2, root) <==> LeavesKept(m1, m2, root)
  {
    hide Leaf;
  }

  /** What _duplicate_pd promises of a child copied in memory `m0`, slots `start` to `end` of the top level. */
  ghost predicate IsDuplicate(m0: Memory, m: Memory, father: nat, child: nat, start: nat, end: nat) {
    && Space(m0, father) && SameSpace(m0, m, father) && Space(m, father) && Space(m, child)
    && Duplicated(m.frames, father, child, start, end) && UpperFresh(m.frames, child, m0.free)
  }

  lemma DuplicateOwnUpper(m0: Memory, m: Memory, father: nat, child: nat, start: nat, end: nat, v: Page)
    requires IsDuplicate(m0, m, father, child, start, end)
    ensures OwnUpper(m.frames, father, child, v)
  {
    hide Space, TableAt, LeavesKept, Duplicated;
    forall l: nat | l <= 2 && TableAt(m.frames, child, v, l) != NONE
      ensures !Reached(m.frames, father, TableAt(m.frames, child, v, l))
    {
      FreeUnreached(m0, father, TableAt(m.frames, child, v, l));
    }
  }

  lemma DuplicateShares(m0: Memory, m: Memory, father: nat, child: nat, start: nat, end: nat, v: Page)
    requires IsDuplicate(m0, m, father, child, start, end)
    ensures TableAt(m.frames, child, v, 3) ==
      if start <= Index(v, 0) < end then TableAt(m.frames, father, v, 3) else NONE
  {
    hide Space, TableAt, SameSpace, UpperFresh, Leaf, Index;
    if !(start <= Index(v, 0) < end) {
      MissingBelow(m.frames, child, v, 1, 3);
    }
  }

  /** Mapping, unmapping or protecting page `v` in a fresh duplicate leaves every page of the father as it was, unless
      the slot of `v` was copied, the father had a page table for `v`, and the new entry is another one. */
  lemma DuplicateVisible(m0: Memory, m: Memory, m': Memory, father: nat, child: nat, start: nat, end: nat, v: Page, e: Entry)
    requires IsDuplicate(m0, m, father, child, start, end)
    requires Grew(m, m', child, v) && OnlyLeaf(m.frames, m'.frames, child, v, e)
    ensures (forall w: Page :: Leaf(m'.frames, father, w) == Leaf(m.frames, father, w)) <==>
      !(start <= Index(v, 0) < end && TableAt(m.frames, father, v, 3) != NONE && e != Leaf(m.frames, father, v))
  {
    DuplicateOwnUpper(m0, m, father, child, start, end, v);
    DuplicateShares(m0, m, father, child, start, end, v);
    hide Space, TableAt, SameSpace, UpperFresh, Duplicated, Leaf, Index, Grew, OnlyLeaf, OwnUpper;
    if TableAt(m.frames, child, v, 3) == NONE {
      ChangeUnseen(m, m', father, child, v);
    } else {
      ChangeSeen(m, m', father, child, v, e);
    }
  }
}
