/** Four-level page tables in physical frames, read as a partial map from pages to frames and permissions. */
module PageTables {

  const PAGE_SIZE: int := 4096
  const PAGES: int := 0x10_0000_0000     // 2^36 pages in 48-bit virtual addresses
  const FRAMES: int := 0x1000_0000       // page_ppn has 28 bits
  const NONE: int := -1

  type Page = v: int | 0 <= v < PAGES

  datatype Entry = Entry(present: bool, writeable: bool, user: bool, cacheDisabled: bool, nx: bool, ppn: nat, rest: nat)

  const ZERO_ENTRY := Entry(false, false, false, false, false, 0, 0)

  /** What a frame holds: page-table entries or bytes. */
  datatype Frame = Table(entries: seq<Entry>) | Data(bytes: seq<int>)

  /** Physical memory, with the frames that request_page may still hand out. */
  datatype Memory = Memory(frames: seq<Frame>, free: set<nat>)

  /** A table after memset to 0. */
  function ZeroTable(): (t: Frame)
    ensures t.Table? && |t.entries| == 512 && forall i :: 0 <= i < 512 ==> t.entries[i] == ZERO_ENTRY
  {
    Table(seq(512, _ => ZERO_ENTRY))
  }

  /** The page of a virtual address: bits 12 to 47. */
  function PageOf(address: int): Page {
    address / PAGE_SIZE % PAGES
  }

  /** The number formed by the first `level` table indices of a page. */
  function Prefix(v: Page, level: nat): int {
    if level == 0 then 0
    else if level == 1 then v / 0x800_0000
    else if level == 2 then v / 0x4_0000
    else if level == 3 then v / 512
    else v
  }

  function Index(v: Page, level: nat): (i: int)
    ensures 0 <= i < 512
  {
    Prefix(v, level + 1) % 512
  }

  lemma PrefixStep(v: Page, level: nat)
    requires level <= 3
    ensures Prefix(v, level + 1) == 512 * Prefix(v, level) + Index(v, level)
  {
  }

  lemma SamePrefix(v: Page, w: Page, level: nat)
    requires level <= 3
    ensures Prefix(v, level + 1) == Prefix(w, level + 1) <==>
      Prefix(v, level) == Prefix(w, level) && Index(v, level) == Index(w, level)
  {
    PrefixStep(v, level);
    PrefixStep(w, level);
    hide Prefix, Index;
  }

  /** The entry in slot `i` of table `t`; what is not a table has no present entries. */
  function EntryIn(frames: seq<Frame>, t: int, i: int): Entry {
    if 0 <= t < |frames| && frames[t].Table? && 0 <= i < |frames[t].entries| then frames[t].entries[i] else ZERO_ENTRY
  }

  /** The table that page `v` reaches after `level` steps from `root`, or NONE. */
  function TableAt(frames: seq<Frame>, root: nat, v: Page, level: nat): int {
    if level == 0 then root
    else
      var e := EntryIn(frames, TableAt(frames, root, v, level - 1), Index(v, level - 1));
      if e.present then e.ppn else NONE
  }

  /** The page-table entry of page `v`; ZERO_ENTRY when some table on the way is missing. */
  function Leaf(frames: seq<Frame>, root: nat, v: Page): Entry {
    EntryIn(frames, TableAt(frames, root, v, 3), Index(v, 3))
  }

  ghost predicate IsTable(m: Memory, t: int) {
    0 <= t < |m.frames| && t !in m.free && m.frames[t].Table? && |m.frames[t].entries| == 512
  }

  /** Every reachable table is a table, and not up for allocation. */
  ghost predicate Sound(m: Memory, root: nat) {
    forall v: Page, l: nat :: l <= 3 && TableAt(m.frames, root, v, l) != NONE ==> IsTable(m, TableAt(m.frames, root, v, l))
  }

  predicate SameTable(frames: seq<Frame>, root: nat, v: Page, w: Page, l: nat, k: nat) {
    TableAt(frames, root, v, l) != NONE && TableAt(frames, root, v, l) == TableAt(frames, root, w, k)
  }

  /** No table is reached on two ways: the tables form a tree. */
  ghost predicate Unshared(frames: seq<Frame>, root: nat) {
    forall v: Page, w: Page, l: nat, k: nat :: l <= 3 && k <= 3 && SameTable(frames, root, v, w, l, k) ==>
      l == k && Prefix(v, l) == Prefix(w, l)
  }

  ghost predicate FreeInRange(m: Memory) {
    |m.frames| <= FRAMES && forall f :: f in m.free ==> f < |m.frames|
  }

  ghost predicate Space(m: Memory, root: nat) {
    FreeInRange(m) && Sound(m, root) && Unshared(m.frames, root)
  }

  // ----- one step of the walk

  lemma TableStep(frames: seq<Frame>, root: nat, v: Page, l: nat)
    ensures TableAt(frames, root, v, 0) == root
    ensures var e := EntryIn(frames, TableAt(frames, root, v, l), Index(v, l));
      TableAt(frames, root, v, l + 1) == if e.present then e.ppn else NONE
  {
  }

  lemma NoEntryInNone(frames: seq<Frame>, i: int)
    ensures EntryIn(frames, NONE, i) == ZERO_ENTRY
  {
  }

  lemma TableIs(m: Memory, root: nat, v: Page, l: nat)
    requires Space(m, root) && l <= 3 && TableAt(m.frames, root, v, l) != NONE
    ensures IsTable(m, TableAt(m.frames, root, v, l))
  {
  }

  lemma Apart(frames: seq<Frame>, root: nat, v: Page, w: Page, l: nat, k: nat)
    requires Unshared(frames, root) && l <= 3 && k <= 3
    requires TableAt(frames, root, v, l) != NONE && TableAt(frames, root, v, l) == TableAt(frames, root, w, k)
    ensures l == k && Prefix(v, l) == Prefix(w, l)
  {
    assert SameTable(frames, root, v, w, l, k);
  }

  /** Pages with the same first indices reach the same table. */
  lemma {:induction false} SameWay(frames: seq<Frame>, root: nat, v: Page, w: Page, l: nat)
    requires l <= 3 && Prefix(v, l) == Prefix(w, l)
    ensures TableAt(frames, root, v, l) == TableAt(frames, root, w, l)
  {
    hide Prefix, Index, EntryIn;
    if l > 0 {
      SamePrefix(v, w, l - 1);
      SameWay(frames, root, v, w, l - 1);
    }
  }

  /** Once a table is missing, all later ones are. */
  lemma {:induction false} MissingBelow(frames: seq<Frame>, root: nat, v: Page, l: nat, k: nat)
    requires l <= k && TableAt(frames, root, v, l) == NONE
    ensures TableAt(frames, root, v, k) == NONE
  {
    if l < k {
      MissingBelow(frames, root, v, l, k - 1);
      TableStep(frames, root, v, k - 1);
    }
  }

  // ----- writing one entry

  function Write(frames: seq<Frame>, t: int, i: int, e: Entry): seq<Frame> {
    if 0 <= t < |frames| && frames[t].Table? && 0 <= i < |frames[t].entries|
    then frames[t := Table(frames[t].entries[i := e])] else frames
  }

  lemma WriteEntries(frames: seq<Frame>, t: int, i: int, e: Entry, t1: int, i1: int)
    ensures t1 != t || i1 != i ==> EntryIn(Write(frames, t, i, e), t1, i1) == EntryIn(frames, t1, i1)
    ensures 0 <= t < |frames| && frames[t].Table? && 0 <= i < |frames[t].entries| ==>
      EntryIn(Write(frames, t, i, e), t, i) == e
  {
  }

  /** Pages that do not use the written entry reach the same tables. */
  lemma {:induction false} WriteElsewhere(frames: seq<Frame>, root: nat, v: Page, l: nat, e: Entry, w: Page, k: nat)
    requires Unshared(frames, root) && l <= 3 && TableAt(frames, root, v, l) != NONE && k <= 3
    requires k <= l || Prefix(w, l + 1) != Prefix(v, l + 1)
    ensures TableAt(Write(frames, TableAt(frames, root, v, l), Index(v, l), e), root, w, k) == TableAt(frames, root, w, k)
  {
    hide Prefix, Index, EntryIn, Write, Unshared, TableAt;
    var t := TableAt(frames, root, v, l);
    var frames' := Write(frames, t, Index(v, l), e);
    TableStep(frames, root, w, k);
    TableStep(frames', root, w, k);
    if k > 0 {
      WriteElsewhere(frames, root, v, l, e, w, k - 1);
      TableStep(frames, root, w, k - 1);
      TableStep(frames', root, w, k - 1);
      OtherSlot(frames, root, v, l, w, k - 1);
      WriteEntries(frames, t, Index(v, l), e, TableAt(frames, root, w, k - 1), Index(w, k - 1));
    }
  }

  /** A page reads slot Index(v, l) of v's table only if it shares v's first l + 1 indices. */
  lemma OtherSlot(frames: seq<Frame>, root: nat, v: Page, l: nat, w: Page, k: nat)
    requires Unshared(frames, root) && l <= 3 && TableAt(frames, root, v, l) != NONE && k <= 3
    requires k < l || Prefix(w, l + 1) != Prefix(v, l + 1)
    ensures TableAt(frames, root, w, k) != TableAt(frames, root, v, l) || Index(w, k) != Index(v, l)
  {
    hide Prefix, Index, Unshared, TableAt;
    if TableAt(frames, root, w, k) == TableAt(frames, root, v, l) {
      Apart(frames, root, v, w, l, k);
      SamePrefix(v, w, l);
    }
  }

  // ----- changing one page's entry

  /** Storing a leaf entry changes no table and no other page. */
  lemma WriteLeaf(m: Memory, root: nat, v: Page, e: Entry, frames': seq<Frame>)
    requires Space(m, root) && TableAt(m.frames, root, v, 3) != NONE
    requires frames' == Write(m.frames, TableAt(m.frames, root, v, 3), Index(v, 3), e)
    ensures |frames'| == |m.frames|
    ensures SameTables(m.frames, frames', root)
    ensures Leaf(frames', root, v) == e
    ensures forall w: Page :: w != v ==> Leaf(frames', root, w) == Leaf(m.frames, root, w)
    ensures Space(Memory(frames', m.free), root)
  {
    hide Space, Prefix, Index, EntryIn, TableAt, Unshared, IsTable;
    var t := TableAt(m.frames, root, v, 3);
    SpaceParts(m, root);
    forall w: Page, k: nat | k <= 3
      ensures TableAt(frames', root, w, k) == TableAt(m.frames, root, w, k)
    {
      WriteElsewhere(m.frames, root, v, 3, e, w, k);
    }
    TableIs(m, root, v, 3);
    IndexBound(v, 3);
    TableShape(m, t);
    WriteEntries(m.frames, t, Index(v, 3), e, t, Index(v, 3));
    forall w: Page | w != v
      ensures Leaf(frames', root, w) == Leaf(m.frames, root, w)
    {
      PrefixFour(v, w);
      OtherSlot(m.frames, root, v, 3, w, 3);
      WriteEntries(m.frames, t, Index(v, 3), e, TableAt(m.frames, root, w, 3), Index(w, 3));
    }
    WriteShape(m, t, Index(v, 3), e);
    SpaceAfter(m, Memory(frames', m.free), root);
  }

  lemma PrefixFour(v: Page, w: Page)
    ensures Prefix(v, 4) == Prefix(w, 4) ==> v == w
  {
  }

  lemma IndexBound(v: Page, l: nat)
    ensures 0 <= Index(v, l) < 512
  {
  }

  lemma SpaceParts(m: Memory, root: nat)
    requires Space(m, root)
    ensures Unshared(m.frames, root) && Sound(m, root) && FreeInRange(m)
  {
  }

  lemma TableShape(m: Memory, t: int)
    requires IsTable(m, t)
    ensures 0 <= t < |m.frames| && m.frames[t].Table? && |m.frames[t].entries| == 512 && t !in m.free
  {
  }

  lemma WriteShape(m: Memory, t: int, i: int, e: Entry)
    ensures |Write(m.frames, t, i, e)| == |m.frames|
    ensures forall s :: 0 <= s < |m.frames| && s != t ==> Write(m.frames, t, i, e)[s] == m.frames[s]
    ensures forall s :: IsTable(m, s) ==> IsTable(Memory(Write(m.frames, t, i, e), m.free), s)
  {
  }

  ghost predicate SameTables(frames: seq<Frame>, frames': seq<Frame>, root: nat) {
    forall w: Page, k: nat :: k <= 3 ==> TableAt(frames', root, w, k) == TableAt(frames, root, w, k)
  }

  lemma SpaceAfter(m: Memory, m': Memory, root: nat)
    requires Space(m, root) && |m'.frames| == |m.frames| && m'.free <= m.free
    requires SameTables(m.frames, m'.frames, root)
    requires forall s :: IsTable(m, s) ==> IsTable(m', s)
    ensures Space(m', root)
  {
    hide Prefix, TableAt, IsTable;
    forall v: Page, w: Page, l: nat, k: nat | l <= 3 && k <= 3 && SameTable(m'.frames, root, v, w, l, k)
      ensures l == k && Prefix(v, l) == Prefix(w, l)
    {
      assert SameTable(m.frames, root, v, w, l, k);
    }
  }

  // ----- adding a table

  ghost predicate Reached(frames: seq<Frame>, root: nat, s: int) {
    exists w: Page, k: nat :: k <= 3 && TableAt(frames, root, w, k) == s
  }

  /** Frames on no path can be overwritten. */
  lemma {:induction false} UnreachedWrite(m: Memory, root: nat, frames': seq<Frame>, w: Page, k: nat)
    requires Space(m, root) && |frames'| == |m.frames| && k <= 3
    requires forall s :: 0 <= s < |m.frames| && Reached(m.frames, root, s) ==> frames'[s] == m.frames[s]
    ensures TableAt(frames', root, w, k) == TableAt(m.frames, root, w, k)
    ensures forall i :: EntryIn(frames', TableAt(frames', root, w, k), i) == EntryIn(m.frames, TableAt(m.frames, root, w, k), i)
  {
    hide Prefix, Index, TableAt, Space;
    TableStep(frames', root, w, k);
    TableStep(m.frames, root, w, k);
    if k > 0 {
      UnreachedWrite(m, root, frames', w, k - 1);
      TableStep(frames', root, w, k - 1);
      TableStep(m.frames, root, w, k - 1);
    }
    if TableAt(m.frames, root, w, k) != NONE {
      TableIs(m, root, w, k);
      assert Reached(m.frames, root, TableAt(m.frames, root, w, k));
    }
  }

  /** Below a zeroed table nothing is mapped. */
  lemma {:induction false} BelowZeroTable(frames: seq<Frame>, root: nat, w: Page, l: nat, g: nat, k: nat)
    requires l < k <= 3 && TableAt(frames, root, w, l) == g && g < |frames| && frames[g] == ZeroTable()
    ensures TableAt(frames, root, w, k) == NONE
  {
    hide Prefix, Index, TableAt;
    TableStep(frames, root, w, k - 1);
    if l < k - 1 {
      BelowZeroTable(frames, root, w, l, g, k - 1);
      NoEntryInNone(frames, Index(w, k - 1));
    }
  }

  /** Hanging a zeroed fresh table into an empty slot on the way of page `v`. */
  function Linked(m: Memory, t: int, i: int, e: Entry): Memory {
    Memory(Write(if e.ppn < |m.frames| then m.frames[e.ppn := ZeroTable()] else m.frames, t, i, e), m.free - {e.ppn})
  }

  ghost predicate CanLink(m: Memory, root: nat, v: Page, l: nat, e: Entry) {
    && Space(m, root) && l <= 2 && TableAt(m.frames, root, v, l) != NONE
    && !EntryIn(m.frames, TableAt(m.frames, root, v, l), Index(v, l)).present
    && e.present && e.ppn in m.free
  }

  /** Where page `w` gets after the new table was hung in. */
  lemma LinkedTables(m: Memory, root: nat, v: Page, l: nat, e: Entry, w: Page, k: nat)
    requires CanLink(m, root, v, l, e) && k <= 3
    ensures var t := TableAt(m.frames, root, v, l);
      var frames' := Linked(m, t, Index(v, l), e).frames;
      && TableAt(frames', root, w, k) ==
         (if k == l + 1 && Prefix(w, l + 1) == Prefix(v, l + 1) then e.ppn else TableAt(m.frames, root, w, k))
  {
    var t := TableAt(m.frames, root, v, l);
    var frames0 := m.frames[e.ppn := ZeroTable()];
    var frames' := Linked(m, t, Index(v, l), e).frames;
    LinkStart(m, root, v, l, e);
    TableIs(m, root, v, l);
    UnreachedWrite(m, root, frames0, v, l);
    UnreachedWrite(m, root, frames0, w, k);
    hide Prefix, Index, TableAt, Space, EntryIn, Unshared;
    assert frames' == Write(frames0, TableAt(frames0, root, v, l), Index(v, l), e);
    if k <= l || Prefix(w, l + 1) != Prefix(v, l + 1) {
      WriteElsewhere(frames0, root, v, l, e, w, k);
    } else {
      WriteElsewhere(frames0, root, v, l, e, v, l);
      IndexBound(v, l);
      WriteEntries(frames0, t, Index(v, l), e, t, Index(v, l));
      TableStep(frames', root, v, l);
      SameWay(frames', root, v, w, l + 1);
      SameWay(m.frames, root, v, w, l + 1);
      TableStep(m.frames, root, v, l);
      if k > l + 1 {
        MissingBelow(m.frames, root, w, l + 1, k);
        BelowZeroTable(frames', root, w, l + 1, e.ppn, k);
      }
    }
  }

  lemma FreeUnreached(m: Memory, root: nat, f: nat)
    requires Space(m, root) && f in m.free
    ensures !Reached(m.frames, root, f)
  {
    hide TableAt, Space;
    forall w: Page, k: nat | k <= 3
      ensures TableAt(m.frames, root, w, k) != f
    {
      NotReached(m, root, f, w, k);
    }
  }

  lemma LinkStart(m: Memory, root: nat, v: Page, l: nat, e: Entry)
    requires CanLink(m, root, v, l, e)
    ensures e.ppn < |m.frames| && Unshared(m.frames[e.ppn := ZeroTable()], root)
    ensures TableAt(m.frames, root, v, l) != e.ppn
    ensures !Reached(m.frames, root, e.ppn)
  {
    var frames0 := m.frames[e.ppn := ZeroTable()];
    TableIs(m, root, v, l);
    FreeUnreached(m, root, e.ppn);
    hide TableAt;
    assert SameTables(m.frames, frames0, root) by {
      forall w: Page, k: nat | k <= 3
        ensures TableAt(frames0, root, w, k) == TableAt(m.frames, root, w, k)
      {
        UnreachedWrite(m, root, frames0, w, k);
      }
    }
    hide Prefix;
    forall a: Page, b: Page, i: nat, j: nat | i <= 3 && j <= 3 && SameTable(frames0, root, a, b, i, j)
      ensures i == j && Prefix(a, i) == Prefix(b, i)
    {
      assert SameTable(m.frames, root, a, b, i, j);
    }
  }

  lemma LinkedLeaf(m: Memory, root: nat, v: Page, l: nat, e: Entry, w: Page)
    requires CanLink(m, root, v, l, e)
    ensures Leaf(Linked(m, TableAt(m.frames, root, v, l), Index(v, l), e).frames, root, w) == Leaf(m.frames, root, w)
  {
    var t := TableAt(m.frames, root, v, l);
    var frames' := Linked(m, t, Index(v, l), e).frames;
    var frames0 := m.frames[e.ppn := ZeroTable()];
    LinkStart(m, root, v, l, e);
    LinkedTables(m, root, v, l, e, w, 3);
    UnreachedWrite(m, root, frames0, w, 3);
    UnreachedWrite(m, root, frames0, v, l);
    hide Prefix, Index, TableAt, Space, Unshared;
    if Prefix(w, l + 1) == Prefix(v, l + 1) {
      TableStep(m.frames, root, v, l);
      SameWay(m.frames, root, v, w, l + 1);
      MissingBelow(m.frames, root, w, l + 1, 3);
      if l == 2 {
        WriteEntries(frames0, t, Index(v, l), e, e.ppn, Index(w, 3));
      }
    } else {
      OtherSlot(frames0, root, v, l, w, 3);
      WriteEntries(frames0, t, Index(v, l), e, TableAt(frames0, root, w, 3), Index(w, 3));
    }
  }

  lemma LinkedSpace(m: Memory, root: nat, v: Page, l: nat, e: Entry)
    requires CanLink(m, root, v, l, e)
    ensures Space(Linked(m, TableAt(m.frames, root, v, l), Index(v, l), e), root)
  {
    var t := TableAt(m.frames, root, v, l);
    var m' := Linked(m, t, Index(v, l), e);
    LinkStart(m, root, v, l, e);
    TableIs(m, root, v, l);
    SpaceParts(m, root);
    WriteShape(Memory(m.frames[e.ppn := ZeroTable()], m.free - {e.ppn}), t, Index(v, l), e);
    assert IsTable(Memory(m.frames[e.ppn := ZeroTable()], m.free - {e.ppn}), e.ppn);
    hide Prefix, Index, TableAt, Space, Unshared, EntryIn;
    forall w: Page, k: nat | k <= 3 && TableAt(m'.frames, root, w, k) != NONE
      ensures IsTable(m', TableAt(m'.frames, root, w, k))
    {
      LinkedTables(m, root, v, l, e, w, k);
      if TableAt(m'.frames, root, w, k) != e.ppn {
        TableIs(m, root, w, k);
      }
    }
    forall a: Page, b: Page, i: nat, j: nat | i <= 3 && j <= 3 && SameTable(m'.frames, root, a, b, i, j)
      ensures i == j && Prefix(a, i) == Prefix(b, i)
    {
      LinkedTables(m, root, v, l, e, a, i);
      LinkedTables(m, root, v, l, e, b, j);
      if TableAt(m'.frames, root, a, i) == e.ppn {
        NotReached(m, root, e.ppn, a, i);
        NotReached(m, root, e.ppn, b, j);
      } else {
        Apart(m.frames, root, a, b, i, j);
      }
    }
    MakeSpace(m', root);
  }

  lemma NotReached(m: Memory, root: nat, f: nat, w: Page, k: nat)
    requires Space(m, root) && f in m.free && k <= 3
    ensures TableAt(m.frames, root, w, k) != f
  {
    if TableAt(m.frames, root, w, k) != NONE {
      TableIs(m, root, w, k);
    }
  }

  lemma MakeSpace(m: Memory, root: nat)
    requires FreeInRange(m)
    requires forall w: Page, k: nat :: k <= 3 && TableAt(m.frames, root, w, k) != NONE ==>
      IsTable(m, TableAt(m.frames, root, w, k))
    requires forall v: Page, w: Page, l: nat, k: nat :: l <= 3 && k <= 3 && SameTable(m.frames, root, v, w, l, k) ==>
      l == k && Prefix(v, l) == Prefix(w, l)
    ensures Space(m, root)
  {
    hide Prefix, TableAt, IsTable, SameTable;
  }

  // ----- how an address space may grow

  ghost predicate OnWay(frames: seq<Frame>, root: nat, v: Page, f: int) {
    exists l: nat :: l <= 3 && TableAt(frames, root, v, l) == f
  }

  /** Only fresh frames and the tables of page `v` were written. */
  ghost predicate FramesKept(m: Memory, m': Memory, root: nat, v: Page) {
    forall f :: 0 <= f < |m.frames| && f !in m.free && !OnWay(m.frames, root, v, f) ==>
      f < |m'.frames| && m'.frames[f] == m.frames[f]
  }

  /** Tables stay where they are; new ones are fresh frames. */
  ghost predicate TablesKept(m: Memory, m': Memory, root: nat) {
    && (forall w: Page, k: nat :: k <= 3 && TableAt(m.frames, root, w, k) != NONE ==>
      TableAt(m'.frames, root, w, k) == TableAt(m.frames, root, w, k))
    && (forall w: Page, k: nat :: k <= 3 && TableAt(m'.frames, root, w, k) != TableAt(m.frames, root, w, k) ==>
      TableAt(m'.frames, root, w, k) in m.free - m'.free)
  }

  ghost predicate Grew(m: Memory, m': Memory, root: nat, v: Page) {
    && |m'.frames| == |m.frames| && m'.free <= m.free && Space(m', root)
    && FramesKept(m, m', root, v) && TablesKept(m, m', root)
  }

  ghost predicate LeavesKept(m: Memory, m': Memory, root: nat) {
    forall w: Page :: Leaf(m'.frames, root, w) == Leaf(m.frames, root, w)
  }

  lemma LinkGrows(m: Memory, root: nat, v: Page, l: nat, e: Entry)
    requires CanLink(m, root, v, l, e)
    ensures var m' := Linked(m, TableAt(m.frames, root, v, l), Index(v, l), e);
      && Grew(m, m', root, v) && LeavesKept(m, m', root)
      && TableAt(m'.frames, root, v, l + 1) == e.ppn
  {
    var t := TableAt(m.frames, root, v, l);
    var m' := Linked(m, t, Index(v, l), e);
    LinkStart(m, root, v, l, e);
    WriteShape(Memory(m.frames[e.ppn := ZeroTable()], m.free - {e.ppn}), t, Index(v, l), e);
    LinkedSpace(m, root, v, l, e);
    LinkedTables(m, root, v, l, e, v, l + 1);
    TableStep(m.frames, root, v, l);
    hide Prefix, Index, TableAt, Space, EntryIn;
    forall w: Page
      ensures Leaf(m'.frames, root, w) == Leaf(m.frames, root, w)
    {
      LinkedLeaf(m, root, v, l, e, w);
    }
    LinkKeepsTables(m, root, v, l, e);
    hide Leaf, TablesKept;
    assert OnWay(m.frames, root, v, t);
  }

  lemma LinkKeepsTables(m: Memory, root: nat, v: Page, l: nat, e: Entry)
    requires CanLink(m, root, v, l, e)
    ensures TablesKept(m, Linked(m, TableAt(m.frames, root, v, l), Index(v, l), e), root)
  {
    var m' := Linked(m, TableAt(m.frames, root, v, l), Index(v, l), e);
    TableStep(m.frames, root, v, l);
    assert m'.free == m.free - {e.ppn};
    hide Prefix, Index, TableAt, EntryIn, Linked;
    forall w: Page, k: nat | k <= 3
      ensures TableAt(m.frames, root, w, k) != NONE ==> TableAt(m'.frames, root, w, k) == TableAt(m.frames, root, w, k)
      ensures TableAt(m'.frames, root, w, k) != TableAt(m.frames, root, w, k) ==>
        TableAt(m'.frames, root, w, k) in m.free - m'.free
    {
      LinkedTables(m, root, v, l, e, w, k);
      if k == l + 1 && Prefix(w, l + 1) == Prefix(v, l + 1) {
        SameWay(m.frames, root, v, w, l + 1);
      }
    }
  }

  lemma NothingGrew(m: Memory, root: nat, v: Page)
    requires Space(m, root)
    ensures Grew(m, m, root, v) && LeavesKept(m, m, root)
  {
    hide Space, TableAt;
  }

  lemma OldOnWay(m0: Memory, m1: Memory, root: nat, v: Page, f: nat)
    requires TablesKept(m0, m1, root) && f !in m0.free
    ensures OnWay(m1.frames, root, v, f) ==> OnWay(m0.frames, root, v, f)
  {
    hide TableAt;
    if OnWay(m1.frames, root, v, f) {
      var l: nat :| l <= 3 && TableAt(m1.frames, root, v, l) == f;
      assert TableAt(m0.frames, root, v, l) == f;
    }
  }

  lemma GrewAgain(m0: Memory, m1: Memory, m2: Memory, root: nat, v: Page)
    requires Grew(m0, m1, root, v) && Grew(m1, m2, root, v)
    ensures Grew(m0, m2, root, v)
  {
    hide Space, TableAt;
    forall f | 0 <= f < |m0.frames| && f !in m0.free && !OnWay(m0.frames, root, v, f)
      ensures m2.frames[f] == m0.frames[f]
    {
      OldOnWay(m0, m1, root, v, f);
    }
  }
}
