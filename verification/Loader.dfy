/** The ELF segment loader: file bytes and zeros end up behind the child's translations. */
module Loader {
  import opened PageTables
  import opened WayEntries
  import opened Paging
  import opened AddressSpaces

  const PT_LOAD: nat := 1
  const PF_X: nat := 1
  const PF_W: nat := 2

  datatype ProgramHeader =
    ProgramHeader(ptype: nat, flags: nat, offset: nat, vaddr: nat, filesz: nat, memsz: nat)

  datatype Option<T> = None | Some(value: T)

  /** A mapped page with a data frame of its own behind it, neither free nor a page table. */
  ghost predicate Backed(m: Memory, root: nat, v: Page) {
    var e := Leaf(m.frames, root, v);
    e.present && e.ppn < |m.frames| && e.ppn !in m.free && !Reached(m.frames, root, e.ppn) && m.frames[e.ppn].Data?
  }

  /** The byte a program in the address space reads at address `a`. */
  ghost function ByteAt(m: Memory, root: nat, a: nat): Option<int> {
    if Backed(m, root, PageOf(a)) then
      var bytes := m.frames[Leaf(m.frames, root, PageOf(a)).ppn].bytes;
      if a % PAGE_SIZE < |bytes| then Some(bytes[a % PAGE_SIZE]) else None
    else None
  }

  /** Page `v` keeps its translation, and the data behind it. */
  ghost predicate PageKept(m: Memory, m': Memory, root: nat, v: Page) {
    && Leaf(m'.frames, root, v) == Leaf(m.frames, root, v)
    && (Backed(m, root, v) ==> Backed(m', root, v))
    && (Backed(m, root, v) ==> m'.frames[Leaf(m'.frames, root, v).ppn] == m.frames[Leaf(m.frames, root, v).ppn])
  }

  ghost predicate PageHolds(m: Memory, root: nat, v: Page, content: seq<int>, perms: nat) {
    && Backed(m, root, v) && m.frames[Leaf(m.frames, root, v).ppn].bytes == content
    && PermsOf(Leaf(m.frames, root, v)) == perms
  }

  // ----- one page

  /** The steps of loading one page: taking frame `f`, mapping, filling it. */
  ghost predicate PageLoaded(m0: Memory, m2: Memory, m3: Memory, root: nat, v: Page, f: nat, content: seq<int>, perms: nat) {
    && f in m0.free && f < |m0.frames|
    && Grew(Memory(m0.frames, m0.free - {f}), m2, root, v)
    && OnlyLeaf(m0.frames, m2.frames, root, v, MappedTo(Leaf(m0.frames, root, v), f * PAGE_SIZE, perms))
    && WaysMade(m0.frames, m2.frames, root, v, 0, 3)
    && m3 == Memory(m2.frames[f := Data(content)], m2.free)
  }

  /** The data frame is no table, before and after the mapping. */
  lemma DataFrameApart(m0: Memory, m1: Memory, m2: Memory, root: nat, v: Page, f: nat)
    requires Space(m0, root) && f < |m0.frames| && f !in m1.free && m1.frames == m0.frames && m1.free <= m0.free
    requires !Reached(m0.frames, root, f) && Grew(m1, m2, root, v)
    ensures !Reached(m2.frames, root, f) && f !in m2.free && f < |m2.frames| && m2.frames[f] == m0.frames[f]
  {
    hide Space, TableAt;
    forall w: Page, k: nat | k <= 3
      ensures TableAt(m2.frames, root, w, k) != f
    {
      assert TableAt(m0.frames, root, w, k) != f;
      TableKeptOrFresh(m1, m2, root, w, k);
    }
    forall l: nat | l <= 3
      ensures TableAt(m1.frames, root, v, l) != f
    {
    }
    assert !OnWay(m1.frames, root, v, f);
  }

  lemma TableKeptOrFresh(m: Memory, m': Memory, root: nat, w: Page, k: nat)
    requires TablesKept(m, m', root) && k <= 3
    ensures TableAt(m'.frames, root, w, k) == TableAt(m.frames, root, w, k) || TableAt(m'.frames, root, w, k) in m.free
  {
  }

  lemma LoadedPage(m0: Memory, m2: Memory, m3: Memory, root: nat, v: Page, f: nat, content: seq<int>, perms: nat)
    requires Space(m0, root) && PageLoaded(m0, m2, m3, root, v, f, content, perms) && perms < 16
    ensures Space(m3, root) && PageHolds(m3, root, v, content, perms)
    ensures SameSpace(m2, m3, root) && RightsKept(m0.frames, m3.frames, root)
  {
    LoadedRights(m0, m2, m3, root, v, f, content, perms);
    hide Space, TableAt, EntryIn, Leaf, SameSpace, PageHolds, Grew, OnlyLeaf, Reached, MappedTo, WaysMade, RightsKept;
    SpaceParts(m0, root);
    LoadedSpace(m0, m2, m3, root, v, f, content, perms);
    SameLeaf(m2, m3, root, v);
    LeafIs(m0, m2, m3, root, v, f, content, perms);
    LoadedHolds(m0, m3, root, v, f, content, perms);
  }

  lemma LoadedRights(m0: Memory, m2: Memory, m3: Memory, root: nat, v: Page, f: nat, content: seq<int>, perms: nat)
    requires Space(m0, root) && PageLoaded(m0, m2, m3, root, v, f, content, perms)
    ensures RightsKept(m0.frames, m3.frames, root)
  {
    LoadedSpace(m0, m2, m3, root, v, f, content, perms);
    hide Space, Grew, TableAt, Leaf, OnlyLeaf, WaysMade, WaysKept, RightsKept, SameTables, LeavesKept;
    WaysMadeRights(m0.frames, m2.frames, root, v, 0, 3);
    WaysKeptRights(m2.frames, m3.frames, root);
    RightsKeptAgain(m0.frames, m2.frames, m3.frames, root);
  }

  lemma LoadedSpace(m0: Memory, m2: Memory, m3: Memory, root: nat, v: Page, f: nat, content: seq<int>, perms: nat)
    requires Space(m0, root) && PageLoaded(m0, m2, m3, root, v, f, content, perms)
    ensures Space(m3, root) && SameSpace(m2, m3, root)
    ensures f < |m3.frames| && f !in m3.free && m3.frames[f] == Data(content) && !Reached(m3.frames, root, f)
  {
    var m1 := Memory(m0.frames, m0.free - {f});
    FreeUnreached(m0, root, f);
    DataFrameApart(m0, m1, m2, root, v, f);
    GrewSpace(m1, m2, root, v);
    hide Space, Grew, TableAt, EntryIn;
    UntouchedSpace(m2, m3, root);
  }

  lemma LoadedHolds(m0: Memory, m3: Memory, root: nat, v: Page, f: nat, content: seq<int>, perms: nat)
    requires FreeInRange(m0) && f in m0.free && perms < 16
    requires f < |m3.frames| && f !in m3.free && m3.frames[f] == Data(content) && !Reached(m3.frames, root, f)
    requires Leaf(m3.frames, root, v) == MappedTo(Leaf(m0.frames, root, v), f * PAGE_SIZE, perms)
    ensures PageHolds(m3, root, v, content, perms)
  {
    hide Leaf, Reached;
    FrameFits(m0, f);
    PermsReadBack(Leaf(m0.frames, root, v).(present := true, ppn := f * PAGE_SIZE / PAGE_SIZE % FRAMES), perms);
  }

  lemma FrameFits(m: Memory, f: nat)
    requires FreeInRange(m) && f in m.free
    ensures f * PAGE_SIZE / PAGE_SIZE % FRAMES == f
  {
  }

  lemma SameLeaf(m: Memory, m': Memory, root: nat, v: Page)
    requires SameSpace(m, m', root)
    ensures Leaf(m'.frames, root, v) == Leaf(m.frames, root, v)
  {
  }

  lemma LeafIs(m0: Memory, m2: Memory, m3: Memory, root: nat, v: Page, f: nat, content: seq<int>, perms: nat)
    requires PageLoaded(m0, m2, m3, root, v, f, content, perms)
    ensures Leaf(m2.frames, root, v) == MappedTo(Leaf(m0.frames, root, v), f * PAGE_SIZE, perms)
    ensures forall w: Page :: w != v ==> Leaf(m2.frames, root, w) == Leaf(m0.frames, root, w)
    ensures m3 == Memory(m2.frames[f := Data(content)], m2.free) && |m2.frames| == |m0.frames|
  {
  }

  /** Loading a page keeps the others. */
  lemma OtherPageKept(m0: Memory, m2: Memory, m3: Memory, root: nat, v: Page, f: nat, content: seq<int>, perms: nat, w: Page)
    requires Space(m0, root) && PageLoaded(m0, m2, m3, root, v, f, content, perms) && perms < 16 && w != v
    ensures PageKept(m0, m3, root, w)
  {
    var m1 := Memory(m0.frames, m0.free - {f});
    LoadedPage(m0, m2, m3, root, v, f, content, perms);
    LeafIs(m0, m2, m3, root, v, f, content, perms);
    SameLeaf(m2, m3, root, w);
    var e := Leaf(m0.frames, root, w);
    if Backed(m0, root, w) {
      assert e.ppn != f;
      DataFrameApart(m0, m1, m2, root, v, e.ppn);
      hide Space, Grew, TableAt, Leaf;
      SameReached(m2, m3, root, e.ppn);
    }
  }

  lemma SameReached(m: Memory, m': Memory, root: nat, s: int)
    requires SameTables(m.frames, m'.frames, root)
    ensures Reached(m'.frames, root, s) <==> Reached(m.frames, root, s)
  {
    hide TableAt;
    if Reached(m'.frames, root, s) {
      var w: Page, k: nat :| k <= 3 && TableAt(m'.frames, root, w, k) == s;
      assert TableAt(m.frames, root, w, k) == s;
    }
    if Reached(m.frames, root, s) {
      var w: Page, k: nat :| k <= 3 && TableAt(m.frames, root, w, k) == s;
      assert TableAt(m'.frames, root, w, k) == s;
    }
  }

  /** Loading a user page of a private child is invisible to the father. */
  lemma PageInvisible(m0: Memory, m2: Memory, m3: Memory, father: nat, child: nat, v: Page, f: nat,
                      content: seq<int>, perms: nat)
    requires Space(m0, child) && PageLoaded(m0, m2, m3, child, v, f, content, perms) && perms < 16
    requires Space(m0, father) && Private(m0.frames, father, child) && UserPage(v)
    ensures SameSpace(m0, m3, father) && Space(m3, father) && Private(m3.frames, father, child)
    ensures DataKept(m0, m3, father, child)
  {
    var m1 := Memory(m0.frames, m0.free - {f});
    LoadedPage(m0, m2, m3, child, v, f, content, perms);
    FreeUnreached(m0, father, f);
    hide Reached;
    FewerFree(m0, m1, father);
    FewerFree(m0, m1, child);
    UserMapInvisible(m1, m2, father, child, v);
    SameSpaceReached(m1, m2, father, f);
    hide Space, Private, Grew, TableAt, Leaf, Index;
    UntouchedSpace(m2, m3, father);
    SameSpaceAgain(m0, m2, m3, father);
    PrivateKept(m2, m3, father, child);
    hide PageLoaded, SameSpace, SecureKept;
    forall w: Page
      ensures SecureKept(m0, m3, father, child, w)
    {
      FatherPageKept(m0, m2, m3, father, child, v, f, content, perms, w);
    }
  }

  /** Page `v` of the father has a data frame behind it that is no table of the child either. */
  ghost predicate Secure(m: Memory, father: nat, child: nat, v: Page) {
    Backed(m, father, v) && !Reached(m.frames, child, Leaf(m.frames, father, v).ppn)
  }

  ghost predicate SecureKept(m: Memory, m': Memory, father: nat, child: nat, v: Page) {
    Secure(m, father, child, v) ==>
      && Secure(m', father, child, v) && PageKept(m, m', father, v)
  }

  /** The father's data is as it was. */
  ghost predicate DataKept(m: Memory, m': Memory, father: nat, child: nat) {
    forall v: Page :: SecureKept(m, m', father, child, v)
  }

  lemma DataKeptAgain(m0: Memory, m1: Memory, m2: Memory, father: nat, child: nat)
    requires DataKept(m0, m1, father, child) && DataKept(m1, m2, father, child)
    ensures DataKept(m0, m2, father, child)
  {
    hide Backed, Leaf, Reached;
    forall v: Page
      ensures SecureKept(m0, m2, father, child, v)
    {
      assert SecureKept(m0, m1, father, child, v) && SecureKept(m1, m2, father, child, v);
    }
  }

  /** Loading a page of the child keeps the data behind a page of the father. */
  lemma FatherPageKept(m0: Memory, m2: Memory, m3: Memory, father: nat, child: nat, v: Page, f: nat,
                       content: seq<int>, perms: nat, w: Page)
    requires Space(m0, child) && PageLoaded(m0, m2, m3, child, v, f, content, perms) && perms < 16
    requires SameSpace(m0, m3, father)
    ensures SecureKept(m0, m3, father, child, w)
  {
    if Secure(m0, father, child, w) {
      var m1 := Memory(m0.frames, m0.free - {f});
      var g := Leaf(m0.frames, father, w).ppn;
      assert g != f;
      LoadedPage(m0, m2, m3, child, v, f, content, perms);
      DataFrameApart(m0, m1, m2, child, v, g);
      SameReached(m2, m3, child, g);
      SameReached(m0, m3, father, g);
      SameLeaf(m0, m3, father, w);
      hide Reached, Grew, Space, SameSpace, Leaf, OnlyLeaf, PageHolds;
      assert m3.frames[g] == m2.frames[g];
    }
  }

  lemma FewerFree(m: Memory, m': Memory, root: nat)
    requires Space(m, root) && m'.frames == m.frames && m'.free <= m.free
    ensures Space(m', root)
  {
    hide TableAt, EntryIn;
  }

  lemma SameSpaceReached(m: Memory, m': Memory, root: nat, s: int)
    requires SameSpace(m, m', root)
    ensures Reached(m'.frames, root, s) <==> Reached(m.frames, root, s)
  {
    SameReached(m, m', root, s);
  }

  lemma SameSpaceAgain(m0: Memory, m1: Memory, m2: Memory, root: nat)
    requires SameSpace(m0, m1, root) && SameSpace(m1, m2, root)
    ensures SameSpace(m0, m2, root)
  {
    hide TableAt, Leaf;
  }

  lemma PrivateKept(m: Memory, m': Memory, father: nat, child: nat)
    requires Private(m.frames, father, child) && SameTables(m.frames, m'.frames, child) && SameTables(m.frames, m'.frames, father)
    ensures Private(m'.frames, father, child)
  {
    hide TableAt, Index;
    forall v: Page, l: nat | l <= 3 && UserPage(v) && TableAt(m'.frames, child, v, l) != NONE
      ensures !Reached(m'.frames, father, TableAt(m'.frames, child, v, l))
    {
      PrivateAt(m.frames, father, child, v, l);
      SameReached(m, m', father, TableAt(m.frames, child, v, l));
    }
  }

  // ----- one segment

  function PageCount(ph: ProgramHeader): nat {
    var total := ph.memsz + ph.vaddr % PAGE_SIZE;
    if total % PAGE_SIZE != 0 then total / PAGE_SIZE + 1 else total / PAGE_SIZE
  }

  function Base(ph: ProgramHeader): nat {
    ph.vaddr / PAGE_SIZE * PAGE_SIZE
  }

  /** W and X of the segment, always accessible to the user. */
  function SegmentPerms(ph: ProgramHeader): (p: nat)
    ensures p < 16
  {
    2 + (if FlagBit(ph.flags, PF_W) then 1 else 0) + (if FlagBit(ph.flags, PF_X) then 0 else 4)
  }

  /** What the program must find `i` bytes into the segment. */
  function SegmentByte(ph: ProgramHeader, file: seq<int>, i: nat): int
    requires ph.offset + ph.filesz <= |file|
  {
    if i < ph.filesz then file[ph.offset + i] else 0
  }

  ghost predicate PageOfSegment(ph: ProgramHeader, count: nat, v: Page) {
    exists j :: 0 <= j < count && PageOf(Base(ph) + j * PAGE_SIZE) == v
  }

  ghost predicate OthersKept(m: Memory, m': Memory, root: nat, ph: ProgramHeader, count: nat) {
    forall v: Page :: !PageOfSegment(ph, count, v) ==> PageKept(m, m', root, v)
  }

  ghost predicate PagesHeld(m: Memory, root: nat, ph: ProgramHeader, image: seq<int>, count: nat) {
    count * PAGE_SIZE <= |image| && forall j :: 0 <= j < count ==> HeldAt(m, root, ph, image, j)
  }

  ghost predicate HeldAt(m: Memory, root: nat, ph: ProgramHeader, image: seq<int>, j: nat)
    requires (j + 1) * PAGE_SIZE <= |image|
  {
    PageHolds(m, root, PageOf(Base(ph) + j * PAGE_SIZE), image[j * PAGE_SIZE..(j + 1) * PAGE_SIZE], SegmentPerms(ph))
  }

  /** The pages of a segment with fewer than 2^36 pages are distinct. */
  lemma SegmentPagesDistinct(ph: ProgramHeader, i: nat, j: nat)
    requires i < j < PAGES
    ensures PageOf(Base(ph) + i * PAGE_SIZE) != PageOf(Base(ph) + j * PAGE_SIZE)
  {
    var b := ph.vaddr / PAGE_SIZE;
    assert (Base(ph) + i * PAGE_SIZE) / PAGE_SIZE == b + i;
    assert (Base(ph) + j * PAGE_SIZE) / PAGE_SIZE == b + j;
  }

  lemma {:induction false} FewNumbers(s: set<nat>, n: nat)
    requires forall x :: x in s ==> x < n
    ensures |s| <= n
  {
    if n == 0 {
      assert s == {};
    } else {
      FewNumbers(s - {n - 1}, n - 1);
      if n - 1 in s {
        assert |s - {n - 1}| == |s| - 1;
      } else {
        assert s - {n - 1} == s;
      }
    }
  }

  ghost predicate UserSegment(ph: ProgramHeader) {
    forall v: Page :: PageOfSegment(ph, PageCount(ph), v) ==> UserPage(v)
  }

  /** The child is private and both spaces are in order: so the father can be kept out of reach. */
  ghost predicate FatherReady(m: Memory, father: nat, child: nat) {
    Space(m, father) && Private(m.frames, father, child)
  }

  ghost predicate FatherSafe(m0: Memory, m: Memory, father: nat, child: nat) {
    FatherReady(m, father, child) && SameSpace(m0, m, father) && DataKept(m0, m, father, child)
  }

  /** One round of allocate_segment's page loop. */
  method LoadPage(ram: Ram, root: nat, address: nat, content: seq<int>, perms: nat, ghost father: nat)
    returns (ghost f: nat, ghost mid: Memory)
    requires Space(ram.Value(), root) && address % PAGE_SIZE == 0 && perms < 16 && |content| == PAGE_SIZE
    requires |ram.free| >= 4
    modifies ram
    ensures PageLoaded(old(ram.Value()), mid, ram.Value(), root, PageOf(address), f, content, perms)
    ensures |ram.free| >= old(|ram.free|) - 4
  {
    hide Space, TableAt, Leaf, Grew, OnlyLeaf, WaysMade;
    ghost var m0 := ram.Value();
    SpaceParts(m0, root);
    NonEmpty(ram.free);
    var frame := ram.RequestPage();
    FewerFree(m0, ram.Value(), root);
    var panicked := ram.MapMemory(root, address, frame * PAGE_SIZE, perms);
    mid := ram.Value();
    GrewSpace(Memory(m0.frames, m0.free - {frame}), mid, root, PageOf(address));
    GrewRange(Memory(m0.frames, m0.free - {frame}), mid, root, PageOf(address));
    ram.frames := ram.frames[frame := Data(seq(PAGE_SIZE, _ => 0))];
    ram.frames := ram.frames[frame := Data(content)];
    assert ram.frames == mid.frames[frame := Data(content)];
    f := frame;
  }

  lemma NonEmpty(s: set<nat>)
    requires |s| >= 4
    ensures s != {}
  {
  }

  lemma GrewRange(m: Memory, m': Memory, root: nat, v: Page)
    requires Grew(m, m', root, v)
    ensures |m'.frames| == |m.frames| && m'.free <= m.free
  {
  }

  /** allocate_segment. At most four frames a page are taken: the page and three tables. */
  method AllocateSegment(ram: Ram, root: nat, ph: ProgramHeader, file: seq<int>, ghost father: nat)
    requires Space(ram.Value(), root)
    requires ph.ptype == PT_LOAD ==> ph.filesz <= ph.memsz && ph.offset + ph.filesz <= |file|
    requires ph.ptype == PT_LOAD ==> |ram.free| >= 4 * PageCount(ph)
    modifies ram
    ensures ph.ptype != PT_LOAD ==> ram.Value() == old(ram.Value())
    ensures Space(ram.Value(), root)
    ensures ph.ptype == PT_LOAD ==> Loaded(ram.Value(), root, ph, file)
    ensures ph.ptype == PT_LOAD ==> OthersKept(old(ram.Value()), ram.Value(), root, ph, PageCount(ph))
    ensures RightsKept(old(ram.frames), ram.frames, root)
    ensures ph.ptype == PT_LOAD ==> |ram.free| >= |old(ram.free)| - 4 * PageCount(ph)
    ensures FatherReady(old(ram.Value()), father, root) && (ph.ptype != PT_LOAD || UserSegment(ph)) ==>
      FatherSafe(old(ram.Value()), ram.Value(), father, root)
  {
    hide Space, Private, SameSpace, OthersKept, PagesHeld, Loaded, UserSegment, TableAt, PageLoaded, DataKept, RightsKept;
    ghost var m0 := ram.Value();
    NoRightsChanged(m0.frames, root);
    NothingChanged(m0, father, root);
    if ph.ptype != PT_LOAD {
      return;
    }
    var offset := ph.vaddr % PAGE_SIZE;
    var vaddr := ph.vaddr / PAGE_SIZE * PAGE_SIZE;
    var total := ph.memsz + offset;
    var pageNo := total / PAGE_SIZE;
    if total % PAGE_SIZE != 0 {
      pageNo := pageNo + 1;
    }
    var perms := 2;
    if FlagBit(ph.flags, PF_W) {
      perms := perms + 1;
    }
    if !FlagBit(ph.flags, PF_X) {
      perms := perms + 4;
    }
    ImageLength(ph);
    var buffer := seq(pageNo * PAGE_SIZE, _ => 0);
    buffer := buffer[..offset] + file[ph.offset..ph.offset + ph.filesz] + buffer[offset + ph.filesz..];
    FewPages(m0, root, pageNo);
    SegmentStart(m0, root, ph, buffer);
    var i := 0;
    while i < pageNo
      invariant 0 <= i <= pageNo && Space(ram.Value(), root)
      invariant |ram.free| >= |m0.free| - 4 * i && RightsKept(m0.frames, ram.frames, root)
      invariant PagesHeld(ram.Value(), root, ph, buffer, i) && OthersKept(m0, ram.Value(), root, ph, i)
      invariant FatherReady(m0, father, root) && UserSegment(ph) ==> FatherSafe(m0, ram.Value(), father, root)
    {
      ghost var m1 := ram.Value();
      ghost var f, mid := LoadPage(ram, root, vaddr + i * PAGE_SIZE, buffer[i * PAGE_SIZE..(i + 1) * PAGE_SIZE], perms, father);
      SegmentStep(m0, m1, mid, ram.Value(), root, ph, buffer, i, f);
      RightsKeptAgain(m0.frames, m1.frames, ram.frames, root);
      if FatherReady(m0, father, root) && UserSegment(ph) {
        SegmentPage(ph, i);
        PageInvisible(m1, mid, ram.Value(), father, root, PageOf(vaddr + i * PAGE_SIZE), f,
          buffer[i * PAGE_SIZE..(i + 1) * PAGE_SIZE], perms);
        SameSpaceAgain(m0, m1, ram.Value(), father);
        DataKeptAgain(m0, m1, ram.Value(), father, root);
      }
      i := i + 1;
    }
    SegmentLoaded(ram.Value(), root, ph, file, buffer);
  }

  lemma NoRightsChanged(frames: seq<Frame>, root: nat)
    ensures RightsKept(frames, frames, root)
  {
  }

  lemma NothingChanged(m: Memory, root: nat, child: nat)
    ensures SameSpace(m, m, root) && DataKept(m, m, root, child)
  {
  }

  lemma ImageLength(ph: ProgramHeader)
    requires ph.filesz <= ph.memsz
    ensures ph.vaddr % PAGE_SIZE + ph.filesz <= ph.vaddr % PAGE_SIZE + ph.memsz <= PageCount(ph) * PAGE_SIZE
  {
  }

  lemma FewPages(m: Memory, root: nat, n: nat)
    requires Space(m, root) && |m.free| >= 4 * n
    ensures n < PAGES
  {
    FewNumbers(m.free, FRAMES);
  }

  lemma SegmentStart(m: Memory, root: nat, ph: ProgramHeader, image: seq<int>)
    ensures PagesHeld(m, root, ph, image, 0) && OthersKept(m, m, root, ph, 0)
  {
  }

  lemma SegmentPage(ph: ProgramHeader, i: nat)
    requires UserSegment(ph) && i < PageCount(ph)
    ensures UserPage(PageOf(Base(ph) + i * PAGE_SIZE))
  {
    hide UserPage;
    assert PageOfSegment(ph, PageCount(ph), PageOf(Base(ph) + i * PAGE_SIZE));
  }

  lemma SegmentStep(m0: Memory, m1: Memory, mid: Memory, m2: Memory, root: nat, ph: ProgramHeader, image: seq<int>,
                    i: nat, f: nat)
    requires Space(m1, root) && i < PAGES && (i + 1) * PAGE_SIZE <= |image|
    requires PagesHeld(m1, root, ph, image, i) && OthersKept(m0, m1, root, ph, i)
    requires PageLoaded(m1, mid, m2, root, PageOf(Base(ph) + i * PAGE_SIZE), f,
      image[i * PAGE_SIZE..(i + 1) * PAGE_SIZE], SegmentPerms(ph))
    ensures Space(m2, root) && PagesHeld(m2, root, ph, image, i + 1) && OthersKept(m0, m2, root, ph, i + 1)
    ensures RightsKept(m1.frames, m2.frames, root)
  {
    hide Space, PageLoaded, Leaf, Backed, Base, RightsKept;
    var v := PageOf(Base(ph) + i * PAGE_SIZE);
    var content := image[i * PAGE_SIZE..(i + 1) * PAGE_SIZE];
    LoadedPage(m1, mid, m2, root, v, f, content, SegmentPerms(ph));
    forall w: Page | w != v
      ensures PageKept(m1, m2, root, w)
    {
      OtherPageKept(m1, mid, m2, root, v, f, content, SegmentPerms(ph), w);
    }
    forall j | 0 <= j < i + 1
      ensures HeldAt(m2, root, ph, image, j)
    {
      if j < i {
        assert HeldAt(m1, root, ph, image, j);
        SegmentPagesDistinct(ph, j, i);
        assert PageKept(m1, m2, root, PageOf(Base(ph) + j * PAGE_SIZE));
      }
    }
    forall w: Page | !PageOfSegment(ph, i + 1, w)
      ensures PageKept(m0, m2, root, w)
    {
      NotInMore(ph, i, w);
      assert PageKept(m0, m1, root, w);
      assert PageKept(m1, m2, root, w);
    }
  }

  lemma NotInMore(ph: ProgramHeader, i: nat, w: Page)
    requires !PageOfSegment(ph, i + 1, w)
    ensures !PageOfSegment(ph, i, w) && PageOf(Base(ph) + i * PAGE_SIZE) != w
  {
    hide Base;
  }

  /** The segment is in memory: file bytes, zeros behind them, and the permissions of its flags. */
  ghost predicate Loaded(m: Memory, root: nat, ph: ProgramHeader, file: seq<int>)
    requires ph.offset + ph.filesz <= |file|
  {
    forall i :: 0 <= i < ph.memsz ==> LoadedAt(m, root, ph, file, i)
  }

  ghost predicate LoadedAt(m: Memory, root: nat, ph: ProgramHeader, file: seq<int>, i: nat)
    requires ph.offset + ph.filesz <= |file|
  {
    var e := Leaf(m.frames, root, PageOf(ph.vaddr + i));
    && ByteAt(m, root, ph.vaddr + i) == Some(SegmentByte(ph, file, i))
    && e.present && e.user && (e.writeable <==> FlagBit(ph.flags, PF_W)) && (e.nx <==> !FlagBit(ph.flags, PF_X))
    && RightsAt(m.frames, root, ph.flags, PageOf(ph.vaddr + i))
  }

  /** The user reaches the page; bit 1 of the flags lets him write it, bit 0 execute it. All of this as far as the table
      entries on the way allow. */
  ghost predicate RightsAt(frames: seq<Frame>, root: nat, flags: nat, v: Page) {
    && (UserReaches(frames, root, v) <==> WayUser(frames, root, v))
    && (UserWrites(frames, root, v) <==> UserReaches(frames, root, v) && flags / 2 % 2 == 1 && WayWriteable(frames, root, v))
    && (UserExecutes(frames, root, v) <==> UserReaches(frames, root, v) && flags % 2 == 1 && WayExecutable(frames, root, v))
  }

  lemma RightsFromLeaf(frames: seq<Frame>, root: nat, ph: ProgramHeader, v: Page)
    requires var e := Leaf(frames, root, v);
      e.present && e.user && (e.writeable <==> FlagBit(ph.flags, PF_W)) && (e.nx <==> !FlagBit(ph.flags, PF_X))
    ensures RightsAt(frames, root, ph.flags, v)
  {
    hide Leaf, UserReaches, UserWrites, UserExecutes, WayUser, WayWriteable, WayExecutable;
    AccessExactly(frames, root, v);
  }

  lemma SegmentLoaded(m: Memory, root: nat, ph: ProgramHeader, file: seq<int>, image: seq<int>)
    requires ph.filesz <= ph.memsz && ph.offset + ph.filesz <= |file| && |image| == PageCount(ph) * PAGE_SIZE
    requires PagesHeld(m, root, ph, image, PageCount(ph))
    requires var offset := ph.vaddr % PAGE_SIZE;
      && offset + ph.filesz <= |image|
      && forall x :: 0 <= x < |image| ==>
        image[x] == if offset <= x < offset + ph.filesz then file[ph.offset + x - offset] else 0
    ensures Loaded(m, root, ph, file)
  {
    hide Backed, Leaf, PageCount, RightsAt;
    forall i | 0 <= i < ph.memsz
      ensures LoadedAt(m, root, ph, file, i)
    {
      var x := ph.vaddr % PAGE_SIZE + i;
      InSomePage(ph, i);
      var j := x / PAGE_SIZE;
      assert HeldAt(m, root, ph, image, j);
      assert image[j * PAGE_SIZE..(j + 1) * PAGE_SIZE][x % PAGE_SIZE] == image[x];
      BackedPresent(m, root, PageOf(ph.vaddr + i));
      PermsDecoded(Leaf(m.frames, root, PageOf(ph.vaddr + i)), ph);
      RightsFromLeaf(m.frames, root, ph, PageOf(ph.vaddr + i));
    }
  }

  lemma BackedPresent(m: Memory, root: nat, v: Page)
    requires Backed(m, root, v)
    ensures Leaf(m.frames, root, v).present
  {
  }

  lemma PermsDecoded(e: Entry, ph: ProgramHeader)
    requires PermsOf(e) == SegmentPerms(ph)
    ensures e.user && (e.writeable <==> FlagBit(ph.flags, PF_W)) && (e.nx <==> !FlagBit(ph.flags, PF_X))
  {
  }

  lemma InSomePage(ph: ProgramHeader, i: nat)
    requires i < ph.memsz
    ensures var x := ph.vaddr % PAGE_SIZE + i;
      && x < PageCount(ph) * PAGE_SIZE && x / PAGE_SIZE < PageCount(ph)
      && PageOf(ph.vaddr + i) == PageOf(Base(ph) + x / PAGE_SIZE * PAGE_SIZE)
      && (ph.vaddr + i) % PAGE_SIZE == x % PAGE_SIZE
      && x == x / PAGE_SIZE * PAGE_SIZE + x % PAGE_SIZE
  {
    var x := ph.vaddr % PAGE_SIZE + i;
    assert ph.vaddr + i == Base(ph) + x;
    assert (Base(ph) + x) / PAGE_SIZE == ph.vaddr / PAGE_SIZE + x / PAGE_SIZE;
    assert (Base(ph) + x / PAGE_SIZE * PAGE_SIZE) / PAGE_SIZE == ph.vaddr / PAGE_SIZE + x / PAGE_SIZE;
  }

  // ----- the program

  /** Frames the segments may take. */
  function FramesFor(phs: seq<ProgramHeader>): nat {
    if phs == [] then 0
    else (if phs[0].ptype == PT_LOAD then 4 * PageCount(phs[0]) else 0) + FramesFor(phs[1..])
  }

  lemma {:induction false} FramesForFirst(phs: seq<ProgramHeader>, i: nat)
    requires i < |phs|
    ensures FramesFor(phs[i..]) == (if phs[i].ptype == PT_LOAD then 4 * PageCount(phs[i]) else 0) + FramesFor(phs[i + 1..])
  {
    assert phs[i..][1..] == phs[i + 1..];
  }

  ghost predicate NoCommonPage(a: ProgramHeader, b: ProgramHeader) {
    forall v: Page :: PageOfSegment(a, PageCount(a), v) ==> !PageOfSegment(b, PageCount(b), v)
  }

  /** No page belongs to two segments. */
  ghost predicate PageDisjoint(phs: seq<ProgramHeader>) {
    forall i, j :: 0 <= i < j < |phs| && phs[i].ptype == PT_LOAD && phs[j].ptype == PT_LOAD ==> NoCommonPage(phs[i], phs[j])
  }

  predicate WellFormed(phs: seq<ProgramHeader>, file: seq<int>) {
    forall i :: 0 <= i < |phs| && phs[i].ptype == PT_LOAD ==>
      phs[i].filesz <= phs[i].memsz && phs[i].offset + phs[i].filesz <= |file|
  }

  ghost predicate AllUser(phs: seq<ProgramHeader>) {
    forall i :: 0 <= i < |phs| && phs[i].ptype == PT_LOAD ==> UserSegment(phs[i])
  }

  /** The PT_LOAD loop of elf_load_elf, into the address space of the new task. */
  method LoadSegments(ram: Ram, root: nat, phs: seq<ProgramHeader>, file: seq<int>, ghost father: nat)
    requires Space(ram.Value(), root) && WellFormed(phs, file) && PageDisjoint(phs)
    requires |ram.free| >= FramesFor(phs)
    modifies ram
    ensures Space(ram.Value(), root)
    ensures AllLoaded(ram.Value(), root, phs, file, |phs|) && RightsKept(old(ram.frames), ram.frames, root)
    ensures FatherReady(old(ram.Value()), father, root) && AllUser(phs) ==>
      FatherSafe(old(ram.Value()), ram.Value(), father, root)
  {
    hide Space, Private, SameSpace, DataKept, Loaded, UserSegment, TableAt, OthersKept, FramesFor, PageDisjoint, AllLoaded, AllUser, PageCount,
      RightsKept;
    ghost var m0 := ram.Value();
    NoRightsChanged(m0.frames, root);
    NothingChanged(m0, father, root);
    NoneLoaded(m0, root, phs, file);
    assert phs[0..] == phs;
    var i := 0;
    while i < |phs|
      invariant 0 <= i <= |phs| && Space(ram.Value(), root)
      invariant |ram.free| >= FramesFor(phs[i..]) && RightsKept(m0.frames, ram.frames, root)
      invariant AllLoaded(ram.Value(), root, phs, file, i)
      invariant FatherReady(m0, father, root) && AllUser(phs) ==> FatherSafe(m0, ram.Value(), father, root)
    {
      ghost var m1 := ram.Value();
      FramesForFirst(phs, i);
      if phs[i].ptype == PT_LOAD {
        AllocateSegment(ram, root, phs[i], file, father);
        RightsKeptAgain(m0.frames, m1.frames, ram.frames, root);
        if FatherReady(m0, father, root) && AllUser(phs) {
          UserAt(phs, i);
          SameSpaceAgain(m0, m1, ram.Value(), father);
          DataKeptAgain(m0, m1, ram.Value(), father, root);
        }
        OneMoreLoaded(m1, ram.Value(), root, phs, file, i);
      } else {
        SkippedSegment(m1, root, phs, file, i);
      }
      i := i + 1;
    }
  }

  ghost predicate AllLoaded(m: Memory, root: nat, phs: seq<ProgramHeader>, file: seq<int>, n: nat)
    requires WellFormed(phs, file) && n <= |phs|
  {
    forall i :: 0 <= i < n && phs[i].ptype == PT_LOAD ==> Loaded(m, root, phs[i], file)
  }

  lemma NoneLoaded(m: Memory, root: nat, phs: seq<ProgramHeader>, file: seq<int>)
    requires WellFormed(phs, file)
    ensures AllLoaded(m, root, phs, file, 0)
  {
  }

  lemma UserAt(phs: seq<ProgramHeader>, i: nat)
    requires AllUser(phs) && i < |phs|
    ensures phs[i].ptype == PT_LOAD ==> UserSegment(phs[i])
  {
  }

  lemma SkippedSegment(m: Memory, root: nat, phs: seq<ProgramHeader>, file: seq<int>, i: nat)
    requires WellFormed(phs, file) && i < |phs| && phs[i].ptype != PT_LOAD && AllLoaded(m, root, phs, file, i)
    ensures AllLoaded(m, root, phs, file, i + 1)
  {
    hide Loaded;
  }

  lemma OneMoreLoaded(m: Memory, m': Memory, root: nat, phs: seq<ProgramHeader>, file: seq<int>, i: nat)
    requires WellFormed(phs, file) && PageDisjoint(phs) && i < |phs| && phs[i].ptype == PT_LOAD
    requires AllLoaded(m, root, phs, file, i) && Loaded(m', root, phs[i], file)
    requires OthersKept(m, m', root, phs[i], PageCount(phs[i]))
    ensures AllLoaded(m', root, phs, file, i + 1)
  {
    hide Loaded, OthersKept, NoCommonPage, PageCount;
    forall k | 0 <= k < i && phs[k].ptype == PT_LOAD
      ensures Loaded(m', root, phs[k], file)
    {
      assert Loaded(m, root, phs[k], file);
      StaysLoaded(m, m', root, phs[k], phs[i], file);
    }
  }

  lemma StaysLoaded(m: Memory, m': Memory, root: nat, ph: ProgramHeader, other: ProgramHeader, file: seq<int>)
    requires ph.offset + ph.filesz <= |file| && ph.filesz <= ph.memsz
    requires NoCommonPage(ph, other)
    requires Loaded(m, root, ph, file) && OthersKept(m, m', root, other, PageCount(other))
    ensures Loaded(m', root, ph, file)
  {
    hide Leaf, Backed, PageOfSegment, PageCount, RightsAt;
    forall i | 0 <= i < ph.memsz
      ensures LoadedAt(m', root, ph, file, i)
    {
      assert LoadedAt(m, root, ph, file, i);
      ByteInSegment(ph, i);
      assert PageKept(m, m', root, PageOf(ph.vaddr + i));
      RightsFromLeaf(m'.frames, root, ph, PageOf(ph.vaddr + i));
    }
  }

  lemma ByteInSegment(ph: ProgramHeader, i: nat)
    requires i < ph.memsz
    ensures PageOfSegment(ph, PageCount(ph), PageOf(ph.vaddr + i))
  {
    InSomePage(ph, i);
    hide PageCount, Base;
    var j := (ph.vaddr % PAGE_SIZE + i) / PAGE_SIZE;
    assert PageOf(Base(ph) + j * PAGE_SIZE) == PageOf(ph.vaddr + i);
  }
}
