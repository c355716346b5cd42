/** Duplicating an address space: the upper three levels are copied, the page tables themselves are shared. */
module PageDuplication {
  import opened PageTables
  import opened WayEntries
  import opened Paging
  import opened AddressSpaces

  /** Role of a copied frame: its level, and the indices that lead to it. */
  type Role = (nat, int)

  /** Only frames that were free differ from `frames0`; `who` gives the role of each one taken. */
  ghost predicate Copying(m0: Memory, m: Memory, who: map<nat, Role>) {
    && FreeInRange(m0) && |m.frames| == |m0.frames| && m.free <= m0.free
    && (forall f :: 0 <= f < |m0.frames| && f !in m0.free ==> m.frames[f] == m0.frames[f])
    && (forall f :: f in who ==> f in m0.free && f !in m.free)
  }

  /** Slot `y` of the copy `g` of a level-1 table: a present entry leads to a copy of the level-2 table. */
  ghost predicate DirSlot(m0: Memory, m: Memory, s: Entry, e: Entry, x: int, y: int, done: bool, who: map<nat, Role>) {
    if done && s.present then
      && e == s.(ppn := e.ppn) && e.ppn in who && who[e.ppn] == (2, 512 * x + y)
      && s.ppn < |m0.frames| && e.ppn < |m.frames| && m.frames[e.ppn] == m0.frames[s.ppn]
    else e == s
  }

  ghost predicate DirCopied(m0: Memory, m: Memory, src: int, g: int, x: int, n: int, who: map<nat, Role>) {
    && IsTable(m0, src) && 0 <= g < |m.frames| && m.frames[g].Table? && |m.frames[g].entries| == 512
    && g in who && who[g] == (1, x)
    && forall y :: 0 <= y < 512 ==> DirSlot(m0, m, m0.frames[src].entries[y], m.frames[g].entries[y], x, y, y < n, who)
  }

  /** Slot `x` of the new top-level table. */
  ghost predicate TopSlot(m0: Memory, m: Memory, s: Entry, e: Entry, x: int, done: bool, who: map<nat, Role>) {
    if done && s.present then e == s.(ppn := e.ppn) && DirCopied(m0, m, s.ppn, e.ppn, x, 512, who)
    else e == ZERO_ENTRY
  }

  ghost predicate TopCopied(m0: Memory, m: Memory, father: int, child: int, start: int, n: int, who: map<nat, Role>) {
    && IsTable(m0, father) && 0 <= child < |m.frames| && m.frames[child].Table? && |m.frames[child].entries| == 512
    && child in who && who[child] == (0, 0)
    && forall x :: 0 <= x < 512 ==>
      TopSlot(m0, m, m0.frames[father].entries[x], m.frames[child].entries[x], x, start <= x < n, who)
  }

  /** The tables of the father's upper levels, as the copy loops read them. */
  ghost predicate Upper(m0: Memory, father: int) {
    && IsTable(m0, father)
    && forall x :: 0 <= x < 512 && m0.frames[father].entries[x].present ==>
      UpperDir(m0, m0.frames[father].entries[x].ppn)
  }

  ghost predicate UpperDir(m0: Memory, dir: int) {
    && IsTable(m0, dir)
    && forall y :: 0 <= y < 512 && m0.frames[dir].entries[y].present ==> IsTable(m0, m0.frames[dir].entries[y].ppn)
  }

  /** Everything that already has a role, save frame `g`, is as before. */
  ghost predicate OthersKept(m: Memory, m': Memory, who: map<nat, Role>, who': map<nat, Role>, g: int) {
    && |m'.frames| == |m.frames|
    && (forall f :: f in who ==> f in who' && who'[f] == who[f])
    && (forall f :: f in who && f != g && f < |m.frames| ==> m'.frames[f] == m.frames[f])
  }

  lemma DirKept(m0: Memory, m: Memory, m': Memory, src: int, g: int, x: int, n: int,
                who: map<nat, Role>, who': map<nat, Role>, other: int)
    requires DirCopied(m0, m, src, g, x, n, who) && OthersKept(m, m', who, who', other)
    requires other in who && who[other].0 != 2 && other != g
    ensures DirCopied(m0, m', src, g, x, n, who')
  {
    TableShape(m0, src);
    hide IsTable;
    forall y | 0 <= y < 512
      ensures DirSlot(m0, m', m0.frames[src].entries[y], m'.frames[g].entries[y], x, y, y < n, who')
    {
      assert DirSlot(m0, m, m0.frames[src].entries[y], m.frames[g].entries[y], x, y, y < n, who);
    }
  }

  lemma OneMoreEntry(m0: Memory, m: Memory, m': Memory, src: int, g: int, x: int, j: int,
                     who: map<nat, Role>, who': map<nat, Role>)
    requires DirCopied(m0, m, src, g, x, j, who) && 0 <= j < 512
    requires OthersKept(m, m', who, who', g)
    requires g < |m'.frames| && m'.frames[g].Table? && |m'.frames[g].entries| == 512
    requires forall y :: 0 <= y < 512 && y != j ==> m'.frames[g].entries[y] == m.frames[g].entries[y]
    requires DirSlot(m0, m', m0.frames[src].entries[j], m'.frames[g].entries[j], x, j, true, who')
    ensures DirCopied(m0, m', src, g, x, j + 1, who')
  {
    TableShape(m0, src);
    hide IsTable;
    forall y | 0 <= y < 512
      ensures DirSlot(m0, m', m0.frames[src].entries[y], m'.frames[g].entries[y], x, y, y < j + 1, who')
    {
      assert DirSlot(m0, m, m0.frames[src].entries[y], m.frames[g].entries[y], x, y, y < j, who);
    }
  }

  lemma TopKept(m0: Memory, m: Memory, m': Memory, father: int, child: int, start: int, i: int,
                who: map<nat, Role>, who': map<nat, Role>)
    requires TopCopied(m0, m, father, child, start, i, who) && 0 <= i < 512
    requires OthersKept(m, m', who, who', child)
    requires child < |m'.frames| && m'.frames[child].Table? && |m'.frames[child].entries| == 512
    requires forall x :: 0 <= x < 512 && x != i ==> m'.frames[child].entries[x] == m.frames[child].entries[x]
    requires TopSlot(m0, m', m0.frames[father].entries[i], m'.frames[child].entries[i], i, start <= i, who')
    ensures TopCopied(m0, m', father, child, start, i + 1, who')
  {
    TableShape(m0, father);
    hide IsTable, DirCopied;
    forall x | 0 <= x < 512
      ensures TopSlot(m0, m', m0.frames[father].entries[x], m'.frames[child].entries[x], x, start <= x < i + 1, who')
    {
      var s, e := m0.frames[father].entries[x], m.frames[child].entries[x];
      assert TopSlot(m0, m, s, e, x, start <= x < i, who);
      if x != i && start <= x < i && s.present {
        DirRole(m0, m, s.ppn, e.ppn, x, who);
        DirKept(m0, m, m', s.ppn, e.ppn, x, 512, who, who', child);
      }
    }
  }

  lemma DirRole(m0: Memory, m: Memory, src: int, g: int, x: int, who: map<nat, Role>)
    requires DirCopied(m0, m, src, g, x, 512, who)
    ensures g in who && who[g] == (1, x)
  {
  }

  /** The innermost loop of _duplicate_pd: copies present entries once more. */
  method CopyPresent(ram: Ram, pt: nat, newPt: nat)
    requires pt < |ram.frames| && newPt < |ram.frames| && ram.frames[newPt] == ram.frames[pt]
    requires ram.frames[pt].Table? && |ram.frames[pt].entries| == 512
    modifies ram`frames
    ensures ram.frames == old(ram.frames)
  {
    var k := 0;
    while k < 512
      invariant 0 <= k <= 512 && ram.frames == old(ram.frames)
    {
      var pte := ram.frames[pt].entries[k];
      if pte.present {
        assert ram.frames[newPt].entries[k := pte] == ram.frames[newPt].entries;
        ram.frames := ram.frames[newPt := Table(ram.frames[newPt].entries[k := pte])];
      }
      k := k + 1;
    }
  }

  /** The middle loop of _duplicate_pd: gives the copied level-1 table its own copies of the level-2 tables. */
  method CopyTables(ram: Ram, pd: nat, newPd: nat, ghost m0: Memory, ghost x: nat, ghost who0: map<nat, Role>)
    returns (panicked: bool, ghost who: map<nat, Role>)
    requires Copying(m0, ram.Value(), who0) && UpperDir(m0, pd)
    requires DirCopied(m0, ram.Value(), pd, newPd, x, 0, who0)
    modifies ram
    ensures panicked ==> ram.free == {}
    ensures !panicked ==> Copying(m0, ram.Value(), who) && DirCopied(m0, ram.Value(), pd, newPd, x, 512, who)
    ensures !panicked ==> OthersKept(old(ram.Value()), ram.Value(), who0, who, newPd)
  {
    hide DirCopied, UpperDir, Copying, OthersKept, DirSlot;
    who := who0;
    ghost var m1 := ram.Value();
    KeptSame(m1, who0, newPd);
    var j := 0;
    while j < 512
      invariant 0 <= j <= 512 && Copying(m0, ram.Value(), who)
      invariant DirCopied(m0, ram.Value(), pd, newPd, x, j, who)
      invariant OthersKept(m1, ram.Value(), who0, who, newPd)
    {
      ghost var m2, who2 := ram.Value(), who;
      UpperEntry(m0, m2, pd, newPd, x, j, who);
      var pde := ram.frames[pd].entries[j];
      if pde.present {
        var pt := pde.ppn;
        if ram.free == {} {
          return true, who;
        }
        var newPt := ram.RequestPage();
        TakenFrame(m0, m2, who, newPt);
        ram.frames := ram.frames[newPt := ram.frames[pt]];
        pde := pde.(ppn := newPt);
        ram.frames := ram.frames[newPd := Table(ram.frames[newPd].entries[j := pde])];
        CopyPresent(ram, pt, newPt);
        who := who[newPt := (2, 512 * x + j)];
        EntryCopied(m0, m2, ram.Value(), pd, newPd, x, j, who2, who, newPt);
        KeptAgain(m1, m2, ram.Value(), who0, who2, who, newPd);
      } else {
        KeptSame(m2, who, newPd);
        AbsentEntry(m0, m2, pd, newPd, x, j, who);
      }
      j := j + 1;
    }
    panicked := false;
  }

  lemma KeptSame(m: Memory, who: map<nat, Role>, g: int)
    ensures OthersKept(m, m, who, who, g)
  {
  }

  lemma KeptAgain(m0: Memory, m1: Memory, m2: Memory, who0: map<nat, Role>, who1: map<nat, Role>, who2: map<nat, Role>, g: int)
    requires OthersKept(m0, m1, who0, who1, g) && OthersKept(m1, m2, who1, who2, g)
    ensures OthersKept(m0, m2, who0, who2, g)
  {
  }

  lemma UpperEntry(m0: Memory, m: Memory, pd: nat, g: nat, x: int, j: int, who: map<nat, Role>)
    requires Copying(m0, m, who) && UpperDir(m0, pd) && DirCopied(m0, m, pd, g, x, j, who) && 0 <= j < 512
    ensures pd < |m.frames| && m.frames[pd] == m0.frames[pd] && m.frames[pd].Table? && |m.frames[pd].entries| == 512
    ensures g < |m.frames| && m.frames[g].Table? && |m.frames[g].entries| == 512 && g in who && g !in m.free && g != pd
    ensures var e := m.frames[pd].entries[j];
      && m.frames[g].entries[j] == e
      && (e.present ==> e.ppn < |m.frames| && m.frames[e.ppn] == m0.frames[e.ppn] && e.ppn !in m0.free && e.ppn != g)
      && (e.present ==> m.frames[e.ppn].Table? && |m.frames[e.ppn].entries| == 512)
  {
    assert DirSlot(m0, m, m0.frames[pd].entries[j], m.frames[g].entries[j], x, j, false, who);
  }

  lemma TakenFrame(m0: Memory, m: Memory, who: map<nat, Role>, f: nat)
    requires Copying(m0, m, who) && f in m.free
    ensures f < |m.frames| && f in m0.free && f !in who
  {
  }

  lemma AbsentEntry(m0: Memory, m: Memory, src: int, g: int, x: int, j: int, who: map<nat, Role>)
    requires DirCopied(m0, m, src, g, x, j, who) && 0 <= j < 512 && !m0.frames[src].entries[j].present
    ensures DirCopied(m0, m, src, g, x, j + 1, who)
  {
    KeptSame(m, who, g);
    assert DirSlot(m0, m, m0.frames[src].entries[j], m.frames[g].entries[j], x, j, j < j, who);
    OneMoreEntry(m0, m, m, src, g, x, j, who, who);
  }

  lemma EntryCopied(m0: Memory, m: Memory, m': Memory, pd: nat, g: nat, x: int, j: int,
                    who: map<nat, Role>, who': map<nat, Role>, h: nat)
    requires Copying(m0, m, who) && UpperDir(m0, pd) && DirCopied(m0, m, pd, g, x, j, who) && 0 <= j < 512
    requires h in m.free && m'.free == m.free - {h} && who' == who[h := (2, 512 * x + j)]
    requires m0.frames[pd].entries[j].present
    requires var pt := m0.frames[pd].entries[j].ppn;
      && pt < |m.frames| && h < |m.frames| && h != g
      && m'.frames == m.frames[h := m.frames[pt]][g :=
        Table(m.frames[g].entries[j := m0.frames[pd].entries[j].(ppn := h)])]
    ensures Copying(m0, m', who') && DirCopied(m0, m', pd, g, x, j + 1, who') && OthersKept(m, m', who, who', g)
  {
    UpperEntry(m0, m, pd, g, x, j, who);
    TakenFrame(m0, m, who, h);
    hide DirCopied, UpperDir;
    assert Copying(m0, m', who');
    assert OthersKept(m, m', who, who', g);
    hide Copying, OthersKept;
    OneMoreEntry(m0, m, m', pd, g, x, j, who, who');
  }

  /** _duplicate_pd: panics when pages run out; otherwise a private copy of slots start..end-1 over shared page tables. */
  method DuplicatePd(ram: Ram, father: nat, start: nat, end: nat) returns (panicked: bool, child: nat)
    requires Space(ram.Value(), father) && start <= end <= 512
    modifies ram
    ensures panicked ==> ram.free == {}
    ensures !panicked ==> SameSpace(old(ram.Value()), ram.Value(), father) && Space(ram.Value(), father)
    ensures !panicked ==> Space(ram.Value(), child) && child in old(ram.free) && ram.free <= old(ram.free)
    ensures !panicked ==> Duplicated(ram.frames, father, child, start, end) && UpperFresh(ram.frames, child, old(ram.free))
    ensures !panicked && KERNEL_HALF <= start ==> Private(ram.frames, father, child)
    ensures !panicked ==> OnlyFreeTaken(old(ram.Value()), ram.Value()) && WaysCopied(ram.frames, father, child, start, end)
  {
    hide WaysCopied, OnlyFreeTaken, Space, TopCopied, Copying, OthersKept, DirCopied, Upper, UpperDir, SameSpace, Duplicated,
      Private, UpperFresh;
    ghost var m0 := ram.Value();
    SpaceParts(m0, father);
    ghost var who: map<nat, Role> := map[];
    child := 0;
    if ram.free == {} {
      return true, child;
    }
    child := ram.RequestPage();
    FatherUpper(m0, father);
    ram.frames := ram.frames[child := ZeroTable()];
    who := who[child := (0, 0)];
    TopStart(m0, ram.Value(), father, child, start, who);
    var i := start;
    while i < end
      invariant start <= i <= end && Copying(m0, ram.Value(), who)
      invariant TopCopied(m0, ram.Value(), father, child, start, i, who)
    {
      ghost var m1, who1 := ram.Value(), who;
      TopEntry(m0, m1, father, child, start, i, who);
      var pde := ram.frames[father].entries[i];
      if pde.present {
        var pd := pde.ppn;
        if ram.free == {} {
          return true, child;
        }
        var newPd := ram.RequestPage();
        TakenFrame(m0, m1, who, newPd);
        ram.frames := ram.frames[newPd := ram.frames[pd]];
        pde := pde.(ppn := newPd);
        ram.frames := ram.frames[child := Table(ram.frames[child].entries[i := pde])];
        ghost var m2 := ram.Value();
        who := who[newPd := (1, i)];
        DirStart(m0, m1, m2, father, child, start, i, who1, who, newPd);
        var failed;
        failed, who := CopyTables(ram, pd, newPd, m0, i, who);
        if failed {
          return true, child;
        }
        SlotCopied(m0, m1, m2, ram.Value(), father, child, start, i, who1, who1[newPd := (1, i)], who, newPd);
      } else {
        AbsentSlot(m0, m1, father, child, start, i, who);
      }
      i := i + 1;
    }
    panicked := false;
    DuplicateDone(m0, ram.Value(), father, child, start, end, who);
  }

  lemma TopStart(m0: Memory, m: Memory, father: nat, child: nat, start: int, who: map<nat, Role>)
    requires FreeInRange(m0) && IsTable(m0, father) && child in m0.free
    requires m == Memory(m0.frames[child := ZeroTable()], m0.free - {child}) && who == map[child := (0, 0)]
    ensures Copying(m0, m, who) && TopCopied(m0, m, father, child, start, start, who)
  {
  }

  lemma FatherUpper(m0: Memory, father: nat)
    requires Space(m0, father)
    ensures Upper(m0, father) && IsTable(m0, father)
  {
    hide Space, TableAt;
    TableStep(m0.frames, father, 0, 0);
    TableIs(m0, father, 0, 0);
    forall x | 0 <= x < 512 && m0.frames[father].entries[x].present
      ensures UpperDir(m0, m0.frames[father].entries[x].ppn)
    {
      var dir := m0.frames[father].entries[x].ppn;
      var v0: Page := x * 0x800_0000;
      TableStep(m0.frames, father, v0, 0);
      TableIs(m0, father, v0, 1);
      forall y | 0 <= y < 512 && m0.frames[dir].entries[y].present
        ensures IsTable(m0, m0.frames[dir].entries[y].ppn)
      {
        var v: Page := x * 0x800_0000 + y * 0x4_0000;
        IndicesOf(v, x, y);
        TableStep(m0.frames, father, v, 0);
        TableStep(m0.frames, father, v, 1);
        TableIs(m0, father, v, 2);
      }
    }
  }

  lemma IndicesOf(v: Page, x: int, y: int)
    requires 0 <= x < 512 && 0 <= y < 512 && v == x * 0x800_0000 + y * 0x4_0000
    ensures Index(v, 0) == x && Index(v, 1) == y
  {
    assert v / 0x4_0000 == 512 * x + y;
    assert v / 0x800_0000 == x;
  }

  lemma TopEntry(m0: Memory, m: Memory, father: nat, child: nat, start: int, i: int, who: map<nat, Role>)
    requires Copying(m0, m, who) && Upper(m0, father) && TopCopied(m0, m, father, child, start, i, who) && start <= i
    requires 0 <= i < 512
    ensures father < |m.frames| && m.frames[father] == m0.frames[father] && m.frames[father].Table?
    ensures |m.frames[father].entries| == 512
    ensures child < |m.frames| && m.frames[child].Table? && |m.frames[child].entries| == 512
    ensures child in who && child !in m.free && child != father && m.frames[child].entries[i] == ZERO_ENTRY
    ensures var e := m.frames[father].entries[i];
      && (e.present ==> e.ppn < |m.frames| && e.ppn !in m0.free && m.frames[e.ppn] == m0.frames[e.ppn])
      && (e.present ==> UpperDir(m0, e.ppn) && m.frames[e.ppn].Table? && |m.frames[e.ppn].entries| == 512)
  {
    hide DirCopied;
    assert TopSlot(m0, m, m0.frames[father].entries[i], m.frames[child].entries[i], i, false, who);
  }

  lemma AbsentSlot(m0: Memory, m: Memory, father: int, child: int, start: int, i: int, who: map<nat, Role>)
    requires TopCopied(m0, m, father, child, start, i, who) && 0 <= start <= i < 512 && !m0.frames[father].entries[i].present
    ensures TopCopied(m0, m, father, child, start, i + 1, who)
  {
    KeptSame(m, who, child);
    hide DirCopied;
    assert TopSlot(m0, m, m0.frames[father].entries[i], m.frames[child].entries[i], i, false, who);
    TopKept(m0, m, m, father, child, start, i, who, who);
  }

  lemma DirStart(m0: Memory, m1: Memory, m2: Memory, father: nat, child: nat, start: int, i: int,
                 who1: map<nat, Role>, who2: map<nat, Role>, g: nat)
    requires Copying(m0, m1, who1) && Upper(m0, father) && TopCopied(m0, m1, father, child, start, i, who1)
    requires 0 <= start <= i < 512 && g in m1.free && g < |m1.frames| && m2.free == m1.free - {g} && who2 == who1[g := (1, i)]
    requires m0.frames[father].entries[i].present
    requires var s := m0.frames[father].entries[i];
      && s.ppn < |m1.frames| && g != child
      && m2.frames == m1.frames[g := m1.frames[s.ppn]][child := Table(m1.frames[child].entries[i := s.(ppn := g)])]
    ensures Copying(m0, m2, who2) && DirCopied(m0, m2, m0.frames[father].entries[i].ppn, g, i, 0, who2)
    ensures OthersKept(m1, m2, who1, who2, child)
  {
    TopEntry(m0, m1, father, child, start, i, who1);
    TakenFrame(m0, m1, who1, g);
    hide TopCopied, Upper;
  }

  lemma SlotCopied(m0: Memory, m1: Memory, m2: Memory, m3: Memory, father: nat, child: nat, start: int, i: int,
                   who1: map<nat, Role>, who2: map<nat, Role>, who3: map<nat, Role>, g: nat)
    requires TopCopied(m0, m1, father, child, start, i, who1) && 0 <= start <= i < 512
    requires OthersKept(m1, m2, who1, who2, child) && OthersKept(m2, m3, who2, who3, g)
    requires g !in who1 && g != child && child < |m2.frames| && m2.frames[child].Table?
    requires m2.frames[child] == Table(m1.frames[child].entries[i := m0.frames[father].entries[i].(ppn := g)])
    requires m0.frames[father].entries[i].present
    requires DirCopied(m0, m3, m0.frames[father].entries[i].ppn, g, i, 512, who3)
    ensures TopCopied(m0, m3, father, child, start, i + 1, who3)
  {
    hide DirCopied;
    assert OthersKept(m1, m3, who1, who3, child);
    assert m3.frames[child] == m2.frames[child];
    hide OthersKept;
    TopKept(m0, m1, m3, father, child, start, i, who1, who3);
  }

  /** Frames that were not free hold what they held. */
  ghost predicate OnlyFreeTaken(m: Memory, m': Memory) {
    && |m'.frames| == |m.frames| && m'.free <= m.free
    && forall f :: 0 <= f < |m.frames| && f !in m.free ==> m'.frames[f] == m.frames[f]
  }

  /** What the child shares with the father after _duplicate_pd. */
  ghost predicate Duplicated(frames: seq<Frame>, father: nat, child: nat, start: nat, end: nat) {
    forall v: Page ::
      if start <= Index(v, 0) < end then
        Leaf(frames, child, v) == Leaf(frames, father, v) && TableAt(frames, child, v, 3) == TableAt(frames, father, v, 3)
      else TableAt(frames, child, v, 1) == NONE && Leaf(frames, child, v) == ZERO_ENTRY
  }

  /** The copy of an entry on the way leads elsewhere, and says the same otherwise. */
  predicate WayCopied(e: Entry, e': Entry) {
    if e.present then e' == e.(ppn := e'.ppn) else !e'.present
  }

  /** The entries on the child's ways: copies for the copied slots, empty for the others. */
  ghost predicate WaysCopied(frames: seq<Frame>, father: nat, child: nat, start: nat, end: nat) {
    forall v: Page, k: nat :: k <= 2 ==>
      if start <= Index(v, 0) < end then WayCopied(WayEntry(frames, father, v, k), WayEntry(frames, child, v, k))
      else WayEntry(frames, child, v, k) == ZERO_ENTRY
  }

  /** The child's tables of the upper three levels were taken from `free0`: none is shared with anyone. */
  ghost predicate UpperFresh(frames: seq<Frame>, child: nat, free0: set<nat>) {
    forall v: Page, l: nat :: l <= 2 && TableAt(frames, child, v, l) != NONE ==> TableAt(frames, child, v, l) in free0
  }

  /** Where the child's walk leads: copies on the first three levels, the father's page tables on the last. */
  lemma ChildTables(m0: Memory, m: Memory, father: nat, child: nat, start: nat, end: nat, who: map<nat, Role>, v: Page)
    requires Space(m0, father) && Copying(m0, m, who) && TopCopied(m0, m, father, child, start, end, who)
    requires start <= end <= 512
    ensures var c, f := (l: nat) => TableAt(m.frames, child, v, l), (l: nat) => TableAt(m0.frames, father, v, l);
      && c(0) == child && child in who && who[child] == (0, 0)
      && (if start <= Index(v, 0) < end then
           && (c(1) == NONE <==> f(1) == NONE) && (c(1) != NONE ==> c(1) in who && who[c(1)] == (1, Prefix(v, 1)))
           && (c(2) == NONE <==> f(2) == NONE) && (c(2) != NONE ==> c(2) in who && who[c(2)] == (2, Prefix(v, 2)))
           && c(3) == f(3)
         else c(1) == c(2) == c(3) == NONE)
  {
    hide Space, TableAt, DirCopied, Prefix, Index;
    var x, y, z := Index(v, 0), Index(v, 1), Index(v, 2);
    TableStep(m0.frames, father, v, 0);
    TableStep(m0.frames, father, v, 1);
    TableStep(m0.frames, father, v, 2);
    TableStep(m.frames, child, v, 0);
    TableStep(m.frames, child, v, 1);
    TableStep(m.frames, child, v, 2);
    IndexBound(v, 0);
    PrefixesOf(v);
    var s, e := m0.frames[father].entries[x], m.frames[child].entries[x];
    assert TopSlot(m0, m, s, e, x, start <= x < end, who);
    if start <= x < end && s.present {
      DirRole(m0, m, s.ppn, e.ppn, x, who);
      DirTables(m0, m, s.ppn, e.ppn, x, y, z, who);
    } else {
      NoEntryInNone(m.frames, y);
      NoEntryInNone(m0.frames, y);
      NoEntryInNone(m.frames, z);
      NoEntryInNone(m0.frames, z);
    }
  }

  lemma PrefixesOf(v: Page)
    ensures Prefix(v, 1) == Index(v, 0) && Prefix(v, 2) == 512 * Index(v, 0) + Index(v, 1)
  {
    PrefixStep(v, 0);
    PrefixStep(v, 1);
    hide Index;
  }

  lemma DirTables(m0: Memory, m: Memory, src: int, g: int, x: int, y: int, z: int, who: map<nat, Role>)
    requires DirCopied(m0, m, src, g, x, 512, who) && 0 <= y < 512 && 0 <= z < 512
    ensures var s, e := EntryIn(m0.frames, src, y), EntryIn(m.frames, g, y);
      && (s.present <==> e.present)
      && (s.present ==> e.ppn in who && who[e.ppn] == (2, 512 * x + y) && e == s.(ppn := e.ppn))
      && (s.present ==> EntryIn(m.frames, e.ppn, z) == EntryIn(m0.frames, s.ppn, z))
  {
    assert DirSlot(m0, m, m0.frames[src].entries[y], m.frames[g].entries[y], x, y, true, who);
  }

  /** What the child's walk reads on the way. */
  lemma ChildWays(m0: Memory, m: Memory, father: nat, child: nat, start: nat, end: nat, who: map<nat, Role>, v: Page, k: nat)
    requires Space(m0, father) && Copying(m0, m, who) && TopCopied(m0, m, father, child, start, end, who)
    requires start <= end <= 512 && k <= 2
    ensures if start <= Index(v, 0) < end then WayCopied(WayEntry(m0.frames, father, v, k), WayEntry(m.frames, child, v, k))
      else WayEntry(m.frames, child, v, k) == ZERO_ENTRY
  {
    ChildTables(m0, m, father, child, start, end, who, v);
    hide Space, TableAt, DirCopied, Prefix, Index;
    var x, y, z := Index(v, 0), Index(v, 1), Index(v, 2);
    TableStep(m0.frames, father, v, 0);
    TableStep(m0.frames, father, v, 1);
    TableStep(m.frames, child, v, 0);
    TableStep(m.frames, child, v, 1);
    IndexBound(v, 0);
    IndexBound(v, 1);
    IndexBound(v, 2);
    var s, e := m0.frames[father].entries[x], m.frames[child].entries[x];
    assert TopSlot(m0, m, s, e, x, start <= x < end, who);
    NoEntryInNone(m.frames, y);
    NoEntryInNone(m0.frames, y);
    NoEntryInNone(m.frames, z);
    NoEntryInNone(m0.frames, z);
    if start <= x < end && s.present {
      DirTables(m0, m, s.ppn, e.ppn, x, y, z, who);
    }
  }

  lemma DuplicateWays(m0: Memory, m: Memory, father: nat, child: nat, start: nat, end: nat, who: map<nat, Role>)
    requires Space(m0, father) && Copying(m0, m, who) && TopCopied(m0, m, father, child, start, end, who)
    requires start <= end <= 512 && WaysKept(m0.frames, m.frames, father)
    ensures WaysCopied(m.frames, father, child, start, end)
  {
    hide Space, Copying, TopCopied, WayEntry, Index;
    forall v: Page, k: nat | k <= 2
      ensures if start <= Index(v, 0) < end then WayCopied(WayEntry(m.frames, father, v, k), WayEntry(m.frames, child, v, k))
        else WayEntry(m.frames, child, v, k) == ZERO_ENTRY
    {
      ChildWays(m0, m, father, child, start, end, who, v, k);
    }
  }

  /** A duplicate opens its copied pages to the user exactly as the father does. */
  lemma SameAccess(frames: seq<Frame>, father: nat, child: nat, start: nat, end: nat, v: Page)
    requires Duplicated(frames, father, child, start, end) && WaysCopied(frames, father, child, start, end)
    requires start <= Index(v, 0) < end
    ensures UserReaches(frames, child, v) <==> UserReaches(frames, father, v)
    ensures UserWrites(frames, child, v) <==> UserWrites(frames, father, v)
    ensures UserExecutes(frames, child, v) <==> UserExecutes(frames, father, v)
  {
    assert WayEntry(frames, child, v, 3) == Leaf(frames, child, v) && WayEntry(frames, father, v, 3) == Leaf(frames, father, v);
    hide WayEntry, Leaf, Index, TableAt;
    forall k: nat | k <= 3
      ensures WayCopied(WayEntry(frames, father, v, k), WayEntry(frames, child, v, k))
    {
    }
  }

  /** Behind an empty slot nothing on the way refuses the user. */
  lemma EmptyWay(frames: seq<Frame>, father: nat, child: nat, start: nat, end: nat, v: Page)
    requires WaysCopied(frames, father, child, start, end) && !(start <= Index(v, 0) < end)
    ensures WayUser(frames, child, v) && WayWriteable(frames, child, v) && WayExecutable(frames, child, v)
  {
    hide WayEntry, Index;
  }

  lemma DuplicateDone(m0: Memory, m: Memory, father: nat, child: nat, start: nat, end: nat, who: map<nat, Role>)
    requires Space(m0, father) && Copying(m0, m, who) && TopCopied(m0, m, father, child, start, end, who)
    requires start <= end <= 512
    ensures SameSpace(m0, m, father) && Space(m, father) && Space(m, child) && child in m0.free
    ensures Duplicated(m.frames, father, child, start, end) && m.free <= m0.free
    ensures UpperFresh(m.frames, child, m0.free) && WaysCopied(m.frames, father, child, start, end)
    ensures KERNEL_HALF <= start ==> Private(m.frames, father, child)
    ensures OnlyFreeTaken(m0, m)
  {
    hide TableAt, Space, Prefix, Index, TopCopied, IsTable;
    forall s | 0 <= s < |m0.frames| && Reached(m0.frames, father, s)
      ensures m.frames[s] == m0.frames[s]
    {
      if s in m0.free {
        FreeUnreached(m0, father, s);
      }
    }
    UntouchedSpace(m0, m, father);
    DuplicateWays(m0, m, father, child, start, end, who);
    hide WaysCopied, WaysKept;
    ChildSpace(m0, m, father, child, start, end, who);
    forall v: Page, l: nat | l <= 2 && TableAt(m.frames, child, v, l) != NONE
      ensures TableAt(m.frames, child, v, l) in m0.free
    {
      ChildRole(m0, m, father, child, start, end, who, v, l);
    }
    forall v: Page
      ensures if start <= Index(v, 0) < end then
          Leaf(m.frames, child, v) == Leaf(m.frames, father, v) && TableAt(m.frames, child, v, 3) == TableAt(m.frames, father, v, 3)
        else TableAt(m.frames, child, v, 1) == NONE && Leaf(m.frames, child, v) == ZERO_ENTRY
    {
      ChildTables(m0, m, father, child, start, end, who, v);
      NoEntryInNone(m.frames, Index(v, 3));
    }
    ChildTables(m0, m, father, child, start, end, who, 0);
    if KERNEL_HALF <= start {
      hide Reached, Leaf, Copying;
      forall v: Page, l: nat | l <= 3 && UserPage(v) && TableAt(m.frames, child, v, l) != NONE
        ensures !Reached(m.frames, father, TableAt(m.frames, child, v, l))
      {
        ChildTables(m0, m, father, child, start, end, who, v);
        assert l == 0;
        FreeUnreached(m0, father, child);
      }
    }
  }

  lemma ChildSpace(m0: Memory, m: Memory, father: nat, child: nat, start: nat, end: nat, who: map<nat, Role>)
    requires Space(m0, father) && Copying(m0, m, who) && TopCopied(m0, m, father, child, start, end, who)
    requires start <= end <= 512
    ensures Space(m, child)
  {
    hide TableAt, Space, Prefix, Index;
    forall v: Page, l: nat | l <= 3 && TableAt(m.frames, child, v, l) != NONE
      ensures IsTable(m, TableAt(m.frames, child, v, l))
    {
      ChildTableIs(m0, m, father, child, start, end, who, v, l);
    }
    forall v: Page, w: Page, l: nat, k: nat | l <= 3 && k <= 3 && SameTable(m.frames, child, v, w, l, k)
      ensures l == k && Prefix(v, l) == Prefix(w, l)
    {
      ChildRole(m0, m, father, child, start, end, who, v, l);
      ChildRole(m0, m, father, child, start, end, who, w, k);
      PrefixZero(v, w);
      if l == 3 && k == 3 {
        SpaceParts(m0, father);
        Apart(m0.frames, father, v, w, 3, 3);
      }
    }
    hide TopCopied;
    MakeSpace(m, child);
  }

  lemma PrefixZero(v: Page, w: Page)
    ensures Prefix(v, 0) == Prefix(w, 0) == 0
  {
  }

  lemma ChildRole(m0: Memory, m: Memory, father: nat, child: nat, start: nat, end: nat, who: map<nat, Role>, v: Page, l: nat)
    requires Space(m0, father) && Copying(m0, m, who) && TopCopied(m0, m, father, child, start, end, who)
    requires start <= end <= 512 && l <= 3 && TableAt(m.frames, child, v, l) != NONE
    ensures var t := TableAt(m.frames, child, v, l);
      if l <= 2 then t in who && who[t] == (l, Prefix(v, l))
      else t !in who && t == TableAt(m0.frames, father, v, 3) != NONE
  {
    hide TableAt, Space, Prefix, Index, TopCopied;
    ChildTables(m0, m, father, child, start, end, who, v);
    PrefixZero(v, v);
    if l == 3 {
      TableIs(m0, father, v, 3);
    }
  }

  lemma ChildTableIs(m0: Memory, m: Memory, father: nat, child: nat, start: nat, end: nat, who: map<nat, Role>, v: Page, l: nat)
    requires Space(m0, father) && Copying(m0, m, who) && TopCopied(m0, m, father, child, start, end, who)
    requires start <= end <= 512 && l <= 3 && TableAt(m.frames, child, v, l) != NONE
    ensures IsTable(m, TableAt(m.frames, child, v, l))
  {
    hide TableAt, Space, Prefix, Index, DirCopied;
    ChildRole(m0, m, father, child, start, end, who, v, l);
    ChildTables(m0, m, father, child, start, end, who, v);
    var x, y := Index(v, 0), Index(v, 1);
    IndexBound(v, 0);
    IndexBound(v, 1);
    TableStep(m.frames, child, v, 0);
    TableStep(m.frames, child, v, 1);
    TableStep(m0.frames, father, v, 0);
    TableStep(m0.frames, father, v, 1);
    if l == 3 {
      TableIs(m0, father, v, 3);
    } else if l > 0 {
      var s, e := m0.frames[father].entries[x], m.frames[child].entries[x];
      assert TopSlot(m0, m, s, e, x, start <= x < end, who);
      DirIs(m0, m, s.ppn, e.ppn, x, y, who);
      if l == 2 {
        TableIs(m0, father, v, 2);
      }
    }
  }

  lemma DirIs(m0: Memory, m: Memory, src: int, g: int, x: int, y: int, who: map<nat, Role>)
    requires DirCopied(m0, m, src, g, x, 512, who) && 0 <= y < 512 && Copying(m0, m, who)
    ensures IsTable(m, g)
    ensures var s, e := EntryIn(m0.frames, src, y), EntryIn(m.frames, g, y);
      s.present && IsTable(m0, s.ppn) ==> IsTable(m, e.ppn)
  {
    assert DirSlot(m0, m, m0.frames[src].entries[y], m.frames[g].entries[y], x, y, true, who);
  }

  /** duplicate_current_kernel_pml4: same kernel half, empty and private user half. */
  method DuplicateKernelPml4(ram: Ram, father: nat) returns (panicked: bool, child: nat)
    requires Space(ram.Value(), father)
    modifies ram
    ensures panicked ==> ram.free == {}
    ensures !panicked ==> SameSpace(old(ram.Value()), ram.Value(), father) && Space(ram.Value(), father)
    ensures !panicked ==> Space(ram.Value(), child) && Private(ram.frames, father, child)
    ensures !panicked ==> Duplicated(ram.frames, father, child, KERNEL_HALF, 512)
    ensures !panicked ==> UpperFresh(ram.frames, child, old(ram.free)) && OnlyFreeTaken(old(ram.Value()), ram.Value())
    ensures !panicked ==> WaysCopied(ram.frames, father, child, KERNEL_HALF, 512)
    ensures !panicked ==> (forall v: Page ::
      Translate(ram.frames, child, v) == if UserPage(v) then 0 else Translate(old(ram.frames), father, v))
  {
    hide Space, SameSpace, Private, Leaf, UpperFresh, OnlyFreeTaken, WaysCopied;
    ghost var m0 := ram.Value();
    panicked, child := DuplicatePd(ram, father, KERNEL_HALF, 512);
    if !panicked {
      LeavesOf(m0, ram.Value(), father);
    }
  }

  lemma LeavesOf(m: Memory, m': Memory, root: nat)
    requires SameSpace(m, m', root)
    ensures forall v: Page :: Leaf(m'.frames, root, v) == Leaf(m.frames, root, v)
  {
  }

  /** Below the copied levels nothing is private: a page-table entry of a shared table changes in both spaces. */
  lemma SharedPageTable(m: Memory, father: nat, child: nat, v: Page, e: Entry)
    requires Space(m, father) && Space(m, child)
    requires TableAt(m.frames, child, v, 3) == TableAt(m.frames, father, v, 3) != NONE
    ensures var frames' := Write(m.frames, TableAt(m.frames, child, v, 3), Index(v, 3), e);
      Leaf(frames', child, v) == e && Leaf(frames', father, v) == e
  {
    hide Space, TableAt, Write;
    var frames' := Write(m.frames, TableAt(m.frames, child, v, 3), Index(v, 3), e);
    WriteLeaf(m, child, v, e, frames');
    WriteLeaf(m, father, v, e, frames');
  }
}
