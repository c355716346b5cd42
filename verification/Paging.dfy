/** Mapping, unmapping and protecting pages in an address space. */
module Paging {
  import opened PageTables
  import opened WayEntries

  const WIDTH_40: int := 0x100_0000_0000
  const WIDTH_64: int := 0x1_0000_0000_0000_0000

  predicate FlagBit(flags: nat, bit: nat)
    requires bit > 0
  {
    flags / bit % 2 == 1
  }

  /** The permission bits of an entry after they were set to `flags`. */
  function WithPerms(e: Entry, flags: nat): Entry {
    e.(writeable := FlagBit(flags, 1), user := FlagBit(flags, 2), nx := FlagBit(flags, 4),
       cacheDisabled := FlagBit(flags, 8))
  }

  /** An entry after mapping it to `physical`; page_ppn keeps 28 bits. */
  function MappedTo(e: Entry, physical: nat, flags: nat): Entry {
    WithPerms(e.(present := true, ppn := physical / PAGE_SIZE % FRAMES), flags)
  }

  function Bit(b: bool, weight: nat): nat {
    if b then weight else 0
  }

  /** get_page_perms_hh's encoding. */
  function PermsOf(e: Entry): nat {
    Bit(e.writeable, 1) + Bit(e.user, 2) + Bit(e.nx, 4) + Bit(e.cacheDisabled, 8)
  }

  /** Physical address of a page's frame, 0 when it is not mapped. */
  function Translate(frames: seq<Frame>, root: nat, v: Page): int {
    var e := Leaf(frames, root, v);
    if e.present then e.ppn * PAGE_SIZE else 0
  }

  lemma QuotientsOfTwo(n: nat)
    ensures n / 4 == n / 2 / 2 && n / 8 == n / 4 / 2
  {
  }

  lemma Remainder16(n: nat, d: nat, r: nat)
    requires n == 16 * d + r && r < 16
    ensures n % 16 == r
  {
  }

  lemma Bits4(n: nat, a: nat, b: nat, c: nat, d: nat, r0: nat, r1: nat, r2: nat, r3: nat)
    requires n == 2 * a + r0 && a == 2 * b + r1 && b == 2 * c + r2 && c == 2 * d + r3
    requires r0 < 2 && r1 < 2 && r2 < 2 && r3 < 2
    ensures n % 16 == r0 + 2 * r1 + 4 * r2 + 8 * r3
  {
    Remainder16(n, d, r0 + 2 * r1 + 4 * r2 + 8 * r3);
  }

  lemma LowFourBits(n: nat, a: nat, b: nat, c: nat)
    requires a == n / 2 && b == a / 2 && c == b / 2
    ensures n % 16 == n % 2 + 2 * (a % 2) + 4 * (b % 2) + 8 * (c % 2)
  {
    Bits4(n, a, b, c, c / 2, n % 2, a % 2, b % 2, c % 2);
  }

  /** Permissions read back are those set, whatever the entry was. */
  lemma PermsReadBack(e: Entry, flags: nat)
    ensures PermsOf(WithPerms(e, flags)) == flags % 16
  {
    QuotientsOfTwo(flags);
    LowFourBits(flags, flags / 2, flags / 4, flags / 8);
  }

  /** A mapping translates back to its address exactly below 2^40: page_ppn is 28 bits wide. */
  lemma MappedExactly(e: Entry, physical: nat, flags: nat)
    requires physical % PAGE_SIZE == 0
    ensures MappedTo(e, physical, flags).ppn * PAGE_SIZE == physical <==> physical < WIDTH_40
  {
    assert physical == PAGE_SIZE * (physical / PAGE_SIZE);
    assert physical < WIDTH_40 <==> physical / PAGE_SIZE < FRAMES;
  }

  /** After a mapping: the page translates to its address (below 2^40), with its permissions; all others as before. */
  lemma MapRefines(frames: seq<Frame>, frames': seq<Frame>, root: nat, v: Page, physical: nat, flags: nat)
    requires physical % PAGE_SIZE == 0
    requires OnlyLeaf(frames, frames', root, v, MappedTo(Leaf(frames, root, v), physical, flags))
    ensures Translate(frames', root, v) == physical <==> physical < WIDTH_40
    ensures PermsOf(Leaf(frames', root, v)) == flags % 16
    ensures forall w: Page :: w != v ==> Translate(frames', root, w) == Translate(frames, root, w)
    ensures forall w: Page :: w != v ==> PermsOf(Leaf(frames', root, w)) == PermsOf(Leaf(frames, root, w))
  {
    hide Leaf;
    MappedExactly(Leaf(frames, root, v), physical, flags);
    PermsReadBack(Leaf(frames, root, v).(present := true, ppn := physical / PAGE_SIZE % FRAMES), flags);
  }

  /** A page just mapped, told in the flags: bit 0 lets user code write, bit 1 lets it in at all, bit 2 keeps it from
      executing; where tables were there already, their entries must allow it too. */
  lemma MappedAccess(frames: seq<Frame>, frames': seq<Frame>, root: nat, v: Page, physical: nat, flags: nat)
    requires OnlyLeaf(frames, frames', root, v, MappedTo(Leaf(frames, root, v), physical, flags))
    requires WaysMade(frames, frames', root, v, 0, 3)
    ensures UserReaches(frames', root, v) <==> flags / 2 % 2 == 1 && WayUser(frames, root, v)
    ensures UserWrites(frames', root, v) <==> UserReaches(frames', root, v) && flags % 2 == 1 && WayWriteable(frames, root, v)
    ensures UserExecutes(frames', root, v) <==>
      UserReaches(frames', root, v) && flags / 4 % 2 == 0 && WayExecutable(frames, root, v)
  {
    hide Leaf, WaysMade, UserReaches, UserWrites, UserExecutes, WayUser, WayWriteable, WayExecutable;
    AccessAfterMap(frames, frames', root, v);
  }

  /** Where all tables were missing the flags alone decide, execution up to the top-level slot. */
  lemma NothingThere(frames: seq<Frame>, root: nat, v: Page)
    requires TableAt(frames, root, v, 1) == NONE
    ensures WayUser(frames, root, v) && WayWriteable(frames, root, v)
    ensures WayExecutable(frames, root, v) <==> !EntryIn(frames, root, Index(v, 0)).nx
  {
    hide TableAt, Index;
    TableStep(frames, root, v, 0);
    TableStep(frames, root, v, 1);
    NoEntryInNone(frames, Index(v, 1));
    NoEntryInNone(frames, Index(v, 2));
    assert !WayEntry(frames, root, v, 0).present;
    assert WayEntry(frames, root, v, 1) == WayEntry(frames, root, v, 2) == ZERO_ENTRY;
  }

  /** How many tables are missing on the way of page `v`. */
  ghost function Missing(frames: seq<Frame>, root: nat, v: Page): (n: nat)
    ensures n <= 3
  {
    if TableAt(frames, root, v, 1) == NONE then 3
    else if TableAt(frames, root, v, 2) == NONE then 2
    else if TableAt(frames, root, v, 3) == NONE then 1 else 0
  }

  /** Page `v` got the entry `e`; every other page of the space keeps its entry. */
  ghost predicate OnlyLeaf(frames: seq<Frame>, frames': seq<Frame>, root: nat, v: Page, e: Entry) {
    && Leaf(frames', root, v) == e
    && forall w: Page :: w != v ==> Leaf(frames', root, w) == Leaf(frames, root, w)
  }

  datatype PageMapIndex = PageMapIndex(pdp: nat, pd: nat, pt: nat, p: nat)

  /** address_to_map: the four table indices of an address. */
  method AddressToMap(address: nat) returns (map_: PageMapIndex)
    ensures var v := PageOf(address);
      map_ == PageMapIndex(Index(v, 0), Index(v, 1), Index(v, 2), Index(v, 3))
    ensures map_ == PageMapIndex(address / 0x80_0000_0000 % 512, address / 0x4000_0000 % 512,
      address / 0x20_0000 % 512, address / 0x1000 % 512)
  {
    Shifts(address);
    var a := address / 4096;
    var p := a % 512;
    a := a / 512;
    var pt := a % 512;
    a := a / 512;
    var pd := a % 512;
    a := a / 512;
    map_ := PageMapIndex(a % 512, pd, pt, p);
    ShiftIndices(address / 4096);
  }

  /** Taking off nine bits of a number that differs from `v` by a multiple of 512. */
  lemma NineBits(a: nat, v: nat, n: nat)
    requires a == 512 * n + v
    ensures a / 512 == n + v / 512 && a % 512 == v % 512
  {
  }

  lemma Shifts(a: nat)
    ensures a / 4096 / 512 == a / 0x20_0000 && a / 4096 / 512 / 512 == a / 0x4000_0000
    ensures a / 4096 / 512 / 512 / 512 == a / 0x80_0000_0000
  {
  }

  lemma Halves(v: nat)
    ensures v / 512 / 512 == v / 0x4_0000 && v / 512 / 512 / 512 == v / 0x800_0000
  {
  }

  lemma ShiftIndices(a: nat)
    ensures var v: Page := a % PAGES;
      && Index(v, 3) == a % 512 && Index(v, 2) == a / 512 % 512
      && Index(v, 1) == a / 512 / 512 % 512 && Index(v, 0) == a / 512 / 512 / 512 % 512
  {
    var v: Page := a % PAGES;
    var q := a / PAGES;
    NineBits(a, v, 0x800_0000 * q);
    NineBits(a / 512, v / 512, 0x4_0000 * q);
    NineBits(a / 512 / 512, v / 512 / 512, 512 * q);
    NineBits(a / 512 / 512 / 512, v / 512 / 512 / 512, q);
    Halves(v);
  }

  class Ram {
    var frames: seq<Frame>
    var free: set<nat>

    ghost function Value(): Memory
      reads this
    {
      Memory(frames, free)
    }

    /** request_page: some frame that is not outstanding. */
    method RequestPage() returns (f: nat)
      requires free != {}
      modifies this`free
      ensures f in old(free) && free == old(free) - {f}
    {
      f :| f in free;
      free := free - {f};
    }

    /** One level of map_memory_hh's walk: the table below slot `i` of table `t`, made when it is missing. */
    method NextTable(t: nat, i: nat, ghost root: nat, ghost v: Page, ghost l: nat) returns (next: nat)
      requires Space(Value(), root) && l <= 2 && TableAt(frames, root, v, l) == t && Index(v, l) == i
      requires TableAt(frames, root, v, l + 1) == NONE ==> free != {}
      modifies this
      ensures Grew(old(Value()), Value(), root, v) && LeavesKept(old(Value()), Value(), root)
      ensures TableAt(frames, root, v, l + 1) == next
      ensures |free| == |old(free)| - if old(TableAt(frames, root, v, l + 1)) == NONE then 1 else 0
      ensures forall k :: l + 1 < k <= 3 ==>
        (TableAt(frames, root, v, k) == NONE <==> old(TableAt(frames, root, v, k)) == NONE)
      ensures WaysMade(old(frames), frames, root, v, l, l + 1)
    {
      hide Space, TableAt, Grew, LeavesKept, WaysMade;
      ghost var m := Value();
      TableStep(frames, root, v, l);
      TableIs(m, root, v, l);
      TableShape(m, t);
      var pde := frames[t].entries[i];
      if !pde.present {
        next := RequestPage();
        SpaceParts(m, root);
        LinkReady(m, root, v, l, pde.(ppn := next, present := true, writeable := true, user := true));
        frames := frames[next := ZeroTable()];
        pde := pde.(ppn := next, present := true, writeable := true, user := true);
        frames := frames[t := Table(frames[t].entries[i := pde])];
        assert Value() == Linked(m, t, i, pde);
        LinkMakesWay(m, root, v, l, pde);
        LinkGrows(m, root, v, l, pde);
        LinkLeavesMissing(m, root, v, l, pde);
      } else {
        next := pde.ppn;
        NothingGrew(m, root, v);
        WayThere(frames, root, v, l);
      }
    }

    /** map_memory_hh: panics on unaligned addresses, otherwise changes the entry of exactly one page. */
    method MapMemory(root: nat, virtual: nat, physical: nat, flags: nat) returns (panicked: bool)
      requires Space(Value(), root)
      requires |free| >= Missing(frames, root, PageOf(virtual))
      modifies this
      ensures panicked <==> virtual % PAGE_SIZE != 0 || physical % PAGE_SIZE != 0
      ensures panicked ==> Value() == old(Value())
      ensures !panicked ==> Grew(old(Value()), Value(), root, PageOf(virtual))
      ensures !panicked ==> OnlyLeaf(old(frames), frames, root, PageOf(virtual),
        MappedTo(Leaf(old(frames), root, PageOf(virtual)), physical, flags))
      ensures !panicked ==> WaysMade(old(frames), frames, root, PageOf(virtual), 0, 3)
      ensures |free| >= |old(free)| - Missing(old(frames), root, PageOf(virtual))
    {
      hide Space, TableAt, Grew, LeavesKept, OnlyLeaf, Leaf, Index, MappedTo, WaysMade, WaysKept;
      if virtual % PAGE_SIZE != 0 {
        return true;
      }
      if physical % PAGE_SIZE != 0 {
        return true;
      }
      ghost var v, m0 := PageOf(virtual), Value();
      var map_ := AddressToMap(virtual);
      TableStep(frames, root, v, 0);
      MissingOrder(frames, root, v);
      var pdp := NextTable(root, map_.pdp, root, v, 0);
      ghost var m1 := Value();
      GrewSpace(m0, m1, root, v);
      var pd := NextTable(pdp, map_.pd, root, v, 1);
      ghost var m2 := Value();
      GrewSpace(m1, m2, root, v);
      var pt := NextTable(pd, map_.pt, root, v, 2);
      ghost var m3 := Value();
      GrewAgain(m0, m1, m2, root, v);
      GrewAgain(m0, m2, m3, root, v);
      GrewSpace(m2, m3, root, v);
      LeavesKeptThrice(m0, m1, m2, m3, root);
      WaysMadeAgain(m0.frames, m1.frames, m2.frames, root, v, 0, 1, 2);
      WaysMadeAgain(m0.frames, m2.frames, m3.frames, root, v, 0, 2, 3);
      SetLeaf(pt, map_.p, physical, flags, root, v);
      GrewAgain(m0, m3, Value(), root, v);
      KeptAfterMade(m0.frames, m3.frames, frames, root, v, 0, 3);
      OnlyLeafAfter(m0, m3, frames, root, v, MappedTo(Leaf(m3.frames, root, v), physical, flags));
      panicked := false;
    }

    /** The end of map_memory_hh: fills the entry of page `v`. */
    method SetLeaf(pt: nat, i: nat, physical: nat, flags: nat, ghost root: nat, ghost v: Page)
      requires Space(Value(), root) && TableAt(frames, root, v, 3) == pt && i == Index(v, 3)
      modifies this`frames
      ensures Grew(old(Value()), Value(), root, v)
      ensures OnlyLeaf(old(frames), frames, root, v, MappedTo(Leaf(old(frames), root, v), physical, flags))
      ensures WaysKept(old(frames), frames, root)
    {
      hide Space, TableAt, Grew, OnlyLeaf, WaysKept;
      ghost var m := Value();
      TableIs(m, root, v, 3);
      TableShape(m, pt);
      var pte := frames[pt].entries[i];
      pte := pte.(ppn := physical / PAGE_SIZE % FRAMES);
      pte := pte.(present := true);
      pte := pte.(writeable := FlagBit(flags, 1));
      pte := pte.(user := FlagBit(flags, 2));
      pte := pte.(nx := FlagBit(flags, 4));
      pte := pte.(cacheDisabled := FlagBit(flags, 8));
      frames := frames[pt := Table(frames[pt].entries[i := pte])];
      LeafWritten(m, root, v, pte, frames);
    }

    /** virtual_to_physical. */
    method VirtualToPhysical(root: nat, virtual: nat) returns (physical: int)
      requires Space(Value(), root)
      ensures physical == Translate(frames, root, PageOf(virtual))
    {
      hide Space, TableAt, Index;
      ghost var v, m := PageOf(virtual), Value();
      var map_ := AddressToMap(virtual);
      TableStep(frames, root, v, 0);
      TableStep(frames, root, v, 1);
      TableStep(frames, root, v, 2);
      AllMissing(frames, root, v);
      TableIs(m, root, v, 0);
      TableShape(m, root);
      var pde := frames[root].entries[map_.pdp];
      if !pde.present {
        return 0;
      }
      var pdp := pde.ppn;
      TableIs(m, root, v, 1);
      TableShape(m, pdp);
      pde := frames[pdp].entries[map_.pd];
      if !pde.present {
        return 0;
      }
      var pd := pde.ppn;
      TableIs(m, root, v, 2);
      TableShape(m, pd);
      pde := frames[pd].entries[map_.pt];
      if !pde.present {
        return 0;
      }
      var pt := pde.ppn;
      TableIs(m, root, v, 3);
      TableShape(m, pt);
      var pte := frames[pt].entries[map_.p];
      if !pte.present {
        return 0;
      }
      physical := pte.ppn * PAGE_SIZE;
    }

    /** unmap_current_memory: clears the present bit of exactly one page; nothing without its tables. */
    method UnmapMemory(root: nat, virtual: nat)
      requires Space(Value(), root)
      modifies this`frames
      ensures Grew(old(Value()), Value(), root, PageOf(virtual)) && SameTables(old(frames), frames, root)
      ensures OnlyLeaf(old(frames), frames, root, PageOf(virtual),
        Leaf(old(frames), root, PageOf(virtual)).(present := false))
      ensures WaysKept(old(frames), frames, root)
    {
      hide Space, TableAt, Index, SameTables, Grew, WaysKept;
      NothingKept(frames, root);
      ghost var v, m := PageOf(virtual), Value();
      var map_ := AddressToMap(virtual);
      TableStep(frames, root, v, 0);
      TableStep(frames, root, v, 1);
      TableStep(frames, root, v, 2);
      AllMissing(frames, root, v);
      TablesSame(frames, root);
      NothingGrew(m, root, v);
      TableIs(m, root, v, 0);
      TableShape(m, root);
      var pde := frames[root].entries[map_.pdp];
      if !pde.present {
        return;
      }
      var pdp := pde.ppn;
      TableIs(m, root, v, 1);
      TableShape(m, pdp);
      pde := frames[pdp].entries[map_.pd];
      if !pde.present {
        return;
      }
      var pd := pde.ppn;
      TableIs(m, root, v, 2);
      TableShape(m, pd);
      pde := frames[pd].entries[map_.pt];
      if !pde.present {
        return;
      }
      var pt := pde.ppn;
      TableIs(m, root, v, 3);
      TableShape(m, pt);
      var pte := frames[pt].entries[map_.p];
      pte := pte.(present := false);
      frames := frames[pt := Table(frames[pt].entries[map_.p := pte])];
      WriteLeaf(m, root, v, pte, frames);
      LeafWritten(m, root, v, pte, frames);
    }

    /** The unchecked walk of set_page_perms_hh and get_page_perms_hh: the caller vouches for the tables. */
    method PageTableOf(root: nat, virtual: nat) returns (pt: nat, i: nat)
      requires Space(Value(), root) && TableAt(frames, root, PageOf(virtual), 3) != NONE
      ensures pt == TableAt(frames, root, PageOf(virtual), 3) && i == Index(PageOf(virtual), 3)
      ensures IsTable(Value(), pt)
    {
      hide Space, TableAt, Index;
      ghost var v, m := PageOf(virtual), Value();
      var map_ := AddressToMap(virtual);
      TableStep(frames, root, v, 0);
      TableStep(frames, root, v, 1);
      TableStep(frames, root, v, 2);
      AllMissing(frames, root, v);
      TableIs(m, root, v, 0);
      TableIs(m, root, v, 1);
      TableIs(m, root, v, 2);
      TableIs(m, root, v, 3);
      var pde := frames[root].entries[map_.pdp];
      var pd := pde.ppn;
      pde := frames[pd].entries[map_.pd];
      pd := pde.ppn;
      pde := frames[pd].entries[map_.pt];
      pt, i := pde.ppn, map_.p;
    }

    /** set_page_perms_hh: the permissions of exactly one page. */
    method SetPagePerms(root: nat, address: nat, permissions: nat)
      requires Space(Value(), root) && TableAt(frames, root, PageOf(address), 3) != NONE
      modifies this`frames
      ensures Grew(old(Value()), Value(), root, PageOf(address)) && SameTables(old(frames), frames, root)
      ensures OnlyLeaf(old(frames), frames, root, PageOf(address),
        WithPerms(Leaf(old(frames), root, PageOf(address)), permissions))
      ensures WaysKept(old(frames), frames, root)
    {
      hide Space, TableAt, SameTables, Grew, WaysKept;
      ghost var v, m := PageOf(address), Value();
      var pt, i := PageTableOf(root, address);
      TableShape(m, pt);
      var pte := frames[pt].entries[i];
      pte := pte.(writeable := FlagBit(permissions, 1));
      pte := pte.(user := FlagBit(permissions, 2));
      pte := pte.(nx := FlagBit(permissions, 4));
      pte := pte.(cacheDisabled := FlagBit(permissions, 8));
      frames := frames[pt := Table(frames[pt].entries[i := pte])];
      WriteLeaf(m, root, v, pte, frames);
      LeafWritten(m, root, v, pte, frames);
    }

    /** get_page_perms_hh. */
    method GetPagePerms(root: nat, address: nat) returns (permissions: nat)
      requires Space(Value(), root) && TableAt(frames, root, PageOf(address), 3) != NONE
      ensures permissions == PermsOf(Leaf(frames, root, PageOf(address)))
    {
      hide Space, TableAt;
      var pt, i := PageTableOf(root, address);
      TableShape(Value(), pt);
      var pte := frames[pt].entries[i];
      permissions := Bit(pte.writeable, 1);
      permissions := permissions + Bit(pte.user, 2);
      permissions := permissions + Bit(pte.nx, 4);
      permissions := permissions + Bit(pte.cacheDisabled, 8);
    }

    /** mprotect_hh: sets the permissions of the touched pages and of no other. */
    method Mprotect(root: nat, address: nat, size: nat, permissions: nat)
      requires Space(Value(), root) && address + size + 0xfff < WIDTH_64
      requires forall v: Page :: Touched(address, size, v) ==> TableAt(frames, root, v, 3) != NONE
      modifies this`frames
      ensures Space(Value(), root) && SameTables(old(frames), frames, root)
      ensures Protected(old(frames), frames, root, address / PAGE_SIZE, (address + size + 0xfff) / PAGE_SIZE, permissions)
      ensures WaysKept(old(frames), frames, root)
    {
      hide Space, TableAt, SameTables, Leaf, OnlyLeaf, Protected, PageNumberIn, WaysKept;
      ghost var frames0 := frames;
      var start := address;
      var end := start + size;
      start := start / PAGE_SIZE * PAGE_SIZE;
      end := (end + 0xfff) / PAGE_SIZE * PAGE_SIZE;
      ghost var k := address / PAGE_SIZE;
      var i := start;
      TablesSame(frames, root);
      NothingProtected(frames, root, k, permissions);
      NothingKept(frames, root);
      while i < end
        invariant i == k * PAGE_SIZE && k >= address / PAGE_SIZE
        invariant k <= end / PAGE_SIZE || k == address / PAGE_SIZE
        invariant Space(Value(), root) && SameTables(frames0, frames, root)
        invariant Protected(frames0, frames, root, address / PAGE_SIZE, k, permissions) && WaysKept(frames0, frames, root)
        decreases end - i
      {
        ghost var frames1 := frames;
        IsPageNumber(address / PAGE_SIZE, end / PAGE_SIZE, k);
        SameTablesAt(frames0, frames, root, PageOf(i), 3);
        assert Touched(address, size, PageOf(i));
        SetPagePerms(root, i, permissions);
        SameTablesAgain(frames0, frames1, frames, root);
        KeptAgain(frames0, frames1, frames, root);
        ProtectOneMore(frames0, frames1, frames, root, address / PAGE_SIZE, k, permissions);
        i := i + 0x1000;
        k := k + 1;
      }
      NoneTouched(frames0, frames, root, address / PAGE_SIZE, k, end / PAGE_SIZE, permissions);
    }
  }

  /** One of the numbers lo..hi-1 is the number of page `v` (page numbers repeat every 2^36). */
  ghost predicate PageNumberIn(lo: int, hi: int, v: Page) {
    exists k :: lo <= k < hi && k % PAGES == v
  }

  /** mprotect_hh's page loop visits page `v`. */
  ghost predicate Touched(address: nat, size: nat, v: Page) {
    PageNumberIn(address / PAGE_SIZE, (address + size + 0xfff) / PAGE_SIZE, v)
  }

  ghost predicate Protected(frames: seq<Frame>, frames': seq<Frame>, root: nat, lo: int, hi: int, permissions: nat) {
    forall v: Page :: Leaf(frames', root, v) ==
      if PageNumberIn(lo, hi, v) then WithPerms(Leaf(frames, root, v), permissions) else Leaf(frames, root, v)
  }

  /** The touched pages are those that meet [address, address + size); with size 0 an unaligned address still touches one. */
  lemma TouchedExactly(address: nat, size: nat, v: Page)
    ensures Touched(address, size, v) <==>
      (exists a :: address <= a < address + size && PageOf(a) == v)
      || (size == 0 && address % PAGE_SIZE != 0 && PageOf(address) == v)
  {
    var lo, hi := address / PAGE_SIZE, (address + size + 0xfff) / PAGE_SIZE;
    if Touched(address, size, v) {
      var k :| lo <= k < hi && k % PAGES == v;
      var a := if k == lo then address else k * PAGE_SIZE;
      assert a / PAGE_SIZE == k;
      assert PageOf(a) == v;
    }
    if exists a :: address <= a < address + size && PageOf(a) == v {
      var a :| address <= a < address + size && PageOf(a) == v;
      var k := a / PAGE_SIZE;
      assert lo <= k < hi && k % PAGES == v;
    }
    if size == 0 && address % PAGE_SIZE != 0 && PageOf(address) == v {
      assert lo <= lo < hi && lo % PAGES == v;
    }
  }

  lemma IsPageNumber(lo: int, hi: int, k: int)
    requires 0 <= lo <= k < hi
    ensures PageNumberIn(lo, hi, PageOf(k * PAGE_SIZE)) && PageOf(k * PAGE_SIZE) == k % PAGES
  {
    assert k * PAGE_SIZE / PAGE_SIZE == k;
  }

  lemma NothingProtected(frames: seq<Frame>, root: nat, lo: int, permissions: nat)
    ensures Protected(frames, frames, root, lo, lo, permissions)
  {
  }

  lemma ProtectOneMore(frames0: seq<Frame>, frames1: seq<Frame>, frames2: seq<Frame>, root: nat, lo: int, k: int,
                       permissions: nat)
    requires 0 <= lo <= k && Protected(frames0, frames1, root, lo, k, permissions)
    requires OnlyLeaf(frames1, frames2, root, k % PAGES, WithPerms(Leaf(frames1, root, k % PAGES), permissions))
    ensures Protected(frames0, frames2, root, lo, k + 1, permissions)
  {
    hide Leaf;
    forall v: Page
      ensures PageNumberIn(lo, k + 1, v) <==> PageNumberIn(lo, k, v) || v == k % PAGES
    {
    }
  }

  lemma NoneTouched(frames0: seq<Frame>, frames: seq<Frame>, root: nat, lo: int, k: int, hi: int, permissions: nat)
    requires Protected(frames0, frames, root, lo, k, permissions) && lo <= k && hi <= k && (k <= hi || k == lo)
    ensures Protected(frames0, frames, root, lo, hi, permissions)
  {
  }

  // ----- helpers of the class

  lemma LinkReady(m: Memory, root: nat, v: Page, l: nat, e: Entry)
    requires Space(m, root) && l <= 2 && TableAt(m.frames, root, v, l) != NONE && e.present && e.ppn in m.free
    requires !EntryIn(m.frames, TableAt(m.frames, root, v, l), Index(v, l)).present
    ensures CanLink(m, root, v, l, e) && e.ppn < |m.frames| && e.ppn != TableAt(m.frames, root, v, l)
  {
    LinkStart(m, root, v, l, e);
  }

  lemma LinkLeavesMissing(m: Memory, root: nat, v: Page, l: nat, e: Entry)
    requires CanLink(m, root, v, l, e)
    ensures forall k :: l + 1 < k <= 3 ==>
      TableAt(Linked(m, TableAt(m.frames, root, v, l), Index(v, l), e).frames, root, v, k) == TableAt(m.frames, root, v, k)
  {
    hide TableAt, Linked;
    forall k | l + 1 < k <= 3
      ensures TableAt(Linked(m, TableAt(m.frames, root, v, l), Index(v, l), e).frames, root, v, k) == TableAt(m.frames, root, v, k)
    {
      LinkedTables(m, root, v, l, e, v, k);
    }
  }

  lemma GrewSpace(m: Memory, m': Memory, root: nat, v: Page)
    requires Grew(m, m', root, v)
    ensures Space(m', root)
  {
  }

  lemma LeavesKeptThrice(m0: Memory, m1: Memory, m2: Memory, m3: Memory, root: nat)
    requires LeavesKept(m0, m1, root) && LeavesKept(m1, m2, root) && LeavesKept(m2, m3, root)
    ensures LeavesKept(m0, m3, root)
  {
    hide Leaf;
  }

  lemma OnlyLeafAfter(m0: Memory, m1: Memory, frames: seq<Frame>, root: nat, v: Page, e: Entry)
    requires OnlyLeaf(m1.frames, frames, root, v, e) && LeavesKept(m0, m1, root)
    ensures OnlyLeaf(m0.frames, frames, root, v, e) && Leaf(m0.frames, root, v) == Leaf(m1.frames, root, v)
  {
    hide Leaf;
  }

  lemma LeafWritten(m: Memory, root: nat, v: Page, e: Entry, frames': seq<Frame>)
    requires Space(m, root) && TableAt(m.frames, root, v, 3) != NONE
    requires frames' == Write(m.frames, TableAt(m.frames, root, v, 3), Index(v, 3), e)
    ensures Grew(m, Memory(frames', m.free), root, v) && OnlyLeaf(m.frames, frames', root, v, e)
    ensures WaysKept(m.frames, frames', root)
  {
    WriteLeaf(m, root, v, e, frames');
    LeafKeepsWays(m, root, v, e, frames');
    hide WayEntry, WaysKept, Space, TableAt, Leaf, Index;
    assert OnWay(m.frames, root, v, TableAt(m.frames, root, v, 3));
    WriteShape(m, TableAt(m.frames, root, v, 3), Index(v, 3), e);
    hide Write;
  }

  lemma MissingOrder(frames: seq<Frame>, root: nat, v: Page)
    ensures TableAt(frames, root, v, 1) == NONE ==> TableAt(frames, root, v, 2) == NONE
    ensures TableAt(frames, root, v, 2) == NONE ==> TableAt(frames, root, v, 3) == NONE
  {
    TableStep(frames, root, v, 1);
    TableStep(frames, root, v, 2);
  }

  lemma AllMissing(frames: seq<Frame>, root: nat, v: Page)
    ensures TableAt(frames, root, v, 1) == NONE ==> TableAt(frames, root, v, 3) == NONE
    ensures TableAt(frames, root, v, 2) == NONE ==> TableAt(frames, root, v, 3) == NONE
    ensures TableAt(frames, root, v, 3) == NONE ==> Leaf(frames, root, v) == ZERO_ENTRY
  {
    MissingOrder(frames, root, v);
    hide TableAt;
  }

  lemma TablesSame(frames: seq<Frame>, root: nat)
    ensures SameTables(frames, frames, root)
  {
  }

  lemma SameTablesAt(frames: seq<Frame>, frames': seq<Frame>, root: nat, v: Page, k: nat)
    requires SameTables(frames, frames', root) && k <= 3
    ensures TableAt(frames', root, v, k) == TableAt(frames, root, v, k)
  {
  }

  lemma SameTablesAgain(frames0: seq<Frame>, frames1: seq<Frame>, frames2: seq<Frame>, root: nat)
    requires SameTables(frames0, frames1, root) && SameTables(frames1, frames2, root)
    ensures SameTables(frames0, frames2, root)
  {
    hide TableAt;
  }
}
