/** The table entries on the way to a page: who may use the page is decided by all of them together. */
module WayEntries {
  import opened PageTables

  /** The entry page `v` reads after `k` steps; at step 3 its leaf. */
  function WayEntry(frames: seq<Frame>, root: nat, v: Page, k: nat): Entry {
    EntryIn(frames, TableAt(frames, root, v, k), Index(v, k))
  }

  /** A missing table was hung in, open for writing and for the user; a present one stays as it is. */
  ghost predicate Made(e: Entry, e': Entry) {
    if e.present then e' == e else e' == e.(ppn := e'.ppn, present := true, writeable := true, user := true)
  }

  /** Only entries on v's way at the levels `lo` to `hi` were made; all other entries on any way are as they were. */
  ghost predicate WaysMade(frames: seq<Frame>, frames': seq<Frame>, root: nat, v: Page, lo: nat, hi: nat) {
    forall u: Page, k: nat :: k <= 2 ==>
      WayMade(WayEntry(frames, root, u, k), WayEntry(frames', root, u, k), lo <= k < hi && Prefix(u, k + 1) == Prefix(v, k + 1))
  }

  ghost predicate WayMade(e: Entry, e': Entry, here: bool) {
    if here then Made(e, e') else e' == e
  }

  lemma WayAt(frames: seq<Frame>, frames': seq<Frame>, root: nat, v: Page, lo: nat, hi: nat, u: Page, k: nat)
    requires WaysMade(frames, frames', root, v, lo, hi) && k <= 2
    ensures WayMade(WayEntry(frames, root, u, k), WayEntry(frames', root, u, k),
      lo <= k < hi && Prefix(u, k + 1) == Prefix(v, k + 1))
  {
    hide WayEntry;
  }

  lemma WaysMadeAgain(frames0: seq<Frame>, frames1: seq<Frame>, frames2: seq<Frame>, root: nat, v: Page, lo: nat, mid: nat, hi: nat)
    requires WaysMade(frames0, frames1, root, v, lo, mid) && WaysMade(frames1, frames2, root, v, mid, hi) && lo <= mid <= hi
    ensures WaysMade(frames0, frames2, root, v, lo, hi)
  {
    hide WayEntry, Prefix;
    forall u: Page, k: nat | k <= 2
      ensures WayMade(WayEntry(frames0, root, u, k), WayEntry(frames2, root, u, k),
        lo <= k < hi && Prefix(u, k + 1) == Prefix(v, k + 1))
    {
      WayAt(frames0, frames1, root, v, lo, mid, u, k);
      WayAt(frames1, frames2, root, v, mid, hi, u, k);
    }
  }

  /** No entry on the way to any page changed. */
  ghost predicate WaysKept(frames: seq<Frame>, frames': seq<Frame>, root: nat) {
    forall u: Page, k: nat :: k <= 2 ==> WayEntry(frames', root, u, k) == WayEntry(frames, root, u, k)
  }

  lemma KeptAfterMade(frames0: seq<Frame>, frames1: seq<Frame>, frames2: seq<Frame>, root: nat, v: Page, lo: nat, hi: nat)
    requires WaysMade(frames0, frames1, root, v, lo, hi) && WaysKept(frames1, frames2, root)
    ensures WaysMade(frames0, frames2, root, v, lo, hi)
  {
    hide WayEntry, Prefix;
    forall u: Page, k: nat | k <= 2
      ensures WayMade(WayEntry(frames0, root, u, k), WayEntry(frames2, root, u, k),
        lo <= k < hi && Prefix(u, k + 1) == Prefix(v, k + 1))
    {
      WayAt(frames0, frames1, root, v, lo, hi, u, k);
    }
  }

  lemma KeptAgain(frames0: seq<Frame>, frames1: seq<Frame>, frames2: seq<Frame>, root: nat)
    requires WaysKept(frames0, frames1, root) && WaysKept(frames1, frames2, root)
    ensures WaysKept(frames0, frames2, root)
  {
    hide WayEntry;
  }

  lemma NothingKept(frames: seq<Frame>, root: nat)
    ensures WaysKept(frames, frames, root)
  {
  }

  /** The table is there already. */
  lemma WayThere(frames: seq<Frame>, root: nat, v: Page, l: nat)
    requires l <= 2 && WayEntry(frames, root, v, l).present
    ensures WaysMade(frames, frames, root, v, l, l + 1)
  {
    hide TableAt, EntryIn, Prefix;
    forall u: Page, k: nat | k <= 2
      ensures WayMade(WayEntry(frames, root, u, k), WayEntry(frames, root, u, k),
        l <= k < l + 1 && Prefix(u, k + 1) == Prefix(v, k + 1))
    {
      if k == l && Prefix(u, k + 1) == Prefix(v, k + 1) {
        SameWayEntry(frames, root, u, v, k);
      }
    }
  }

  lemma SameWayEntry(frames: seq<Frame>, root: nat, u: Page, v: Page, k: nat)
    requires k <= 3 && Prefix(u, k + 1) == Prefix(v, k + 1)
    ensures WayEntry(frames, root, u, k) == WayEntry(frames, root, v, k)
  {
    hide TableAt, EntryIn, Prefix, Index;
    SamePrefix(u, v, k);
    SameWay(frames, root, u, v, k);
  }

  /** Hanging in a zeroed table changes the one entry and no other. */
  lemma LinkWay(m: Memory, root: nat, v: Page, l: nat, e: Entry, u: Page, k: nat)
    requires CanLink(m, root, v, l, e) && k <= 2
    ensures WayEntry(Linked(m, TableAt(m.frames, root, v, l), Index(v, l), e).frames, root, u, k) ==
      if k == l && Prefix(u, l + 1) == Prefix(v, l + 1) then e else WayEntry(m.frames, root, u, k)
  {
    var t := TableAt(m.frames, root, v, l);
    var frames0 := m.frames[e.ppn := ZeroTable()];
    var frames' := Linked(m, t, Index(v, l), e).frames;
    LinkStart(m, root, v, l, e);
    LinkedTables(m, root, v, l, e, u, k);
    UnreachedWrite(m, root, frames0, u, k);
    UnreachedWrite(m, root, frames0, v, l);
    TableIs(m, root, v, l);
    TableShape(m, t);
    IndexBound(v, l);
    hide TableAt, Prefix, Index, Space, Unshared, EntryIn;
    if k == l && Prefix(u, l + 1) == Prefix(v, l + 1) {
      SamePrefix(u, v, l);
      SameWay(m.frames, root, u, v, l);
      WriteEntries(frames0, t, Index(v, l), e, t, Index(v, l));
    } else if k == l + 1 && Prefix(u, l + 1) == Prefix(v, l + 1) {
      TableStep(m.frames, root, v, l);
      SameWay(m.frames, root, v, u, l + 1);
      NoEntryInNone(m.frames, Index(u, k));
      ZeroEntries(frames0, e.ppn, Index(u, k));
      WriteEntries(frames0, t, Index(v, l), e, e.ppn, Index(u, k));
    } else if k > l + 1 && Prefix(u, l + 1) == Prefix(v, l + 1) {
      TableStep(m.frames, root, v, l);
      SameWay(m.frames, root, v, u, l + 1);
      MissingBelow(m.frames, root, u, l + 1, k);
      NoEntryInNone(m.frames, Index(u, k));
      NoEntryInNone(frames', Index(u, k));
    } else {
      OtherSlot(frames0, root, v, l, u, k);
      WriteEntries(frames0, t, Index(v, l), e, TableAt(frames0, root, u, k), Index(u, k));
    }
  }

  lemma ZeroEntries(frames: seq<Frame>, t: nat, i: int)
    requires t < |frames| && frames[t] == ZeroTable()
    ensures EntryIn(frames, t, i) == ZERO_ENTRY
  {
  }

  lemma LinkMakesWay(m: Memory, root: nat, v: Page, l: nat, e: Entry)
    requires CanLink(m, root, v, l, e) && Made(WayEntry(m.frames, root, v, l), e)
    ensures WaysMade(m.frames, Linked(m, TableAt(m.frames, root, v, l), Index(v, l), e).frames, root, v, l, l + 1)
  {
    var frames' := Linked(m, TableAt(m.frames, root, v, l), Index(v, l), e).frames;
    hide TableAt, EntryIn, Prefix, Linked, CanLink, Index, WayEntry;
    forall u: Page, k: nat | k <= 2
      ensures WayMade(WayEntry(m.frames, root, u, k), WayEntry(frames', root, u, k),
        l <= k < l + 1 && Prefix(u, k + 1) == Prefix(v, k + 1))
    {
      LinkWay(m, root, v, l, e, u, k);
      if k == l && Prefix(u, k + 1) == Prefix(v, k + 1) {
        SameWayEntry(m.frames, root, u, v, k);
      }
    }
  }

  /** Storing a leaf changes no entry on the way to any page. */
  lemma LeafKeepsWays(m: Memory, root: nat, v: Page, e: Entry, frames': seq<Frame>)
    requires Space(m, root) && TableAt(m.frames, root, v, 3) != NONE
    requires frames' == Write(m.frames, TableAt(m.frames, root, v, 3), Index(v, 3), e)
    ensures WaysKept(m.frames, frames', root)
  {
    SpaceParts(m, root);
    hide Space, Prefix, Index, EntryIn, TableAt, Unshared, Write;
    forall u: Page, k: nat | k <= 2
      ensures WayEntry(frames', root, u, k) == WayEntry(m.frames, root, u, k)
    {
      WriteElsewhere(m.frames, root, v, 3, e, u, k);
      OtherSlot(m.frames, root, v, 3, u, k);
      WriteEntries(m.frames, TableAt(m.frames, root, v, 3), Index(v, 3), e, TableAt(m.frames, root, u, k), Index(u, k));
    }
  }

  // ----- what all four entries allow

  /** Section 4.6 of the Intel SDM, Volume 3A: user code reaches the page if every entry on the way says so. */
  ghost predicate UserReaches(frames: seq<Frame>, root: nat, v: Page) {
    forall k: nat :: k <= 3 ==> WayEntry(frames, root, v, k).present && WayEntry(frames, root, v, k).user
  }

  ghost predicate UserWrites(frames: seq<Frame>, root: nat, v: Page) {
    UserReaches(frames, root, v) && forall k: nat :: k <= 3 ==> WayEntry(frames, root, v, k).writeable
  }

  ghost predicate UserExecutes(frames: seq<Frame>, root: nat, v: Page) {
    UserReaches(frames, root, v) && forall k: nat :: k <= 3 ==> !WayEntry(frames, root, v, k).nx
  }

  /** What is present on the way to `v` is open to the user. */
  ghost predicate WayUser(frames: seq<Frame>, root: nat, v: Page) {
    forall k: nat :: k <= 2 && WayEntry(frames, root, v, k).present ==> WayEntry(frames, root, v, k).user
  }

  ghost predicate WayWriteable(frames: seq<Frame>, root: nat, v: Page) {
    forall k: nat :: k <= 2 && WayEntry(frames, root, v, k).present ==> WayEntry(frames, root, v, k).writeable
  }

  ghost predicate WayExecutable(frames: seq<Frame>, root: nat, v: Page) {
    forall k: nat :: k <= 2 ==> !WayEntry(frames, root, v, k).nx
  }

  /** Making tables for one page takes no right from any page, and gives none. */
  lemma WaysMadeRights(frames: seq<Frame>, frames': seq<Frame>, root: nat, v: Page, lo: nat, hi: nat)
    requires WaysMade(frames, frames', root, v, lo, hi)
    ensures RightsKept(frames, frames', root)
  {
    hide WayEntry, Prefix;
    forall u: Page
      ensures SameRights(frames, frames', root, u)
    {
      forall k: nat | k <= 2
        ensures Made(WayEntry(frames, root, u, k), WayEntry(frames', root, u, k)) ||
          WayEntry(frames', root, u, k) == WayEntry(frames, root, u, k)
      {
        WayAt(frames, frames', root, v, lo, hi, u, k);
      }
    }
  }

  lemma WaysKeptRights(frames: seq<Frame>, frames': seq<Frame>, root: nat)
    requires WaysKept(frames, frames', root)
    ensures RightsKept(frames, frames', root)
  {
    hide WayEntry;
    forall u: Page
      ensures SameRights(frames, frames', root, u)
    {
    }
  }

  /** The entries on the way to `u` allow what they allowed. */
  ghost predicate SameRights(frames: seq<Frame>, frames': seq<Frame>, root: nat, u: Page) {
    && (WayUser(frames', root, u) <==> WayUser(frames, root, u))
    && (WayWriteable(frames', root, u) <==> WayWriteable(frames, root, u))
    && (WayExecutable(frames', root, u) <==> WayExecutable(frames, root, u))
  }

  ghost predicate RightsKept(frames: seq<Frame>, frames': seq<Frame>, root: nat) {
    forall u: Page :: SameRights(frames, frames', root, u)
  }

  lemma RightsKeptAgain(frames0: seq<Frame>, frames1: seq<Frame>, frames2: seq<Frame>, root: nat)
    requires RightsKept(frames0, frames1, root) && RightsKept(frames1, frames2, root)
    ensures RightsKept(frames0, frames2, root)
  {
    hide WayUser, WayWriteable, WayExecutable;
    forall u: Page
      ensures SameRights(frames0, frames2, root, u)
    {
      assert SameRights(frames0, frames1, root, u) && SameRights(frames1, frames2, root, u);
    }
  }

  /** The rights of a page: its leaf and the entries on its way must agree. */
  lemma AccessExactly(frames: seq<Frame>, root: nat, v: Page)
    ensures UserReaches(frames, root, v) <==>
      Leaf(frames, root, v).present && Leaf(frames, root, v).user && WayUser(frames, root, v)
    ensures UserWrites(frames, root, v) <==>
      UserReaches(frames, root, v) && Leaf(frames, root, v).writeable && WayWriteable(frames, root, v)
    ensures UserExecutes(frames, root, v) <==>
      UserReaches(frames, root, v) && !Leaf(frames, root, v).nx && WayExecutable(frames, root, v)
  {
    assert WayEntry(frames, root, v, 3) == Leaf(frames, root, v);
    if Leaf(frames, root, v).present {
      forall k: nat | k <= 2
        ensures WayEntry(frames, root, v, k).present
      {
        PresentAbove(frames, root, v, k);
      }
    }
    hide WayEntry, Leaf;
  }

  /** Above a present leaf all entries are present. */
  lemma PresentAbove(frames: seq<Frame>, root: nat, v: Page, k: nat)
    requires k <= 2 && Leaf(frames, root, v).present
    ensures WayEntry(frames, root, v, k).present
  {
    hide TableAt, EntryIn, Index;
    TableStep(frames, root, v, k);
    NoEntryInNone(frames, Index(v, 3));
    if !WayEntry(frames, root, v, k).present {
      MissingBelow(frames, root, v, k + 1, 3);
    }
  }

  /** A page just mapped: user code reaches, writes and executes it exactly when its leaf and the entries that were on
      its way before allow it. */
  lemma AccessAfterMap(frames: seq<Frame>, frames': seq<Frame>, root: nat, v: Page)
    requires WaysMade(frames, frames', root, v, 0, 3) && Leaf(frames', root, v).present
    ensures UserReaches(frames', root, v) <==> Leaf(frames', root, v).user && WayUser(frames, root, v)
    ensures UserWrites(frames', root, v) <==>
      UserReaches(frames', root, v) && Leaf(frames', root, v).writeable && WayWriteable(frames, root, v)
    ensures UserExecutes(frames', root, v) <==>
      UserReaches(frames', root, v) && !Leaf(frames', root, v).nx && WayExecutable(frames, root, v)
  {
    hide Leaf, WayUser, WayWriteable, WayExecutable, UserReaches, UserWrites, UserExecutes, WaysMade;
    WaysMadeRights(frames, frames', root, v, 0, 3);
    AccessExactly(frames', root, v);
    assert SameRights(frames, frames', root, v);
  }
}
