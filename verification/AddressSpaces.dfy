/** Several address spaces in one memory: what a child space's user half can do to its father. */
module AddressSpaces {
  import opened PageTables
  import opened WayEntries

  const KERNEL_HALF: int := 256     // first top-level slot of the kernel

  predicate UserPage(v: Page) {
    Index(v, 0) < KERNEL_HALF
  }

  /** The user's pages are the lower half of the address space: 2^47 bytes. */
  lemma UserHalf(address: nat)
    requires address < 0x1_0000_0000_0000
    ensures UserPage(PageOf(address)) <==> address < 0x8000_0000_0000
  {
    assert PageOf(address) == address / 4096;
    assert address / 4096 / 0x800_0000 == address / 0x80_0000_0000;
  }

  /** No table the child reaches through its user half belongs to the father. */
  ghost predicate Private(frames: seq<Frame>, father: nat, child: nat) {
    forall v: Page, l: nat :: l <= 3 && UserPage(v) && TableAt(frames, child, v, l) != NONE ==>
      !Reached(frames, father, TableAt(frames, child, v, l))
  }

  /** The father translates every page as before, with the same rights. */
  ghost predicate SameSpace(m: Memory, m': Memory, root: nat) {
    SameTables(m.frames, m'.frames, root) && LeavesKept(m, m', root) && WaysKept(m.frames, m'.frames, root)
  }

  lemma PrivateAt(frames: seq<Frame>, father: nat, child: nat, v: Page, l: nat)
    requires Private(frames, father, child) && l <= 3 && UserPage(v) && TableAt(frames, child, v, l) != NONE
    ensures !Reached(frames, father, TableAt(frames, child, v, l))
  {
  }

  /** Rewriting frames a space does not reach leaves the space as it was. */
  lemma UntouchedSpace(m: Memory, m': Memory, root: nat)
    requires Space(m, root) && |m'.frames| == |m.frames| && m'.free <= m.free
    requires forall s :: 0 <= s < |m.frames| && Reached(m.frames, root, s) ==> m'.frames[s] == m.frames[s]
    ensures SameSpace(m, m', root) && Space(m', root)
    ensures forall s :: Reached(m'.frames, root, s) <==> Reached(m.frames, root, s)
  {
    SpaceParts(m, root);
    hide TableAt, Space, Index, IsTable;
    forall w: Page, k: nat | k <= 3
      ensures TableAt(m'.frames, root, w, k) == TableAt(m.frames, root, w, k)
      ensures forall i :: EntryIn(m'.frames, TableAt(m'.frames, root, w, k), i) ==
                          EntryIn(m.frames, TableAt(m.frames, root, w, k), i)
    {
      UnreachedWrite(m, root, m'.frames, w, k);
    }
    forall w: Page, k: nat | k <= 3 && TableAt(m'.frames, root, w, k) != NONE
      ensures IsTable(m', TableAt(m'.frames, root, w, k))
    {
      TableIs(m, root, w, k);
      assert Reached(m.frames, root, TableAt(m.frames, root, w, k));
      KeptTable(m, m', TableAt(m.frames, root, w, k));
    }
    forall a: Page, b: Page, i: nat, j: nat | i <= 3 && j <= 3 && SameTable(m'.frames, root, a, b, i, j)
      ensures i == j && Prefix(a, i) == Prefix(b, i)
    {
      Apart(m.frames, root, a, b, i, j);
    }
    MakeSpace(m', root);
  }

  lemma KeptTable(m: Memory, m': Memory, t: int)
    requires IsTable(m, t) && |m'.frames| == |m.frames| && m'.free <= m.free && m'.frames[t] == m.frames[t]
    ensures IsTable(m', t)
  {
  }

  /** A change at a user page of the child is invisible to the father, and the child stays private. */
  lemma UserMapInvisible(m: Memory, m': Memory, father: nat, child: nat, v: Page)
    requires Space(m, father) && Space(m, child) && Private(m.frames, father, child)
    requires UserPage(v) && Grew(m, m', child, v)
    ensures SameSpace(m, m', father) && Space(m', father) && Space(m', child) && Private(m'.frames, father, child)
  {
    hide TableAt, Space, Index, SameTables;
    forall s | 0 <= s < |m.frames| && Reached(m.frames, father, s)
      ensures m'.frames[s] == m.frames[s]
    {
      if OnWay(m.frames, child, v, s) {
        NotOnWay(m.frames, father, child, v, s);
      }
      if s in m.free {
        FreeUnreached(m, father, s);
      }
    }
    UntouchedSpace(m, m', father);
    hide Reached;
    forall w: Page, l: nat | l <= 3 && UserPage(w) && TableAt(m'.frames, child, w, l) != NONE
      ensures !Reached(m'.frames, father, TableAt(m'.frames, child, w, l))
    {
      if TableAt(m'.frames, child, w, l) == TableAt(m.frames, child, w, l) {
        PrivateAt(m.frames, father, child, w, l);
      } else {
        FreeUnreached(m, father, TableAt(m'.frames, child, w, l));
      }
    }
  }

  lemma NotOnWay(frames: seq<Frame>, father: nat, child: nat, v: Page, s: nat)
    requires Private(frames, father, child) && UserPage(v)
    ensures OnWay(frames, child, v, s) ==> !Reached(frames, father, s)
  {
    hide TableAt;
    if OnWay(frames, child, v, s) {
      var l: nat :| l <= 3 && TableAt(frames, child, v, l) == s;
      PrivateAt(frames, father, child, v, l);
    }
  }

  ghost predicate UserStep(m: Memory, m': Memory, child: nat) {
    exists v: Page :: UserPage(v) && Grew(m, m', child, v)
  }

  /** A run of maps, unmaps and permission changes at user pages of the child. */
  ghost predicate UserRun(ms: seq<Memory>, child: nat) {
    |ms| > 0 && forall i :: 0 <= i < |ms| - 1 ==> UserStep(ms[i], ms[i + 1], child)
  }

  /** Whatever happens in the child's user half, the father translates every page as at the start. */
  lemma {:induction false} FatherUnchanged(ms: seq<Memory>, father: nat, child: nat)
    requires UserRun(ms, child)
    requires Space(ms[0], father) && Space(ms[0], child) && Private(ms[0].frames, father, child)
    ensures SameSpace(ms[0], ms[|ms| - 1], father)
    ensures Space(ms[|ms| - 1], father) && Space(ms[|ms| - 1], child) && Private(ms[|ms| - 1].frames, father, child)
  {
    hide Space, Private, Leaf, TableAt;
    if |ms| > 1 {
      var n := |ms| - 1;
      FatherUnchanged(ms[..n], father, child);
      assert UserStep(ms[n - 1], ms[n], child);
      var v: Page :| UserPage(v) && Grew(ms[n - 1], ms[n], child, v);
      UserMapInvisible(ms[n - 1], ms[n], father, child, v);
    }
  }
}
