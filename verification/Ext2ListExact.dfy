/** When the loaded block list is the file: the loader's own length test decides it. */
module Ext2ListExact {
  import opened Division
  import opened Words
  import opened Ext2Volume
  import opened Ext2Tree
  import opened Ext2File
  import opened Ext2GrowFile
  import opened Ext2List

  /** A word that is the number of a block is no stop value. */
  lemma BlockGoesOn(disk: seq<Block>, w: Word)
    requires |disk| <= 0xFFFF_FFFF && 0 < w < |disk|
    ensures !Stops(w)
  {
  }

  lemma PrefixOne(es: seq<Word>)
    requires es != [] && !Stops(es[0])
    ensures Prefix(es) == [es[0]] + Prefix(es[1..])
  {
  }

  lemma LoadedTree(disk: seq<Block>, b: nat, d: nat)
    requires d > 0
    ensures Loaded(disk, b, d) == LoadedOf(disk, Prefix(Entries(disk, b)), d - 1)
  {
  }

  lemma LoadedCons(disk: seq<Block>, x: Word, es: seq<Word>, d: nat)
    ensures LoadedOf(disk, [x] + es, d) == Loaded(disk, x, d) + LoadedOf(disk, es, d)
  {
    assert ([x] + es)[1..] == es;
  }

  // ----- a loaded tree holds no more than a full one

  lemma {:induction false} LoadedAtMost(e: nat, disk: seq<Block>, b: nat, d: nat)
    requires Uniform(e, disk)
    ensures |Loaded(disk, b, d)| <= Cap(e, d)
    decreases d, 0
  {
    if d > 0 {
      LoadedTree(disk, b, d);
      var es := Prefix(Entries(disk, b));
      LoadedOfAtMost(e, disk, es, d - 1);
      Scaled(|es|, e, Cap(e, d - 1));
    }
  }

  lemma {:induction false} LoadedOfAtMost(e: nat, disk: seq<Block>, es: seq<Word>, d: nat)
    requires Uniform(e, disk)
    ensures |LoadedOf(disk, es, d)| <= |es| * Cap(e, d)
    decreases d, |es| + 1
  {
    hide Cap, Loaded;
    if es != [] {
      LoadedAtMost(e, disk, es[0], d);
      LoadedOfAtMost(e, disk, es[1..], d);
      assert |es| * Cap(e, d) == Cap(e, d) + |es[1..]| * Cap(e, d);
    }
  }

  // ----- the blocks of a file come first in what is loaded

  /** What is wanted comes first, and alone if less was found than wanted. */
  ghost predicate Leads(wanted: seq<nat>, loaded: seq<nat>, n: nat) {
    wanted <= loaded && (|wanted| < n ==> loaded == wanted)
  }

  lemma {:induction false} LeavesLead(e: nat, disk: seq<Block>, b: nat, d: nat, n: nat)
    requires Uniform(e, disk) && |disk| <= 0xFFFF_FFFF && n > 0
    requires InRange(disk, Leaves(disk, b, d, n)) && InRange(disk, Tables(disk, b, d, n))
    ensures Leads(Leaves(disk, b, d, n), Loaded(disk, b, d), n)
    decreases d, 0
  {
    LeavesCount(e, disk, b, d, n);
    LoadedAtMost(e, disk, b, d);
    if d > 0 {
      hide Leaves, LeavesOf, Tables, TablesOf, Loaded, LoadedOf, Cap;
      TreeUnfold(disk, b, d, n);
      LoadedTree(disk, b, d);
      InRangeCat(disk, [b], TablesOf(disk, Entries(disk, b), d - 1, n));
      ForestLeads(e, disk, Entries(disk, b), d - 1, n);
    }
  }

  lemma {:induction false} ForestLeads(e: nat, disk: seq<Block>, es: seq<Word>, d: nat, n: nat)
    requires Uniform(e, disk) && |disk| <= 0xFFFF_FFFF
    requires InRange(disk, LeavesOf(disk, es, d, n)) && InRange(disk, TablesOf(disk, es, d, n))
    ensures LeavesOf(disk, es, d, n) <= LoadedOf(disk, Prefix(es), d)
    decreases d, |es| + 1
  {
    hide Leaves, LeavesOf, Tables, TablesOf, Loaded, LoadedOf, Prefix;
    if n == 0 || es == [] {
      ForestEmpty(disk, es, d, n);
    } else {
      ForestCons(disk, es, d, n);
      var first := Leaves(disk, es[0], d, n);
      var m := n - |first|;
      InRangeCat(disk, first, LeavesOf(disk, es[1..], d, m));
      InRangeCat(disk, Tables(disk, es[0], d, n), TablesOf(disk, es[1..], d, m));
      RootInRange(disk, es[0], d, n);
      BlockGoesOn(disk, es[0]);
      PrefixOne(es);
      LoadedCons(disk, es[0], Prefix(es[1..]), d);
      LeavesLead(e, disk, es[0], d, n);
      ForestLeads(e, disk, es[1..], d, m);
      if m == 0 {
        ForestEmpty(disk, es[1..], d, m);
      }
    }
  }

  lemma RootInRange(disk: seq<Block>, b: nat, d: nat, n: nat)
    requires n > 0 && InRange(disk, Leaves(disk, b, d, n)) && InRange(disk, Tables(disk, b, d, n))
    ensures 0 < b < |disk|
  {
    hide LeavesOf, TablesOf;
    assert b in if d == 0 then Leaves(disk, b, d, n) else Tables(disk, b, d, n);
  }

  // ----- stage by stage

  lemma ListUnfold(disk: seq<Block>, ib: BlockMap, r: nat, n: nat)
    requires 1 <= r <= 3
    ensures var before := ListUpTo(disk, ib, r, n);
      ListUpTo(disk, ib, r + 1, n) ==
        if |before| < n then before + Loaded(disk, ib[DIRECT - 1 + r], r) else before
  {
    hide Loaded;
  }

  lemma {:induction false} DirectListAll(es: seq<Word>, n: nat)
    requires forall i :: 0 <= i < Min(n, |es|) ==> es[i] > 0
    ensures DirectList(es, n) == es[..Min(n, |es|)]
  {
    if es != [] && n > 0 {
      DirectListAll(es[1..], n - 1);
    }
  }

  lemma DirectIsBlocks(disk: seq<Block>, ib: BlockMap, n: nat)
    requires FileOk(disk, ib, n)
    ensures ListUpTo(disk, ib, 1, n) == BlocksUpTo(disk, ib, 1, n)
  {
    hide LeavesOf, TablesOf, BlocksUpTo, TablesUpTo, FileFrom, FileTablesFrom;
    StageZero(disk, ib, n);
    SplitAtStage(disk, ib, 1, n);
    var direct := BlocksUpTo(disk, ib, 1, n);
    InRangeCat(disk, direct, FileFrom(disk, ib, 1, n - |direct|));
    assert forall i :: 0 <= i < |direct| ==> direct[i] in direct && direct[i] == ib[..DIRECT][i];
    DirectListAll(ib[..DIRECT], n);
  }

  /** The tree of stage `r` is in range if the file is. */
  lemma StageInRange(disk: seq<Block>, ib: BlockMap, r: nat, n: nat)
    requires 1 <= r <= 3 && FileOk(disk, ib, n)
    ensures var x, m := ib[DIRECT - 1 + r], n - |BlocksUpTo(disk, ib, r, n)|;
      && BlocksUpTo(disk, ib, r + 1, n) == BlocksUpTo(disk, ib, r, n) + Leaves(disk, x, r, m)
      && InRange(disk, Leaves(disk, x, r, m)) && InRange(disk, Tables(disk, x, r, m))
  {
    hide Leaves, LeavesOf, Tables, TablesOf, BlocksUpTo, TablesUpTo, FileFrom, FileTablesFrom;
    var x, m := ib[DIRECT - 1 + r], n - |BlocksUpTo(disk, ib, r, n)|;
    assert Stage(ib, r) == [x];
    ForestOne(disk, x, r, m);
    UpToUnfold(disk, ib, r, n);
    SplitAtStage(disk, ib, r + 1, n);
    var m' := n - |BlocksUpTo(disk, ib, r + 1, n)|;
    InRangeCat(disk, BlocksUpTo(disk, ib, r + 1, n), FileFrom(disk, ib, r + 1, m'));
    InRangeCat(disk, BlocksUpTo(disk, ib, r, n), Leaves(disk, x, r, m));
    InRangeCat(disk, TablesUpTo(disk, ib, r + 1, n), FileTablesFrom(disk, ib, r + 1, m'));
    InRangeCat(disk, TablesUpTo(disk, ib, r, n), Tables(disk, x, r, m));
  }

  lemma {:induction false} StagesLead(e: nat, disk: seq<Block>, ib: BlockMap, r: nat, n: nat)
    requires Uniform(e, disk) && |disk| <= 0xFFFF_FFFF && 1 <= r <= 4 && FileOk(disk, ib, n)
    ensures Leads(BlocksUpTo(disk, ib, r, n), ListUpTo(disk, ib, r, n), n)
  {
    hide FileOk, Leaves, Tables, Loaded, BlocksUpTo, ListUpTo, Uniform;
    if r == 1 {
      DirectIsBlocks(disk, ib, n);
    } else {
      StagesLead(e, disk, ib, r - 1, n);
      StageInRange(disk, ib, r - 1, n);
      ListUnfold(disk, ib, r - 1, n);
      var before, x := BlocksUpTo(disk, ib, r - 1, n), ib[DIRECT - 2 + r];
      if |before| < n {
        LeavesLead(e, disk, x, r - 1, n - |before|);
      } else {
        assert Leaves(disk, x, r - 1, 0) == [];
      }
    }
  }

  /** Whatever the tables hold behind the file's last block, the list is the file if and only if it has its length. */
  lemma ListExact(e: nat, disk: seq<Block>, ib: BlockMap, n: nat)
    requires Uniform(e, disk) && |disk| <= 0xFFFF_FFFF && FileOk(disk, ib, n)
    ensures ListUpTo(disk, ib, 4, n) == FileBlocks(disk, ib, n) <==> |ListUpTo(disk, ib, 4, n)| == n
    ensures FileBlocks(disk, ib, n) <= ListUpTo(disk, ib, 4, n)
  {
    hide BlocksUpTo, ListUpTo, FileFrom, FileTablesFrom, TablesUpTo, Uniform;
    StagesLead(e, disk, ib, 4, n);
    SplitAtStage(disk, ib, 4, n);
    NoMoreStages(disk, ib, n - |BlocksUpTo(disk, ib, 4, n)|);
  }

  // ----- when the loader stays within its buffer

  lemma ShorterBefore(disk: seq<Block>, ib: BlockMap, r: nat, n: nat)
    requires 1 <= r <= 3
    ensures |ListUpTo(disk, ib, r, n)| <= |ListUpTo(disk, ib, r + 1, n)|
  {
    hide Loaded, ListUpTo;
    ListUnfold(disk, ib, r, n);
  }

  lemma {:induction false} FitsIsOpens(disk: seq<Block>, ib: BlockMap, r: nat, n: nat)
    requires 1 <= r <= 4
    ensures ListFits(disk, ib, r, n) <==> OpensUpTo(disk, ib, r, n) && |ListUpTo(disk, ib, r, n)| <= n
  {
    hide Loaded, Loadable, ListUpTo;
    if r > 1 {
      FitsIsOpens(disk, ib, r - 1, n);
      ShorterBefore(disk, ib, r - 1, n);
    } else {
      assert |DirectList(ib[..DIRECT], n)| <= n;
      ListAtFirst(disk, ib, n);
    }
  }

  lemma ListAtFirst(disk: seq<Block>, ib: BlockMap, n: nat)
    ensures ListUpTo(disk, ib, 1, n) == DirectList(ib[..DIRECT], n)
  {
  }

  /** A file that needs stage `r` has its slot in use. */
  lemma SlotOfFile(e: nat, disk: seq<Block>, ib: BlockMap, r: nat, n: nat)
    requires Uniform(e, disk) && |disk| <= 0xFFFF_FFFF && FileOk(disk, ib, n) && 1 <= r <= 3
    ensures |ListUpTo(disk, ib, r, n)| < n ==> 0 < ib[DIRECT - 1 + r]
  {
    hide FileOk, Leaves, Tables, Loaded, BlocksUpTo, ListUpTo, Uniform;
    StagesLead(e, disk, ib, r, n);
    StageInRange(disk, ib, r, n);
    var m := n - |BlocksUpTo(disk, ib, r, n)|;
    if m > 0 {
      RootInRange(disk, ib[DIRECT - 1 + r], r, m);
    }
  }

  /** For an addressable file the loader stays within its buffer and reads every table it opens if and only if the
      list has the file's length and every opened table can be read; then the list is the file. */
  lemma LoadsExactly(e: nat, disk: seq<Block>, ib: BlockMap, n: nat)
    requires Uniform(e, disk) && |disk| <= 0xFFFF_FFFF && FileOk(disk, ib, n)
    ensures SlotsUsed(disk, ib, n)
    ensures ListFits(disk, ib, 4, n) <==> LoadsWhole(disk, ib, n)
    ensures ListFits(disk, ib, 4, n) <==> OpensUpTo(disk, ib, 4, n) && |WrittenUpTo(disk, ib, 4, n)| <= n
    ensures ListFits(disk, ib, 4, n) ==> ListUpTo(disk, ib, 4, n) == FileBlocks(disk, ib, n)
  {
    hide FileOk, ListUpTo, OpensUpTo, WrittenUpTo, ListFits, FileBlocks, Uniform;
    SlotOfFile(e, disk, ib, 1, n);
    SlotOfFile(e, disk, ib, 2, n);
    SlotOfFile(e, disk, ib, 3, n);
    FitsIsOpens(disk, ib, 4, n);
    ListExact(e, disk, ib, n);
    if OpensUpTo(disk, ib, 4, n) {
      StoredIsList(disk, ib, 4, n);
    }
  }
}
