/** The block tree of a file as functions of the disk contents: which blocks hold data, which hold tables. */
module Ext2Tree {
  import opened Words
  import opened Ext2Volume

  function Entries(disk: seq<Block>, b: nat): Block {
    if b < |disk| then disk[b] else []
  }

  /** The first `n` data blocks below block `b` at depth `d` (0 = data, 1 = indirect, 2 = double,
      3 = triple), in file order; all of them when there are fewer. */
  function Leaves(disk: seq<Block>, b: nat, d: nat, n: nat): (bs: seq<nat>)
    ensures |bs| <= n
    decreases d, 0
  {
    if n == 0 then [] else if d == 0 then [b] else LeavesOf(disk, Entries(disk, b), d - 1, n)
  }

  /** The first `n` data blocks below a list of blocks at depth `d`. */
  function LeavesOf(disk: seq<Block>, es: seq<Word>, d: nat, n: nat): (bs: seq<nat>)
    ensures |bs| <= n
    decreases d, |es|
  {
    if n == 0 || es == [] then []
    else
      var first := Leaves(disk, es[0], d, n);
      first + LeavesOf(disk, es[1..], d, n - |first|)
  }

  /** The table blocks that lead to those data blocks. */
  function Tables(disk: seq<Block>, b: nat, d: nat, n: nat): seq<nat>
    decreases d, 0
  {
    if n == 0 || d == 0 then [] else [b] + TablesOf(disk, Entries(disk, b), d - 1, n)
  }

  function TablesOf(disk: seq<Block>, es: seq<Word>, d: nat, n: nat): seq<nat>
    decreases d, |es|
  {
    if n == 0 || es == [] then []
    else Tables(disk, es[0], d, n) + TablesOf(disk, es[1..], d, n - |Leaves(disk, es[0], d, n)|)
  }

  ghost predicate Distinct(bs: seq<nat>) {
    forall i, j :: 0 <= i < j < |bs| ==> bs[i] != bs[j]
  }

  ghost predicate Apart(a: seq<nat>, b: seq<nat>) {
    forall x :: x in a ==> x !in b
  }

  ghost function SetOf(bs: seq<nat>): set<nat> {
    set b | b in bs
  }

  ghost predicate InRange(disk: seq<Block>, bs: seq<nat>) {
    forall b :: b in bs ==> 0 < b < |disk|
  }

  ghost predicate Uniform(e: nat, disk: seq<Block>) {
    forall b :: 0 <= b < |disk| ==> |disk[b]| == e
  }

  /** Two disks agree on the given blocks. */
  ghost predicate AgreeOn(disk: seq<Block>, disk': seq<Block>, bs: seq<nat>) {
    |disk| == |disk'| && forall b :: b in bs && b < |disk| ==> disk[b] == disk'[b]
  }

  lemma InRangeCat(disk: seq<Block>, a: seq<nat>, b: seq<nat>)
    ensures InRange(disk, a + b) <==> InRange(disk, a) && InRange(disk, b)
  {
    if InRange(disk, a + b) {
      forall x | x in a || x in b
        ensures 0 < x < |disk|
      {
        assert x in a + b;
      }
    }
  }

  // ----- one unfolding

  lemma ForestCons(disk: seq<Block>, es: seq<Word>, d: nat, n: nat)
    requires n > 0 && es != []
    ensures var m := n - |Leaves(disk, es[0], d, n)|;
      && LeavesOf(disk, es, d, n) == Leaves(disk, es[0], d, n) + LeavesOf(disk, es[1..], d, m)
      && TablesOf(disk, es, d, n) == Tables(disk, es[0], d, n) + TablesOf(disk, es[1..], d, m)
  {
  }

  lemma TreeUnfold(disk: seq<Block>, b: nat, d: nat, n: nat)
    requires n > 0 && d > 0
    ensures Leaves(disk, b, d, n) == LeavesOf(disk, Entries(disk, b), d - 1, n)
    ensures Tables(disk, b, d, n) == [b] + TablesOf(disk, Entries(disk, b), d - 1, n)
  {
  }

  lemma ForestEmpty(disk: seq<Block>, es: seq<Word>, d: nat, n: nat)
    requires n == 0 || es == []
    ensures LeavesOf(disk, es, d, n) == [] && TablesOf(disk, es, d, n) == []
  {
  }

  // ----- number of data blocks

  /** Data blocks a complete tree of depth `d` holds. */
  function Cap(e: nat, d: nat): nat {
    if d == 0 then 1 else e * Cap(e, d - 1)
  }

  lemma MinStep(n: nat, k: nat, c: nat)
    ensures (k + 1) * c >= 0
    ensures k * c >= 0
    ensures Min(n, (k + 1) * c) == Min(n, c) + Min(n - Min(n, c), k * c)
  {
    assert (k + 1) * c == k * c + c;
  }

  lemma {:induction false} LeavesCount(e: nat, disk: seq<Block>, b: nat, d: nat, n: nat)
    requires Uniform(e, disk)
    requires InRange(disk, Tables(disk, b, d, n))
    ensures |Leaves(disk, b, d, n)| == Min(n, Cap(e, d))
    decreases d, 0
  {
    if n > 0 && d > 0 {
      InRangeCat(disk, [b], TablesOf(disk, Entries(disk, b), d - 1, n));
      assert b in [b];
      LeavesOfCount(e, disk, Entries(disk, b), d - 1, n);
    }
  }

  lemma {:induction false} LeavesOfCount(e: nat, disk: seq<Block>, es: seq<Word>, d: nat, n: nat)
    requires Uniform(e, disk)
    requires InRange(disk, TablesOf(disk, es, d, n))
    ensures |LeavesOf(disk, es, d, n)| == Min(n, |es| * Cap(e, d))
    decreases d, |es|
  {
    if n > 0 && es != [] {
      var rest := n - |Leaves(disk, es[0], d, n)|;
      InRangeCat(disk, Tables(disk, es[0], d, n), TablesOf(disk, es[1..], d, rest));
      LeavesCount(e, disk, es[0], d, n);
      LeavesOfCount(e, disk, es[1..], d, rest);
      MinStep(n, |es[1..]|, Cap(e, d));
    }
  }

  // ----- frame: the tree depends on its tables only

  lemma {:induction false} TreeFrame(disk: seq<Block>, disk': seq<Block>, b: nat, d: nat, n: nat)
    requires AgreeOn(disk, disk', Tables(disk, b, d, n))
    ensures Leaves(disk', b, d, n) == Leaves(disk, b, d, n)
    ensures Tables(disk', b, d, n) == Tables(disk, b, d, n)
    decreases d, 0
  {
    if n > 0 && d > 0 {
      TreeUnfold(disk, b, d, n);
      assert b in Tables(disk, b, d, n);
      assert Entries(disk', b) == Entries(disk, b);
      ForestFrame(disk, disk', Entries(disk, b), d - 1, n);
    }
  }

  lemma {:induction false} ForestFrame(disk: seq<Block>, disk': seq<Block>, es: seq<Word>, d: nat, n: nat)
    requires AgreeOn(disk, disk', TablesOf(disk, es, d, n))
    ensures LeavesOf(disk', es, d, n) == LeavesOf(disk, es, d, n)
    ensures TablesOf(disk', es, d, n) == TablesOf(disk, es, d, n)
    decreases d, |es|
  {
    hide Leaves, LeavesOf, Tables, TablesOf;
    if n > 0 && es != [] {
      ForestCons(disk, es, d, n);
      ForestCons(disk', es, d, n);
      TreeFrame(disk, disk', es[0], d, n);
      ForestFrame(disk, disk', es[1..], d, n - |Leaves(disk, es[0], d, n)|);
    } else {
      ForestEmpty(disk, es, d, n);
      ForestEmpty(disk', es, d, n);
    }
  }

  // ----- lists of trees side by side

  lemma Reassociate<T>(all: seq<T>, a: seq<T>, b: seq<T>, c: seq<T>)
    requires all == a + (b + c)
    ensures all == (a + b) + c
  {
  }

  lemma {:induction false} LeavesOfCat(disk: seq<Block>, es: seq<Word>, fs: seq<Word>, d: nat, n: nat)
    ensures LeavesOf(disk, es + fs, d, n)
         == LeavesOf(disk, es, d, n) + LeavesOf(disk, fs, d, n - |LeavesOf(disk, es, d, n)|)
    decreases |es|
  {
    hide Leaves, LeavesOf, Tables, TablesOf;
    if n == 0 || es == [] {
      ForestEmpty(disk, es, d, n);
      assert es == [] ==> es + fs == fs;
      if n == 0 {
        ForestEmpty(disk, es + fs, d, n);
        ForestEmpty(disk, fs, d, n);
      }
    } else {
      var first := Leaves(disk, es[0], d, n);
      var rest := n - |first|;
      LeavesOfCat(disk, es[1..], fs, d, rest);
      ForestCons(disk, es, d, n);
      ForestCons(disk, es + fs, d, n);
      assert (es + fs)[1..] == es[1..] + fs;
      var mid := LeavesOf(disk, es[1..], d, rest);
      Reassociate(LeavesOf(disk, es + fs, d, n), first, mid, LeavesOf(disk, fs, d, rest - |mid|));
    }
  }

  lemma {:induction false} TablesOfCat(disk: seq<Block>, es: seq<Word>, fs: seq<Word>, d: nat, n: nat)
    ensures TablesOf(disk, es + fs, d, n)
         == TablesOf(disk, es, d, n) + TablesOf(disk, fs, d, n - |LeavesOf(disk, es, d, n)|)
    decreases |es|
  {
    hide Leaves, LeavesOf, Tables, TablesOf;
    if n == 0 || es == [] {
      ForestEmpty(disk, es, d, n);
      assert es == [] ==> es + fs == fs;
      if n == 0 {
        ForestEmpty(disk, es + fs, d, n);
        ForestEmpty(disk, fs, d, n);
      }
    } else {
      var first := Leaves(disk, es[0], d, n);
      var rest := n - |first|;
      TablesOfCat(disk, es[1..], fs, d, rest);
      ForestCons(disk, es, d, n);
      ForestCons(disk, es + fs, d, n);
      assert (es + fs)[1..] == es[1..] + fs;
      var mid := LeavesOf(disk, es[1..], d, rest);
      Reassociate(TablesOf(disk, es + fs, d, n), Tables(disk, es[0], d, n),
        TablesOf(disk, es[1..], d, rest), TablesOf(disk, fs, d, rest - |mid|));
    }
  }

  /** A single tree as a list. */
  lemma ForestOne(disk: seq<Block>, x: Word, d: nat, n: nat)
    ensures LeavesOf(disk, [x], d, n) == Leaves(disk, x, d, n)
    ensures TablesOf(disk, [x], d, n) == Tables(disk, x, d, n)
  {
  }

  // ----- the first blocks of a longer tree

  ghost predicate PrefixTree(ls: seq<nat>, ls': seq<nat>, ts: seq<nat>, ts': seq<nat>, m: nat) {
    && ls == ls'[..Min(m, |ls'|)]
    && forall t :: t in ts ==> t in ts'
  }

  lemma {:induction false} TreePrefix(disk: seq<Block>, b: nat, d: nat, m: nat, n: nat)
    requires m <= n
    ensures PrefixTree(Leaves(disk, b, d, m), Leaves(disk, b, d, n), Tables(disk, b, d, m), Tables(disk, b, d, n), m)
    decreases d, 0
  {
    if m > 0 && d > 0 {
      hide Leaves, Tables, LeavesOf, TablesOf;
      TreeUnfold(disk, b, d, m);
      TreeUnfold(disk, b, d, n);
      ForestTreePrefix(disk, Entries(disk, b), d - 1, m, n);
    }
  }

  lemma {:induction false} ForestTreePrefix(disk: seq<Block>, es: seq<Word>, d: nat, m: nat, n: nat)
    requires m <= n
    ensures PrefixTree(LeavesOf(disk, es, d, m), LeavesOf(disk, es, d, n),
                       TablesOf(disk, es, d, m), TablesOf(disk, es, d, n), m)
    decreases d, |es|
  {
    hide Leaves, LeavesOf, Tables, TablesOf;
    if m == 0 || es == [] {
      ForestEmpty(disk, es, d, m);
      if es == [] {
        ForestEmpty(disk, es, d, n);
      }
    } else {
      ForestCons(disk, es, d, m);
      ForestCons(disk, es, d, n);
      var a, a' := Leaves(disk, es[0], d, m), Leaves(disk, es[0], d, n);
      TreePrefix(disk, es[0], d, m, n);
      if m <= |a'| {
        ForestEmpty(disk, es[1..], d, m - |a|);
        assert (a' + LeavesOf(disk, es[1..], d, n - |a'|))[..m] == a'[..m];
      } else {
        assert a == a';
        ForestTreePrefix(disk, es[1..], d, m - |a|, n - |a|);
        PrefixCat(a, LeavesOf(disk, es[1..], d, m - |a|), LeavesOf(disk, es[1..], d, n - |a|), m);
      }
    }
  }

  lemma PrefixCat(a: seq<nat>, ls: seq<nat>, ls': seq<nat>, m: nat)
    requires |a| <= m && ls == ls'[..Min(m - |a|, |ls'|)]
    ensures a + ls == (a + ls')[..Min(m, |a + ls'|)]
  {
  }
}
