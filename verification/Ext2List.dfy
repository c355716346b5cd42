/** The block list of a file and the release of its blocks. */
module Ext2List {
  import opened Words
  import opened Ext2Volume
  import opened Ext2Tree
  import opened Ext2Alloc
  import opened Ext2File

  // ----- what the loaders read

  /** 0 and INODE_BLOCK_END end a table. */
  predicate Stops(w: Word) {
    w == 0 || w == 0xFFFF_FFFF
  }

  function Prefix(es: seq<Word>): (r: seq<Word>)
    ensures r <= es
    ensures forall x :: x in r ==> !Stops(x)
    ensures |r| < |es| ==> Stops(es[|r|])
  {
    if es == [] || Stops(es[0]) then [] else [es[0]] + Prefix(es[1..])
  }

  /** The blocks the loader of depth `d` lists below block `b`. */
  function Loaded(disk: seq<Block>, b: nat, d: nat): seq<nat>
    decreases d, 0
  {
    if d == 0 then [b] else LoadedOf(disk, Prefix(Entries(disk, b)), d - 1)
  }

  function LoadedOf(disk: seq<Block>, es: seq<Word>, d: nat): seq<nat>
    decreases d, |es| + 1
  {
    if es == [] then [] else Loaded(disk, es[0], d) + LoadedOf(disk, es[1..], d)
  }

  /** Every table the loader opens can be read. */
  ghost predicate Loadable(disk: seq<Block>, b: nat, d: nat)
    decreases d, 0
  {
    d == 0 || (0 < b < |disk| && LoadableOf(disk, Prefix(disk[b]), d - 1))
  }

  ghost predicate LoadableOf(disk: seq<Block>, es: seq<Word>, d: nat)
    decreases d, |es| + 1
  {
    es == [] || (Loadable(disk, es[0], d) && LoadableOf(disk, es[1..], d))
  }

  /** What the loader of depth `d` stores below block `b`: its list up to the first table that cannot be read. */
  ghost function Written(disk: seq<Block>, b: nat, d: nat): seq<nat>
    decreases d, 0
  {
    if d == 0 then [b] else WrittenOf(disk, Prefix(Entries(disk, b)), d - 1)
  }

  ghost function WrittenOf(disk: seq<Block>, es: seq<Word>, d: nat): seq<nat>
    decreases d, |es| + 1
  {
    if es == [] then []
    else Written(disk, es[0], d) + (if Loadable(disk, es[0], d) then WrittenOf(disk, es[1..], d) else [])
  }

  lemma {:induction false} LoadedOfZero(disk: seq<Block>, es: seq<Word>)
    ensures LoadedOf(disk, es, 0) == es
    decreases |es|
  {
    if es != [] {
      LoadedOfZero(disk, es[1..]);
    }
  }

  /** When every table can be read the whole list is stored. */
  lemma {:induction false} WrittenIsLoaded(disk: seq<Block>, b: nat, d: nat)
    requires Loadable(disk, b, d)
    ensures Written(disk, b, d) == Loaded(disk, b, d)
    decreases d, 0
  {
    if d > 0 {
      WrittenOfIsLoaded(disk, Prefix(disk[b]), d - 1);
    }
  }

  lemma {:induction false} WrittenOfIsLoaded(disk: seq<Block>, es: seq<Word>, d: nat)
    requires LoadableOf(disk, es, d)
    ensures WrittenOf(disk, es, d) == LoadedOf(disk, es, d)
    decreases d, |es| + 1
  {
    hide Written, Loaded, Loadable;
    if es != [] {
      WrittenIsLoaded(disk, es[0], d);
      WrittenOfIsLoaded(disk, es[1..], d);
    }
  }

  lemma {:induction false} LoadableOfCat(disk: seq<Block>, es: seq<Word>, fs: seq<Word>, d: nat)
    ensures LoadableOf(disk, es + fs, d) <==> LoadableOf(disk, es, d) && LoadableOf(disk, fs, d)
    decreases |es|
  {
    hide Loadable;
    if es == [] {
      assert es + fs == fs;
    } else {
      LoadableOfCat(disk, es[1..], fs, d);
      assert (es + fs)[1..] == es[1..] + fs;
    }
  }

  lemma {:induction false} WrittenOfCat(disk: seq<Block>, es: seq<Word>, fs: seq<Word>, d: nat)
    ensures WrittenOf(disk, es + fs, d) ==
      WrittenOf(disk, es, d) + (if LoadableOf(disk, es, d) then WrittenOf(disk, fs, d) else [])
    decreases |es|
  {
    hide Written, Loadable;
    if es == [] {
      assert es + fs == fs;
    } else {
      WrittenOfCat(disk, es[1..], fs, d);
      assert (es + fs)[1..] == es[1..] + fs;
      if Loadable(disk, es[0], d) {
        Reassociate(WrittenOf(disk, es + fs, d), Written(disk, es[0], d), WrittenOf(disk, es[1..], d),
          if LoadableOf(disk, es[1..], d) then WrittenOf(disk, fs, d) else []);
      }
    }
  }

  /** One more entry of a table whose first `i` entries could be read. */
  lemma WrittenStep(disk: seq<Block>, es: seq<Word>, d: nat, i: nat)
    requires i < |es| && LoadableOf(disk, es[..i], d)
    ensures WrittenOf(disk, es[..i + 1], d) == WrittenOf(disk, es[..i], d) + Written(disk, es[i], d)
    ensures LoadableOf(disk, es[..i + 1], d) <==> Loadable(disk, es[i], d)
  {
    hide Written, WrittenOf, Loadable, LoadableOf;
    assert es[..i + 1] == es[..i] + [es[i]];
    WrittenOfCat(disk, es[..i], [es[i]], d);
    LoadableOfCat(disk, es[..i], [es[i]], d);
    WrittenOfOne(disk, es[i], d);
  }

  lemma WrittenOfOne(disk: seq<Block>, x: Word, d: nat)
    ensures WrittenOf(disk, [x], d) == Written(disk, x, d) && (LoadableOf(disk, [x], d) <==> Loadable(disk, x, d))
    ensures WrittenOf(disk, [], d) == [] && LoadableOf(disk, [], d)
  {
    hide Loadable;
    assert WrittenOf(disk, [x][1..], d) == [];
  }

  /** Behind an entry that cannot be read nothing is stored. */
  lemma WrittenStop(disk: seq<Block>, es: seq<Word>, d: nat, i: nat)
    requires i < |es| && LoadableOf(disk, es[..i], d) && !Loadable(disk, es[i], d)
    ensures WrittenOf(disk, es, d) == WrittenOf(disk, es[..i], d) + Written(disk, es[i], d)
    ensures !LoadableOf(disk, es, d)
  {
    hide Written, WrittenOf, Loadable, LoadableOf;
    WrittenStep(disk, es, d, i);
    assert es == es[..i + 1] + es[i + 1..];
    WrittenOfCat(disk, es[..i + 1], es[i + 1..], d);
    LoadableOfCat(disk, es[..i + 1], es[i + 1..], d);
  }

  lemma WrittenLeaf(disk: seq<Block>, b: nat)
    ensures Written(disk, b, 0) == [b] && Loadable(disk, b, 0)
  {
  }

  // ----- the buffer

  /** The memory from its `at`-th word on overwritten by `xs`, past the end where need be. */
  function Put(before: seq<nat>, at: nat, xs: seq<nat>): (after: seq<nat>)
    requires at <= |before|
    ensures |after| == if at + |xs| <= |before| then |before| else at + |xs|
  {
    before[..at] + xs + (if at + |xs| <= |before| then before[at + |xs|..] else [])
  }

  lemma PutTwice(before: seq<nat>, at: nat, xs: seq<nat>, ys: seq<nat>)
    requires at <= |before|
    ensures at + |xs| <= |Put(before, at, xs)|
    ensures Put(Put(before, at, xs), at + |xs|, ys) == Put(before, at, xs + ys)
  {
    var mid := Put(before, at, xs);
    assert mid[..at + |xs|] == before[..at] + xs;
    if at + |xs| + |ys| <= |before| {
      assert mid[at + |xs| + |ys|..] == before[at + |xs| + |ys|..];
    }
  }

  lemma PutNothing(before: seq<nat>, at: nat)
    requires at <= |before|
    ensures Put(before, at, []) == before
  {
  }

  lemma PutWhole(before: seq<nat>, xs: seq<nat>)
    requires |xs| == |before|
    ensures Put(before, 0, xs) == xs
  {
  }

  /** A buffer of `size` words from the kernel's heap. Nothing checks a store against its end. */
  class WordBuffer {
    const size: nat
    var words: seq<Word>      // the buffer, and behind it the words stored past its end

    /** A fresh buffer; its contents are whatever the heap held. */
    constructor (size: nat)
      ensures this.size == size && |words| == size
    {
      this.size := size;
      var junk: seq<Word> := *;
      words := seq(size, i requires 0 <= i => if i < |junk| then junk[i] else 0);
    }

    method Store(at: nat, w: Word)
      requires at <= |words|
      modifies this
      ensures words == Put(old(words), at, [w])
    {
      words := if at < |words| then words[at := w] else words + [w];
    }
  }

  // ----- the loaders

  /** What a loader of depth `d` started on `block` does. `ok` is false where the source returns EXT2_READ_FAILED.
      A table in block 0 is not read at all: its buffer holds junk, and nothing is known of the list. */
  ghost predicate LoadOutcome(disk: seq<Block>, before: seq<Word>, after: seq<Word>, at: nat, block: nat, d: nat,
                              ok: bool, read: nat)
  {
    && at <= |before| <= |after|
    && (ok ==> at + read <= |after|)
    && (block > 0 ==>
      && (ok <==> Loadable(disk, block, d))
      && after == Put(before, at, Written(disk, block, d))
      && (ok ==> read == |Written(disk, block, d)|))
  }

  /** The loop over a table: the lists of the first `i` used entries are in place. */
  ghost predicate LoadedTo(before: seq<Word>, after: seq<Word>, at: nat, disk: seq<Block>, es: seq<Word>, d: nat,
                           i: nat, read: nat)
  {
    && i <= |es| && at <= |before|
    && LoadableOf(disk, es[..i], d)
    && read == |WrittenOf(disk, es[..i], d)|
    && after == Put(before, at, WrittenOf(disk, es[..i], d))
  }

  lemma LoadStart(before: seq<Word>, at: nat, disk: seq<Block>, es: seq<Word>, d: nat)
    requires at <= |before|
    ensures LoadedTo(before, before, at, disk, es, d, 0, 0)
  {
    assert es[..0] == [];
    PutNothing(before, at);
  }

  lemma LoadedSize(before: seq<Word>, after: seq<Word>, at: nat, disk: seq<Block>, es: seq<Word>, d: nat, i: nat, read: nat)
    requires LoadedTo(before, after, at, disk, es, d, i, read)
    ensures at <= |before| <= |after| && at + read <= |after|
  {
    hide WrittenOf, LoadableOf;
  }

  /** The next entry was loaded, or could not be read. */
  lemma LoadNext(before: seq<Word>, mid: seq<Word>, after: seq<Word>, at: nat, disk: seq<Block>, es: seq<Word>, d: nat,
                 i: nat, read: nat, ok: bool, more: nat)
    requires LoadedTo(before, mid, at, disk, es, d, i, read) && i < |es| && es[i] > 0
    requires LoadOutcome(disk, mid, after, at + read, es[i], d, ok, more)
    ensures ok ==> LoadedTo(before, after, at, disk, es, d, i + 1, read + more)
    ensures !ok ==> !LoadableOf(disk, es, d) && after == Put(before, at, WrittenOf(disk, es, d))
  {
    hide Written, WrittenOf, Loadable, LoadableOf, Put;
    PutTwice(before, at, WrittenOf(disk, es[..i], d), Written(disk, es[i], d));
    WrittenStep(disk, es, d, i);
    if !ok {
      WrittenStop(disk, es, d, i);
    }
  }

  lemma LoadEnd(before: seq<Word>, after: seq<Word>, at: nat, disk: seq<Block>, es: seq<Word>, d: nat, i: nat, read: nat)
    requires LoadedTo(before, after, at, disk, es, d, i, read) && i == |es|
    ensures LoadableOf(disk, es, d) && read == |WrittenOf(disk, es, d)| && after == Put(before, at, WrittenOf(disk, es, d))
  {
    hide WrittenOf, LoadableOf, Put;
    assert es[..i] == es;
  }

  /** The entries `es` of the table are all loaded (`ok`), or one of them could not be read. */
  lemma TableLoaded(disk: seq<Block>, before: seq<Word>, after: seq<Word>, at: nat, block: nat, d: nat, es: seq<Word>,
                    ok: bool, read: nat)
    requires d > 0 && at <= |before| && (block > 0 ==> block < |disk| && es == Prefix(disk[block]))
    requires (ok <==> LoadableOf(disk, es, d - 1)) && after == Put(before, at, WrittenOf(disk, es, d - 1))
    requires ok ==> read == |WrittenOf(disk, es, d - 1)|
    ensures LoadOutcome(disk, before, after, at, block, d, ok, read)
  {
    hide WrittenOf, LoadableOf;
  }

  lemma TableUnreadable(disk: seq<Block>, before: seq<Word>, at: nat, block: nat, d: nat, read: nat)
    requires d > 0 && at <= |before| && block >= |disk|
    ensures LoadOutcome(disk, before, before, at, block, d, false, read)
  {
    hide Put;
    PutNothing(before, at);
    assert Entries(disk, block) == [] && Prefix([]) == [];
    assert Written(disk, block, d) == WrittenOf(disk, [], d - 1);
    WrittenOfOne(disk, 0, d - 1);
  }

  /** One data block stored. */
  lemma LeafStored(disk: seq<Block>, before: seq<Word>, at: nat, x: Word)
    requires at <= |before|
    ensures LoadOutcome(disk, before, Put(before, at, [x]), at, x, 0, true, 1)
  {
    WrittenLeaf(disk, x);
  }

  /** ext2_load_indirect_block_list. */
  method LoadIndirect(p: Partition, list: WordBuffer, at: nat, block: nat) returns (ok: bool, read: nat)
    requires p.Value().Shape() && at <= |list.words|
    modifies list
    ensures LoadOutcome(p.disk, old(list.words), list.words, at, block, 1, ok, read)
  {
    hide WrittenOf, LoadableOf, LoadedTo, LoadOutcome, Put;
    ghost var before := list.words;
    read := 0;
    var status, table := p.ReadBlock(block);
    if status == READ_FAILED {
      TableUnreadable(p.disk, before, at, block, 1, read);
      return false, read;
    }
    ghost var es := Prefix(table);
    var i := 0;
    LoadStart(before, at, p.disk, es, 0);
    while i < p.words
      invariant i <= |es| && LoadedTo(before, list.words, at, p.disk, es, 0, i, read)
    {
      if Stops(table[i]) {
        break;
      }
      ghost var mid := list.words;
      LoadedSize(before, mid, at, p.disk, es, 0, i, read);
      list.Store(at + read, table[i]);
      LeafStored(p.disk, mid, at + read, table[i]);
      LoadNext(before, mid, list.words, at, p.disk, es, 0, i, read, true, 1);
      read := read + 1;
      i := i + 1;
    }
    LoadEnd(before, list.words, at, p.disk, es, 0, i, read);
    TableLoaded(p.disk, before, list.words, at, block, 1, es, true, read);
    ok := true;
  }

  /** ext2_load_double_indirect_block_list. */
  method LoadDouble(p: Partition, list: WordBuffer, at: nat, block: nat) returns (ok: bool, read: nat)
    requires p.Value().Shape() && at <= |list.words|
    modifies list
    ensures LoadOutcome(p.disk, old(list.words), list.words, at, block, 2, ok, read)
  {
    hide WrittenOf, LoadableOf, LoadedTo, LoadOutcome, Put;
    ghost var before := list.words;
    read := 0;
    var status, table := p.ReadBlock(block);
    if status == READ_FAILED {
      TableUnreadable(p.disk, before, at, block, 2, read);
      return false, read;
    }
    ghost var es := Prefix(table);
    var i := 0;
    LoadStart(before, at, p.disk, es, 1);
    while i < p.words
      invariant i <= |es| && LoadedTo(before, list.words, at, p.disk, es, 1, i, read)
    {
      if Stops(table[i]) {
        break;
      }
      ghost var mid := list.words;
      LoadedSize(before, mid, at, p.disk, es, 1, i, read);
      var loaded, more := LoadIndirect(p, list, at + read, table[i]);
      LoadNext(before, mid, list.words, at, p.disk, es, 1, i, read, loaded, more);
      if !loaded {
        TableLoaded(p.disk, before, list.words, at, block, 2, es, false, read);
        return false, read;
      }
      read := read + more;
      i := i + 1;
    }
    LoadEnd(before, list.words, at, p.disk, es, 1, i, read);
    TableLoaded(p.disk, before, list.words, at, block, 2, es, true, read);
    ok := true;
  }

  /** ext2_load_triple_indirect_block_list. */
  method LoadTriple(p: Partition, list: WordBuffer, at: nat, block: nat) returns (ok: bool, read: nat)
    requires p.Value().Shape() && at <= |list.words|
    modifies list
    ensures LoadOutcome(p.disk, old(list.words), list.words, at, block, 3, ok, read)
  {
    hide WrittenOf, LoadableOf, LoadedTo, LoadOutcome, Put;
    ghost var before := list.words;
    read := 0;
    var status, table := p.ReadBlock(block);
    if status == READ_FAILED {
      TableUnreadable(p.disk, before, at, block, 3, read);
      return false, read;
    }
    ghost var es := Prefix(table);
    var i := 0;
    LoadStart(before, at, p.disk, es, 2);
    while i < p.words
      invariant i <= |es| && LoadedTo(before, list.words, at, p.disk, es, 2, i, read)
    {
      if Stops(table[i]) {
        break;
      }
      ghost var mid := list.words;
      LoadedSize(before, mid, at, p.disk, es, 2, i, read);
      var loaded, more := LoadDouble(p, list, at + read, table[i]);
      LoadNext(before, mid, list.words, at, p.disk, es, 2, i, read, loaded, more);
      if !loaded {
        TableLoaded(p.disk, before, list.words, at, block, 3, es, false, read);
        return false, read;
      }
      read := read + more;
      i := i + 1;
    }
    LoadEnd(before, list.words, at, p.disk, es, 2, i, read);
    TableLoaded(p.disk, before, list.words, at, block, 3, es, true, read);
    ok := true;
  }

  // ----- the list of a whole file

  /** The entries of the direct slots that are in use, at most `n` of them. */
  function DirectList(es: seq<Word>, n: nat): (r: seq<Word>)
    ensures |r| <= n
  {
    if es == [] || n == 0 then []
    else if es[0] > 0 then [es[0]] + DirectList(es[1..], n - 1)
    else DirectList(es[1..], n)
  }

  /** The list with the stages before `r` loaded: a stage is opened only while the list is short. */
  function ListUpTo(disk: seq<Block>, ib: BlockMap, r: nat, n: nat): seq<nat>
    requires 1 <= r <= 4
  {
    if r == 1 then DirectList(ib[..DIRECT], n)
    else
      var before := ListUpTo(disk, ib, r - 1, n);
      if |before| < n then before + Loaded(disk, ib[DIRECT - 2 + r], r - 1) else before
  }

  /** Every table opened in the stages before `r` can be read. */
  ghost predicate OpensUpTo(disk: seq<Block>, ib: BlockMap, r: nat, n: nat)
    requires 1 <= r <= 4
  {
    r == 1 || (OpensUpTo(disk, ib, r - 1, n)
      && (|ListUpTo(disk, ib, r - 1, n)| < n ==> Loadable(disk, ib[DIRECT - 2 + r], r - 1)))
  }

  /** What the stages before `r` store, up to the first table that cannot be read. */
  ghost function WrittenUpTo(disk: seq<Block>, ib: BlockMap, r: nat, n: nat): seq<nat>
    requires 1 <= r <= 4
  {
    if r == 1 then ListUpTo(disk, ib, 1, n)
    else if OpensUpTo(disk, ib, r - 1, n) && |ListUpTo(disk, ib, r - 1, n)| < n
    then ListUpTo(disk, ib, r - 1, n) + Written(disk, ib[DIRECT - 2 + r], r - 1)
    else WrittenUpTo(disk, ib, r - 1, n)
  }

  /** Every table opened can be read, and the list has the file's length. */
  ghost predicate LoadsWhole(disk: seq<Block>, ib: BlockMap, n: nat) {
    OpensUpTo(disk, ib, 4, n) && |ListUpTo(disk, ib, 4, n)| == n
  }

  /** No stage is opened on an empty slot. */
  ghost predicate SlotsUsed(disk: seq<Block>, ib: BlockMap, n: nat) {
    forall r :: 1 <= r <= 3 && OpensUpTo(disk, ib, r, n) && |ListUpTo(disk, ib, r, n)| < n ==> ib[DIRECT - 1 + r] > 0
  }

  /** The list stays within `n` words, and every table opened for it can be read. */
  ghost predicate ListFits(disk: seq<Block>, ib: BlockMap, r: nat, n: nat)
    requires 1 <= r <= 4
  {
    && |ListUpTo(disk, ib, r, n)| <= n
    && (r > 1 ==>
      && ListFits(disk, ib, r - 1, n)
      && (|ListUpTo(disk, ib, r - 1, n)| < n ==> Loadable(disk, ib[DIRECT - 2 + r], r - 1)))
  }

  lemma {:induction false} DirectListMore(es: seq<Word>, n: nat, i: nat)
    requires i < |es|
    ensures DirectList(es[..i + 1], n) ==
      if |DirectList(es[..i], n)| < n && es[i] > 0 then DirectList(es[..i], n) + [es[i]] else DirectList(es[..i], n)
    decreases n, i
  {
    if n > 0 && i > 0 {
      assert es[..i + 1][1..] == es[1..][..i] && es[..i][1..] == es[1..][..i - 1];
      assert es[..i + 1][0] == es[0] && es[..i][0] == es[0];
      DirectListMore(es[1..], if es[0] > 0 then n - 1 else n, i - 1);
    }
  }

  lemma {:induction false} DirectListFull(es: seq<Word>, n: nat, i: nat)
    requires i <= |es| && |DirectList(es[..i], n)| == n
    ensures DirectList(es, n) == DirectList(es[..i], n)
    decreases |es| - i
  {
    if i < |es| {
      DirectListMore(es, n, i);
      DirectListFull(es, n, i + 1);
    } else {
      assert es[..i] == es;
    }
  }

  lemma StageList(disk: seq<Block>, ib: BlockMap, r: nat, n: nat)
    requires 1 <= r <= 3 && OpensUpTo(disk, ib, r, n)
    ensures var listed, x := ListUpTo(disk, ib, r, n), ib[DIRECT - 1 + r];
      if |listed| < n then
        && (OpensUpTo(disk, ib, r + 1, n) <==> Loadable(disk, x, r))
        && WrittenUpTo(disk, ib, r + 1, n) == listed + Written(disk, x, r)
        && (Loadable(disk, x, r) ==> ListUpTo(disk, ib, r + 1, n) == listed + Written(disk, x, r))
      else OpensUpTo(disk, ib, r + 1, n) && ListUpTo(disk, ib, r + 1, n) == listed
  {
    hide Written, Loaded, Loadable;
    if Loadable(disk, ib[DIRECT - 1 + r], r) {
      WrittenIsLoaded(disk, ib[DIRECT - 1 + r], r);
    }
  }

  /** As long as every table can be read, what is stored is the list. */
  lemma {:induction false} StoredIsList(disk: seq<Block>, ib: BlockMap, r: nat, n: nat)
    requires 1 <= r <= 4 && OpensUpTo(disk, ib, r, n)
    ensures WrittenUpTo(disk, ib, r, n) == ListUpTo(disk, ib, r, n)
  {
    hide Written, Loaded, Loadable, ListUpTo;
    if r > 1 {
      StoredIsList(disk, ib, r - 1, n);
      StageList(disk, ib, r - 1, n);
    }
  }

  /** Once a table could not be read nothing more is stored. */
  lemma {:induction false} StoppedAt(disk: seq<Block>, ib: BlockMap, r: nat, n: nat)
    requires 1 <= r <= 4 && !OpensUpTo(disk, ib, r, n)
    ensures !OpensUpTo(disk, ib, 4, n) && WrittenUpTo(disk, ib, 4, n) == WrittenUpTo(disk, ib, r, n)
    decreases 4 - r
  {
    hide Written, Loaded, Loadable, ListUpTo;
    if r < 4 {
      StoppedAt(disk, ib, r + 1, n);
    }
  }

  /** The stages before `r` are loaded; `known` if none of them was opened on an empty slot. */
  ghost predicate ListedTo(disk: seq<Block>, ib: BlockMap, r: nat, n: nat, before: seq<Word>, words: seq<Word>,
                           index: nat, known: bool)
    requires 1 <= r <= 4
  {
    && |before| == n <= |words| && index <= |words|
    && (known ==>
      && OpensUpTo(disk, ib, r, n) && index == |ListUpTo(disk, ib, r, n)|
      && words == Put(before, 0, ListUpTo(disk, ib, r, n)))
  }

  /** ext2_load_block_list for a file of `n` blocks that opens no empty slot: the whole list if it has the file's
      length and every table could be read; and whether more was stored than the buffer has room for. */
  ghost predicate ListOutcome(disk: seq<Block>, ib: BlockMap, n: nat, listed: bool, words: seq<Word>, overrun: bool) {
    && (listed <==> n > 0 && LoadsWhole(disk, ib, n))
    && (listed ==> words == ListUpTo(disk, ib, 4, n))
    && (overrun <==> n > 0 && |WrittenUpTo(disk, ib, 4, n)| > n)
  }

  lemma SlotUsed(disk: seq<Block>, ib: BlockMap, r: nat, n: nat)
    requires SlotsUsed(disk, ib, n) && 1 <= r <= 3 && OpensUpTo(disk, ib, r, n) && |ListUpTo(disk, ib, r, n)| < n
    ensures ib[DIRECT - 1 + r] > 0
  {
  }

  lemma StageSkipped(disk: seq<Block>, ib: BlockMap, r: nat, n: nat, before: seq<Word>, words: seq<Word>, index: nat, known: bool)
    requires 1 <= r <= 3 && ListedTo(disk, ib, r, n, before, words, index, known) && index >= n
    ensures ListedTo(disk, ib, r + 1, n, before, words, index, known)
  {
    hide OpensUpTo, ListUpTo, Put;
    if known {
      StageList(disk, ib, r, n);
    }
  }

  lemma StageLoaded(disk: seq<Block>, ib: BlockMap, r: nat, n: nat, before: seq<Word>, mid: seq<Word>, after: seq<Word>,
                    index: nat, known: bool, ok: bool, read: nat)
    requires 1 <= r <= 3 && ListedTo(disk, ib, r, n, before, mid, index, known) && index < n
    requires known ==> SlotsUsed(disk, ib, n)
    requires LoadOutcome(disk, mid, after, index, ib[DIRECT - 1 + r], r, ok, read)
    ensures ok ==> ListedTo(disk, ib, r + 1, n, before, after, index + read, known)
    ensures !ok && known ==> ListOutcome(disk, ib, n, false, [], |after| > n)
  {
    hide OpensUpTo, ListUpTo, WrittenUpTo, Put, SlotsUsed, Written, Loadable;
    if known {
      var listed := ListUpTo(disk, ib, r, n);
      SlotUsed(disk, ib, r, n);
      StageList(disk, ib, r, n);
      PutTwice(before, 0, listed, Written(disk, ib[DIRECT - 1 + r], r));
      if !ok {
        StoppedAt(disk, ib, r + 1, n);
      }
    }
  }

  lemma ListDone(disk: seq<Block>, ib: BlockMap, n: nat, before: seq<Word>, words: seq<Word>, index: nat)
    requires ListedTo(disk, ib, 4, n, before, words, index, true) && n > 0
    ensures ListOutcome(disk, ib, n, index == n, if index == n then words else [], |words| > n)
  {
    hide OpensUpTo, ListUpTo, WrittenUpTo;
    StoredIsList(disk, ib, 4, n);
    if index == n {
      PutWhole(before, ListUpTo(disk, ib, 4, n));
    }
  }

  /** ext2_load_block_list for a file of `n` blocks. `overrun` records a store past the end of the buffer, which the
      source does not notice. */
  method LoadBlockList(p: Partition, ib: BlockMap, n: nat) returns (list: WordBuffer?, ghost overrun: bool)
    requires p.Value().Shape()
    ensures list != null ==> fresh(list) && list.size == n > 0 && |list.words| >= n
    ensures SlotsUsed(p.disk, ib, n) ==>
      ListOutcome(p.disk, ib, n, list != null, if list == null then [] else list.words, overrun)
  {
    hide ListUpTo, OpensUpTo, WrittenUpTo, SlotsUsed, ListedTo, LoadOutcome, ListOutcome, Put;
    overrun := false;
    if n == 0 {
      EmptyList(p.disk, ib);
      return null, overrun;
    }
    var buffer := new WordBuffer(n);
    ghost var before, known := buffer.words, SlotsUsed(p.disk, ib, n);
    var index := LoadDirect(p, buffer, ib, n);
    DirectListed(p.disk, ib, n, before, buffer.words, index, known);
    if index < n {
      ghost var mid, at := buffer.words, index;
      StillRoom(p.disk, ib, 1, n, before, mid, at, known);
      var ok, read := LoadIndirect(p, buffer, index, ib[12]);
      StageLoaded(p.disk, ib, 1, n, before, mid, buffer.words, at, known, ok, read);
      overrun := |buffer.words| > n;
      if !ok {
        return null, overrun;
      }
      index := index + read;
    } else {
      StageSkipped(p.disk, ib, 1, n, before, buffer.words, index, known);
    }
    if index < n {
      ghost var mid, at := buffer.words, index;
      StillRoom(p.disk, ib, 2, n, before, mid, at, known);
      var ok, read := LoadDouble(p, buffer, index, ib[13]);
      StageLoaded(p.disk, ib, 2, n, before, mid, buffer.words, at, known, ok, read);
      overrun := |buffer.words| > n;
      if !ok {
        return null, overrun;
      }
      index := index + read;
    } else {
      StageSkipped(p.disk, ib, 2, n, before, buffer.words, index, known);
    }
    if index < n {
      ghost var mid, at := buffer.words, index;
      StillRoom(p.disk, ib, 3, n, before, mid, at, known);
      var ok, read := LoadTriple(p, buffer, index, ib[14]);
      StageLoaded(p.disk, ib, 3, n, before, mid, buffer.words, at, known, ok, read);
      overrun := |buffer.words| > n;
      if !ok {
        return null, overrun;
      }
      index := index + read;
    } else {
      StageSkipped(p.disk, ib, 3, n, before, buffer.words, index, known);
    }
    StillRoom(p.disk, ib, 4, n, before, buffer.words, index, known);
    overrun := |buffer.words| > n;
    if known {
      ListDone(p.disk, ib, n, before, buffer.words, index);
    }
    if index != n {
      return null, overrun;
    }
    list := buffer;
  }

  lemma StillRoom(disk: seq<Block>, ib: BlockMap, r: nat, n: nat, before: seq<Word>, words: seq<Word>, index: nat, known: bool)
    requires 1 <= r <= 4 && ListedTo(disk, ib, r, n, before, words, index, known)
    ensures index <= |words| && n <= |words|
  {
    hide OpensUpTo, ListUpTo;
  }

  lemma EmptyList(disk: seq<Block>, ib: BlockMap)
    ensures ListOutcome(disk, ib, 0, false, [], false)
  {
  }

  lemma DirectListed(disk: seq<Block>, ib: BlockMap, n: nat, before: seq<Word>, words: seq<Word>, index: nat, known: bool)
    requires |before| == n && index == |ListUpTo(disk, ib, 1, n)| && words == Put(before, 0, ListUpTo(disk, ib, 1, n))
    ensures ListedTo(disk, ib, 1, n, before, words, index, known)
  {
  }

  /** The direct part of ext2_load_block_list. */
  method LoadDirect(p: Partition, list: WordBuffer, ib: BlockMap, n: nat) returns (index: nat)
    requires |list.words| == n
    modifies list
    ensures index == |ListUpTo(p.disk, ib, 1, n)| && list.words == Put(old(list.words), 0, ListUpTo(p.disk, ib, 1, n))
  {
    hide Put;
    index := 0;
    var i := 0;
    ghost var es, before := ib[..DIRECT], list.words;
    PutNothing(before, 0);
    while i < 12
      invariant i <= 12
      invariant index == |DirectList(es[..i], n)| && list.words == Put(before, 0, DirectList(es[..i], n))
    {
      if index >= n {
        break;
      }
      DirectListMore(es, n, i);
      if ib[i] > 0 {
        PutTwice(before, 0, DirectList(es[..i], n), [ib[i]]);
        list.Store(index, ib[i]);
        index := index + 1;
      }
      i := i + 1;
    }
    if i < 12 {
      DirectListFull(es, n, i);
    } else {
      assert es[..i] == es;
    }
  }
}
