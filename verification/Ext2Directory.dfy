/** ext2 directories: chains of variable-length entries that tile the directory. */
module Ext2Directory {
  import opened Bytes

  const HEADER: int := 8           // inode, rec_len, name_len, file_type
  const TYPE_DIRECTORY: Byte := 2
  const FIRST_SIZE: int := 1024    // the size ext2_initialize_directory lays out

  /** One entry; `rec` is the distance to the next one. */
  datatype Dirent = Dirent(inode: Word32, rec: Word16, ftype: Byte, name: seq<Byte>)

  /** What a listing shows of an entry. */
  datatype Listed = Listed(inode: Word32, ftype: Byte, name: seq<Byte>)

  /** Bytes an entry needs, a multiple of 4. */
  function Need(nameLen: nat): (n: nat)
    ensures n >= HEADER + nameLen && n % 4 == 0 && n < HEADER + nameLen + 4
  {
    (HEADER + nameLen + 3) / 4 * 4
  }

  function Span(es: seq<Dirent>): nat {
    if es == [] then 0 else es[0].rec + Span(es[1..])
  }

  /** The bytes at `at` hold the entry. */
  ghost predicate Holds(s: seq<Byte>, at: nat, e: Dirent) {
    && |e.name| < 256 && HEADER + |e.name| <= e.rec && at + e.rec <= |s|
    && Load32(s, at) == e.inode && Load16(s, at + 4) == e.rec && s[at + 6] == |e.name| && s[at + 7] == e.ftype
    && s[at + HEADER..at + HEADER + |e.name|] == e.name
  }

  /** The entries stand one behind the other from `at` on. */
  ghost predicate Laid(s: seq<Byte>, at: nat, es: seq<Dirent>)
    decreases |es|
  {
    es == [] || (Holds(s, at, es[0]) && Laid(s, at + es[0].rec, es[1..]))
  }

  /** The entries tile the whole directory. */
  ghost predicate Tiles(s: seq<Byte>, es: seq<Dirent>) {
    Laid(s, 0, es) && Span(es) == |s|
  }

  /** An entry in use has a name. */
  ghost predicate Named(es: seq<Dirent>) {
    forall i :: 0 <= i < |es| && es[i].inode != 0 ==> |es[i].name| > 0
  }

  /** The live entries in order. */
  function Listing(es: seq<Dirent>): seq<Listed> {
    if es == [] then []
    else (if es[0].inode != 0 then [Listed(es[0].inode, es[0].ftype, es[0].name)] else []) + Listing(es[1..])
  }

  // ----- chains as values

  /** ext2_create_directory_entry: the last entry keeps what it needs, the new one takes the rest. */
  function Created(es: seq<Dirent>, inode: Word32, ftype: Byte, name: seq<Byte>): seq<Dirent>
    requires |es| > 0 && HasRoom(es, |name|)
  {
    var last := es[|es| - 1];
    var used := Need(|last.name|);
    es[..|es| - 1] + [last.(rec := used), Dirent(inode, last.rec - used, ftype, name)]
  }

  predicate HasRoom(es: seq<Dirent>, nameLen: nat)
    requires |es| > 0
  {
    Need(|es[|es| - 1].name|) + Need(nameLen) <= es[|es| - 1].rec
  }

  /** With the sizes of both entries rounded up to 4: there is room exactly if both fit into what the last entry holds,
      to the byte. */
  lemma RoomExactly(es: seq<Dirent>, inode: Word32, ftype: Byte, name: seq<Byte>, old_: nat, new_: nat)
    requires |es| > 0 && old_ % 4 == 0 && new_ % 4 == 0
    requires 8 + |es[|es| - 1].name| <= old_ < 12 + |es[|es| - 1].name| && 8 + |name| <= new_ < 12 + |name|
    ensures HasRoom(es, |name|) <==> old_ + new_ <= es[|es| - 1].rec
    ensures old_ + new_ <= es[|es| - 1].rec ==>
      Created(es, inode, ftype, name) ==
        es[..|es| - 1] + [es[|es| - 1].(rec := old_), Dirent(inode, es[|es| - 1].rec - old_, ftype, name)]
  {
    hide Need;
    NeedIs(|es[|es| - 1].name|, old_);
    NeedIs(|name|, new_);
  }

  lemma NeedIs(nameLen: nat, n: nat)
    requires n % 4 == 0 && HEADER + nameLen <= n < HEADER + nameLen + 4
    ensures Need(nameLen) == n
  {
    hide Need;
    var m := Need(nameLen);
    assert n == 4 * (n / 4) && m == 4 * (m / 4);
  }

  /** The bytes of an entry: inode, rec_len, name_len and type in the first eight, the name behind them. */
  lemma EntryBytes(s: seq<Byte>, at: nat, e: Dirent, j: nat)
    requires Holds(s, at, e)
    ensures j < 4 ==> s[at + j] == BytePart(e.inode, j)
    ensures j < 2 ==> s[at + 4 + j] == BytePart(e.rec, j)
    ensures s[at + 6] == |e.name| && s[at + 7] == e.ftype
    ensures j < |e.name| ==> at + 8 + j < |s| && s[at + 8 + j] == e.name[j]
  {
    if j < 4 {
      Load32Bytes(s, at, j);
    }
    if j < 2 {
      Load16Bytes(s, at + 4, j);
    }
    assert j < |e.name| ==> s[at + HEADER..at + HEADER + |e.name|][j] == s[at + 8 + j];
  }

  /** An entry starts where the lengths of those before it end. */
  lemma {:induction false} EntryPlace(s: seq<Byte>, at: nat, es: seq<Dirent>, i: nat)
    requires Laid(s, at, es) && i < |es|
    ensures Holds(s, at + Span(es[..i]), es[i])
    ensures i + 1 < |es| ==> Span(es[..i + 1]) == Span(es[..i]) + es[i].rec
    decreases |es|
  {
    hide Holds;
    if i == 0 {
      assert es[..0] == [];
      assert es[..1][1..] == [];
    } else {
      EntryPlace(s, at + es[0].rec, es[1..], i - 1);
      assert es[..i][1..] == es[1..][..i - 1] && es[..i + 1][1..] == es[1..][..i];
    }
  }

  /** ext2_delete_dentry on an entry that is not the first: the one before takes its place. */
  function Deleted(es: seq<Dirent>, i: nat): seq<Dirent>
    requires 1 <= i < |es| && es[i - 1].rec + es[i].rec < 0x1_0000
  {
    es[..i - 1] + [es[i - 1].(rec := es[i - 1].rec + es[i].rec)] + es[i + 1..]
  }

  lemma {:induction false} SpanCat(a: seq<Dirent>, b: seq<Dirent>)
    ensures Span(a + b) == Span(a) + Span(b)
  {
    if a == [] {
      assert a + b == b;
    } else {
      assert (a + b)[1..] == a[1..] + b;
      SpanCat(a[1..], b);
    }
  }

  lemma {:induction false} ListingCat(a: seq<Dirent>, b: seq<Dirent>)
    ensures Listing(a + b) == Listing(a) + Listing(b)
  {
    if a == [] {
      assert a + b == b;
    } else {
      assert (a + b)[1..] == a[1..] + b;
      ListingCat(a[1..], b);
    }
  }

  lemma {:induction false} LaidCat(s: seq<Byte>, at: nat, a: seq<Dirent>, b: seq<Dirent>)
    ensures Laid(s, at, a + b) <==> Laid(s, at, a) && Laid(s, at + Span(a), b)
    decreases |a|
  {
    hide Holds;
    if a == [] {
      assert a + b == b;
    } else {
      assert (a + b)[1..] == a[1..] + b;
      LaidCat(s, at + a[0].rec, a[1..], b);
    }
  }

  lemma HoldsKept(s: seq<Byte>, s': seq<Byte>, at: nat, e: Dirent)
    requires Holds(s, at, e) && |s'| == |s| && forall i :: at <= i < at + e.rec ==> s'[i] == s[i]
    ensures Holds(s', at, e)
  {
    assert s'[at + HEADER..at + HEADER + |e.name|] == s[at + HEADER..at + HEADER + |e.name|];
  }

  /** A stretch of the chain depends on its own bytes only. */
  lemma {:induction false} LaidKept(s: seq<Byte>, s': seq<Byte>, at: nat, es: seq<Dirent>)
    requires Laid(s, at, es) && |s'| == |s| && forall i :: at <= i < at + Span(es) && i < |s| ==> s'[i] == s[i]
    ensures Laid(s', at, es)
    decreases |es|
  {
    if es != [] {
      HoldsKept(s, s', at, es[0]);
      LaidKept(s, s', at + es[0].rec, es[1..]);
    }
  }

  lemma ListingOne(e: Dirent)
    ensures Listing([e]) == if e.inode != 0 then [Listed(e.inode, e.ftype, e.name)] else []
  {
    assert [e][1..] == [] && Listing([]) == [];
  }

  lemma SpanOne(e: Dirent)
    ensures Span([e]) == e.rec
  {
    assert [e][1..] == [] && Span([]) == 0;
  }

  lemma LaidOne(s: seq<Byte>, at: nat, e: Dirent)
    ensures Laid(s, at, [e]) <==> Holds(s, at, e)
  {
    assert [e][1..] == [];
  }

  /** After creating an entry the listing is the old one with the new entry last, and the span is the same. */
  lemma {:induction false} CreatedListing(es: seq<Dirent>, inode: Word32, ftype: Byte, name: seq<Byte>)
    requires |es| > 0 && HasRoom(es, |name|) && inode != 0
    ensures Listing(Created(es, inode, ftype, name)) == Listing(es) + [Listed(inode, ftype, name)]
    ensures Span(Created(es, inode, ftype, name)) == Span(es)
  {
    var n := |es| - 1;
    var last := es[n];
    var shorter, child := last.(rec := Need(|last.name|)), Dirent(inode, last.rec - Need(|last.name|), ftype, name);
    hide Listing, Span;
    assert es == es[..n] + [last];
    assert Created(es, inode, ftype, name) == es[..n] + ([shorter] + [child]);
    ListingCat(es[..n], [last]);
    ListingCat(es[..n], [shorter] + [child]);
    ListingCat([shorter], [child]);
    ListingOne(last);
    ListingOne(shorter);
    ListingOne(child);
    SpanCat(es[..n], [last]);
    SpanCat(es[..n], [shorter] + [child]);
    SpanCat([shorter], [child]);
    SpanOne(last);
    SpanOne(shorter);
    SpanOne(child);
  }

  /** Deleting an entry that is not the first removes exactly it from the listing, and the span is the same. */
  lemma {:induction false} DeletedListing(es: seq<Dirent>, i: nat)
    requires 1 <= i < |es| && es[i - 1].rec + es[i].rec < 0x1_0000
    ensures Listing(Deleted(es, i)) == Listing(es[..i]) + Listing(es[i + 1..])
    ensures Listing(es) == Listing(es[..i]) + Listing([es[i]]) + Listing(es[i + 1..])
    ensures Span(Deleted(es, i)) == Span(es)
  {
    var a, b := es[i - 1], es[i];
    var ab := a.(rec := a.rec + b.rec);
    hide Listing, Span;
    assert es[..i] == es[..i - 1] + [a];
    assert es == es[..i - 1] + ([a] + [b]) + es[i + 1..];
    assert es == es[..i] + [b] + es[i + 1..];
    ListingCat(es[..i - 1], [a]);
    ListingCat(es[..i - 1] + [ab], es[i + 1..]);
    ListingCat(es[..i - 1], [ab]);
    ListingCat(es[..i] + [b], es[i + 1..]);
    ListingCat(es[..i], [b]);
    ListingOne(a);
    ListingOne(ab);
    SpanCat(es[..i - 1] + [ab], es[i + 1..]);
    SpanCat(es[..i - 1], [ab]);
    SpanCat(es[..i - 1] + ([a] + [b]), es[i + 1..]);
    SpanCat(es[..i - 1], [a] + [b]);
    SpanCat([a], [b]);
    SpanOne(a);
    SpanOne(b);
    SpanOne(ab);
  }

  /** First entry with the inode, |es| when there is none. */
  function FirstWith(es: seq<Dirent>, inode: Word32): (i: nat)
    ensures i <= |es| && (i < |es| ==> es[i].inode == inode)
    ensures forall k :: 0 <= k < i ==> es[k].inode != inode
  {
    if es == [] || es[0].inode == inode then 0 else 1 + FirstWith(es[1..], inode)
  }

  /** Creating an entry with an inode not yet listed and deleting that inode again gives the chain back. */
  lemma CreateThenDelete(es: seq<Dirent>, inode: Word32, ftype: Byte, name: seq<Byte>)
    requires |es| > 0 && HasRoom(es, |name|) && FirstWith(es, inode) == |es|
    ensures var es' := Created(es, inode, ftype, name);
      && FirstWith(es', inode) == |es| && es'[|es| - 1].rec + es'[|es|].rec < 0x1_0000
      && Deleted(es', |es|) == es
  {
    var es' := Created(es, inode, ftype, name);
    assert forall k :: 0 <= k < |es| ==> es'[k].inode == es[k].inode;
    assert es'[|es|].inode == inode;
    assert forall k :: 0 <= k < |es| ==> es[k].inode != inode;
  }

  // ----- the operations on the directory's bytes

  /** The size of the chain's stretch stays inside the buffer. */
  lemma {:induction false} LaidInside(s: seq<Byte>, at: nat, es: seq<Dirent>)
    requires Laid(s, at, es) && at <= |s|
    ensures at + Span(es) <= |s|
    decreases |es|
  {
    if es != [] {
      LaidInside(s, at + es[0].rec, es[1..]);
    }
  }

  /** The entry at index `i` of a tiled directory. */
  lemma EntryAt(s: seq<Byte>, es: seq<Dirent>, i: nat)
    requires Tiles(s, es) && i < |es|
    ensures Holds(s, Span(es[..i]), es[i])
    ensures Span(es[..i + 1]) == Span(es[..i]) + es[i].rec <= |s|
    ensures i + 1 == |es| <==> Span(es[..i + 1]) == |s|
  {
    hide Laid, Span, Holds;
    assert es == es[..i] + es[i..];
    LaidCat(s, 0, es[..i], es[i..]);
    assert es[i..] == [es[i]] + es[i + 1..];
    LaidCat(s, Span(es[..i]), [es[i]], es[i + 1..]);
    LaidOne(s, Span(es[..i]), es[i]);
    assert es[..i + 1] == es[..i] + [es[i]];
    SpanCat(es[..i], [es[i]]);
    SpanOne(es[i]);
    assert es == es[..i + 1] + es[i + 1..];
    SpanCat(es[..i + 1], es[i + 1..]);
    SpanPositive(s, Span(es[..i + 1]), es[i + 1..]);
    SpanEmpty();
  }

  lemma SpanEmpty()
    ensures Span([]) == 0
  {
  }

  lemma SpanPositive(s: seq<Byte>, at: nat, es: seq<Dirent>)
    requires Laid(s, at, es)
    ensures es != [] ==> Span(es) > 0
  {
  }

  /** The header fields of an entry. */
  method ReadHeader(buf: array<Byte>, at: nat, ghost es: seq<Dirent>, ghost i: nat)
    returns (inode: Word32, rec: Word16, nameLen: nat, ftype: Byte)
    requires Tiles(buf[..], es) && i < |es| && at == Span(es[..i])
    ensures inode == es[i].inode && rec == es[i].rec && nameLen == |es[i].name| && ftype == es[i].ftype
    ensures Span(es[..i + 1]) == at + rec <= buf.Length && rec >= HEADER + nameLen && nameLen < 256
    ensures i + 1 == |es| <==> at + rec == buf.Length
  {
    EntryAt(buf[..], es, i);
    hide Tiles, Span, Laid;
    inode := Load32(buf[..], at);
    rec := Load16(buf[..], at + 4);
    nameLen := buf[at + 6];
    ftype := buf[at + 7];
  }

  lemma ListingNext(es: seq<Dirent>, i: nat)
    requires i < |es|
    ensures Listing(es[..i + 1]) == Listing(es[..i]) +
      if es[i].inode != 0 then [Listed(es[i].inode, es[i].ftype, es[i].name)] else []
  {
    hide Listing;
    assert es[..i + 1] == es[..i] + [es[i]];
    ListingCat(es[..i], [es[i]]);
    ListingOne(es[i]);
  }

  lemma NotAtEnd(s: seq<Byte>, es: seq<Dirent>, i: nat)
    requires Tiles(s, es) && i <= |es|
    ensures Span(es[..i]) < |s| <==> i < |es|
    ensures Span(es[..i]) <= |s|
  {
    hide Tiles, Span;
    if i < |es| {
      EntryAt(s, es, i);
      RecPositive(s, es, i);
    } else {
      assert es[..i] == es;
      WholeSpan(s, es);
    }
  }

  lemma RecPositive(s: seq<Byte>, es: seq<Dirent>, i: nat)
    requires Tiles(s, es) && i < |es|
    ensures es[i].rec >= HEADER + |es[i].name|
  {
    EntryAt(s, es, i);
  }

  lemma WholeSpan(s: seq<Byte>, es: seq<Dirent>)
    requires Tiles(s, es)
    ensures Span(es) == |s|
  {
  }

  lemma NothingListed()
    ensures Listing([]) == [] && Span([]) == 0
  {
  }

  /** The first pass of ext2_get_all_dirs. */
  method CountLive(buf: array<Byte>, ghost es: seq<Dirent>) returns (count: nat)
    requires Tiles(buf[..], es)
    ensures count == |Listing(es)|
  {
    hide Tiles, Span, Listing;
    var parsed := 0;
    count := 0;
    ghost var i := 0;
    assert es[..0] == [];
    NothingListed();
    NotAtEnd(buf[..], es, 0);
    while parsed < buf.Length
      invariant 0 <= i <= |es| && parsed == Span(es[..i]) && count == |Listing(es[..i])|
      invariant parsed < buf.Length <==> i < |es|
      decreases |es| - i
    {
      var inode, rec, nameLen, ftype := ReadHeader(buf, parsed, es, i);
      ListingNext(es, i);
      if inode != 0 {
        count := count + 1;
      }
      parsed := parsed + rec;
      i := i + 1;
      NotAtEnd(buf[..], es, i);
    }
    assert es[..i] == es;
  }

  /** ext2_get_all_dirs: the live entries in directory order. */
  method GetAllDirs(buf: array<Byte>, ghost es: seq<Dirent>) returns (entries: array<Listed>)
    requires Tiles(buf[..], es)
    ensures fresh(entries) && entries[..] == Listing(es)
  {
    hide Tiles, Span, Listing;
    var count := CountLive(buf, es);
    entries := new Listed[count](_ => Listed(0, 0, []));
    var parsed, n := 0, 0;
    ghost var i := 0;
    assert es[..0] == [];
    NothingListed();
    NotAtEnd(buf[..], es, 0);
    while parsed < buf.Length
      invariant 0 <= i <= |es| && parsed == Span(es[..i]) && 0 <= n == |Listing(es[..i])| <= count
      invariant parsed < buf.Length <==> i < |es|
      invariant entries[..n] == Listing(es[..i])
      decreases |es| - i
    {
      var inode, rec, nameLen, ftype := ReadHeader(buf, parsed, es, i);
      ListingNext(es, i);
      ListingShorter(es, i + 1);
      NameBytes(buf[..], es, i);
      if inode != 0 {
        ghost var before := entries[..n];
        entries[n] := Listed(inode, ftype, buf[parsed + HEADER..parsed + HEADER + nameLen]);
        n := n + 1;
        assert entries[..n] == before + [Listed(es[i].inode, es[i].ftype, es[i].name)];
      }
      parsed := parsed + rec;
      i := i + 1;
      NotAtEnd(buf[..], es, i);
    }
    assert es[..i] == es;
  }

  lemma ListingShorter(es: seq<Dirent>, i: nat)
    requires i <= |es|
    ensures |Listing(es[..i])| <= |Listing(es)|
  {
    assert es == es[..i] + es[i..];
    ListingCat(es[..i], es[i..]);
  }

  lemma NameBytes(s: seq<Byte>, es: seq<Dirent>, i: nat)
    requires Tiles(s, es) && i < |es|
    ensures var at := Span(es[..i]);
      at + HEADER + |es[i].name| <= |s| && s[at + HEADER..at + HEADER + |es[i].name|] == es[i].name
  {
    EntryAt(s, es, i);
  }

  /** Writes a whole new entry. */
  method PutEntry(buf: array<Byte>, at: nat, e: Dirent)
    requires |e.name| < 256 && HEADER + |e.name| <= e.rec && at + e.rec <= buf.Length
    modifies buf
    ensures Holds(buf[..], at, e)
    ensures forall i :: 0 <= i < buf.Length && (i < at || at + HEADER + |e.name| <= i) ==> buf[i] == old(buf[i])
  {
    buf[at], buf[at + 1] := e.inode % 0x100, e.inode / 0x100 % 0x100;
    buf[at + 2], buf[at + 3] := e.inode / 0x1_0000 % 0x100, e.inode / 0x100_0000;
    buf[at + 4], buf[at + 5] := e.rec % 0x100, e.rec / 0x100;
    buf[at + 6], buf[at + 7] := |e.name|, e.ftype;
    forall k | 0 <= k < |e.name| {
      buf[at + HEADER + k] := e.name[k];
    }
    HeaderWords(buf[..], at, e);
    assert buf[..][at + HEADER..at + HEADER + |e.name|] == e.name;
  }

  lemma HeaderWords(s: seq<Byte>, at: nat, e: Dirent)
    requires at + HEADER <= |s|
    requires s[at] == e.inode % 0x100 && s[at + 1] == e.inode / 0x100 % 0x100
    requires s[at + 2] == e.inode / 0x1_0000 % 0x100 && s[at + 3] == e.inode / 0x100_0000
    requires s[at + 4] == e.rec % 0x100 && s[at + 5] == e.rec / 0x100
    ensures Load32(s, at) == e.inode && Load16(s, at + 4) == e.rec
  {
    Load32Back(s, at, e.inode);
    Load16Back(s, at + 4, e.rec);
    assert Stored32(s, at, e.inode) == s && Stored16(s, at + 4, e.rec) == s;
  }

  /** Writes the rec_len field of an entry; everything else about it stays. */
  method PutRec(buf: array<Byte>, at: nat, rec: Word16, ghost e: Dirent)
    requires Holds(buf[..], at, e) && HEADER + |e.name| <= rec && at + rec <= buf.Length
    modifies buf
    ensures Holds(buf[..], at, e.(rec := rec))
    ensures forall i :: 0 <= i < buf.Length && (i < at + 4 || at + 6 <= i) ==> buf[i] == old(buf[i])
  {
    ghost var s := buf[..];
    buf[at + 4], buf[at + 5] := rec % 0x100, rec / 0x100;
    assert buf[..] == Stored16(s, at + 4, rec);
    Load16Back(s, at + 4, rec);
    assert buf[..][at + HEADER..at + HEADER + |e.name|] == s[at + HEADER..at + HEADER + |e.name|];
  }

  /** ext2_create_directory_entry on the directory's bytes: 1 when there is no entry to split or no room in the last one. */
  method CreateEntry(buf: array<Byte>, inode: Word32, ftype: Byte, name: seq<Byte>, ghost es: seq<Dirent>) returns (rc: nat)
    requires Tiles(buf[..], es) && |name| < 256
    modifies buf
    ensures rc == 1 || rc == 0
    ensures rc == 1 <==> es == [] || !HasRoom(es, |name|)
    ensures rc == 1 ==> buf[..] == old(buf[..])
    ensures rc == 0 ==> Tiles(buf[..], Created(es, inode, ftype, name))
  {
    hide Tiles, Span, Need, Holds, Created;
    var childRec := Need(|name|);
    var parsed := 0;
    var found, entry, entryRec, entryName := false, 0, 0, 0;
    ghost var i := 0;
    assert es[..0] == [];
    NothingListed();
    NotAtEnd(buf[..], es, 0);
    while parsed < buf.Length
      invariant 0 <= i <= |es| && parsed == Span(es[..i]) && (found <==> i > 0)
      invariant parsed < buf.Length <==> i < |es|
      invariant buf[..] == old(buf[..])
      invariant i > 0 ==> 0 <= entry == Span(es[..i - 1]) && entryRec == es[i - 1].rec && entryName == |es[i - 1].name|
      decreases |es| - i
    {
      var ino, rec, nameLen, ft := ReadHeader(buf, parsed, es, i);
      found, entry, entryRec, entryName := true, parsed, rec, nameLen;
      parsed := parsed + rec;
      i := i + 1;
      NotAtEnd(buf[..], es, i);
    }
    if !found {
      return 1;
    }
    var used := Need(entryName);
    if used + childRec > entryRec {
      return 1;
    }
    ghost var s, n := buf[..], |es| - 1;
    ghost var last := es[n];
    EntryAt(s, es, n);
    EntryFits(s, entry, last);
    PutRec(buf, entry, used, last);
    ghost var s1 := buf[..];
    ghost var child := Dirent(inode, entryRec - used, ftype, name);
    PutEntry(buf, entry + used, Dirent(inode, entryRec - used, ftype, name));
    assert forall k :: 0 <= k < entry ==> s1[k] == s[k];
    assert forall k :: 0 <= k < entry + used ==> buf[..][k] == s1[k];
    CreatedTiles(s, s1, buf[..], es, inode, ftype, name);
    rc := 0;
  }

  lemma EntryFits(s: seq<Byte>, at: nat, e: Dirent)
    requires Holds(s, at, e)
    ensures HEADER + |e.name| <= e.rec && at + e.rec <= |s| && |e.name| < 256
  {
  }

  lemma CreatedTiles(s: seq<Byte>, s1: seq<Byte>, s2: seq<Byte>, es: seq<Dirent>, inode: Word32, ftype: Byte, name: seq<Byte>)
    requires Tiles(s, es) && |es| > 0 && HasRoom(es, |name|) && |s1| == |s2| == |s|
    requires var last := es[|es| - 1];
      var p, used := Span(es[..|es| - 1]), Need(|last.name|);
      && p + used <= |s|
      && (forall k :: 0 <= k < p ==> s1[k] == s[k]) && (forall k :: 0 <= k < p + used ==> s2[k] == s1[k])
      && Holds(s1, p, last.(rec := used)) && Holds(s2, p + used, Dirent(inode, last.rec - used, ftype, name))
    ensures Tiles(s2, Created(es, inode, ftype, name))
  {
    hide Span, Need, Holds, Created, Laid, Tiles;
    var n := |es| - 1;
    var last := es[n];
    var p, used := Span(es[..n]), Need(|last.name|);
    var front, shorter, child := es[..n], last.(rec := used), Dirent(inode, last.rec - used, ftype, name);
    CreatedIs(es, inode, ftype, name);
    EntryAt(s, es, n);
    SpanCat(front, [shorter] + [child]);
    SpanCat([shorter], [child]);
    SpanOne(shorter);
    SpanOne(child);
    TilesFront(s, es, n);
    LaidKept(s, s2, 0, front);
    HoldsKept(s1, s2, p, shorter);
    LaidOne(s2, p, shorter);
    LaidOne(s2, p + used, child);
    LaidCat(s2, p, [shorter], [child]);
    LaidCat(s2, 0, front, [shorter] + [child]);
    MakeTiles(s2, front + ([shorter] + [child]));
  }

  lemma CreatedIs(es: seq<Dirent>, inode: Word32, ftype: Byte, name: seq<Byte>)
    requires |es| > 0 && HasRoom(es, |name|)
    ensures var last, used := es[|es| - 1], Need(|es[|es| - 1].name|);
      Created(es, inode, ftype, name) ==
        es[..|es| - 1] + ([last.(rec := used)] + [Dirent(inode, last.rec - used, ftype, name)])
  {
  }

  lemma TilesFront(s: seq<Byte>, es: seq<Dirent>, n: nat)
    requires Tiles(s, es) && n <= |es|
    ensures Laid(s, 0, es[..n]) && Laid(s, Span(es[..n]), es[n..])
    ensures Span(es) == Span(es[..n]) + Span(es[n..]) == |s|
  {
    hide Laid, Span;
    assert es == es[..n] + es[n..];
    LaidCat(s, 0, es[..n], es[n..]);
    SpanCat(es[..n], es[n..]);
  }

  lemma MakeTiles(s: seq<Byte>, es: seq<Dirent>)
    requires Laid(s, 0, es) && Span(es) == |s|
    ensures Tiles(s, es)
  {
  }

  /** Some list of entries tiles the directory. */
  ghost predicate Tileable(s: seq<Byte>) {
    exists es :: Tiles(s, es)
  }

  lemma TilesSomehow(s: seq<Byte>, es: seq<Dirent>)
    ensures Tiles(s, es) ==> Tileable(s)
  {
    hide Tiles;
  }

  lemma StuckUntileable(s: seq<Byte>)
    requires Stuck(s) && |s| > HEADER
    ensures !Tileable(s)
  {
    hide Tiles, Stuck;
    forall es: seq<Dirent>
      ensures !Tiles(s, es)
    {
      StuckTilesNothing(s, es);
    }
  }

  /** Two entries side by side fit the directory, so their lengths together do. */
  lemma LengthsFit(s: seq<Byte>, es: seq<Dirent>, i: nat)
    requires Tiles(s, es) && 1 <= i < |es|
    ensures es[i - 1].rec + es[i].rec <= |s|
  {
    hide Holds, Laid, Span;
    EntryAt(s, es, i - 1);
    EntryAt(s, es, i);
    EntryFits(s, Span(es[..i]), es[i]);
  }

  /** ext2_delete_dentry on the directory's bytes, for the first entry with inode `target`. */
  method DeleteEntry(buf: array<Byte>, target: Word32, ghost es: seq<Dirent>) returns (rc: nat)
    requires Tiles(buf[..], es) && Named(es) && target != 0
    modifies buf
    ensures rc == 1 || rc == 0
    ensures rc == 1 <==> FirstWith(es, target) == |es|
    ensures rc == 1 ==> buf[..] == old(buf[..])
    ensures var i := FirstWith(es, target);
      rc == 0 && i > 0 && es[i - 1].rec + es[i].rec < 0x1_0000 ==> Tiles(buf[..], Deleted(es, i))
    ensures rc == 0 && FirstWith(es, target) == 0 ==> Stuck(buf[..])
    ensures rc == 0 && buf.Length < 0x1_0000 ==> (Tileable(buf[..]) <==> FirstWith(es, target) > 0)
  {
    hide Tiles, Span, Holds, Deleted, Stuck, Tileable;
    var parsed := 0;
    var hasPrevious, previous, previousRec := false, 0, 0;
    ghost var i := 0;
    assert es[..0] == [];
    NothingListed();
    NotAtEnd(buf[..], es, 0);
    while parsed < buf.Length
      invariant 0 <= i <= |es| && parsed == Span(es[..i]) && (hasPrevious <==> i > 0)
      invariant parsed < buf.Length <==> i < |es|
      invariant forall k :: 0 <= k < i ==> es[k].inode != target
      invariant i > 0 ==> 0 <= previous == Span(es[..i - 1]) && previousRec == es[i - 1].rec
      invariant buf[..] == old(buf[..])
      decreases |es| - i
    {
      var ino, rec, nameLen, ft := ReadHeader(buf, parsed, es, i);
      if ino == target {
        FirstIs(es, target, i);
        ghost var s := buf[..];
        EntryAt(s, es, i);
        if hasPrevious {
          EntryAt(s, es, i - 1);
          LengthsFit(s, es, i);
          MergeAway(buf, previous, previousRec, parsed, rec, es, i);
          if es[i - 1].rec + es[i].rec < 0x1_0000 {
            TilesSomehow(buf[..], Deleted(es, i));
          }
        } else {
          ClearEntry(buf, parsed);
          FirstGone(buf[..]);
          EntryFits(s, parsed, es[i]);
          StuckUntileable(buf[..]);
        }
        return 0;
      }
      hasPrevious, previous, previousRec := true, parsed, rec;
      parsed := parsed + rec;
      i := i + 1;
      NotAtEnd(buf[..], es, i);
    }
    FirstNone(es, target);
    rc := 1;
  }

  lemma {:induction false} FirstIs(es: seq<Dirent>, inode: Word32, i: nat)
    requires i < |es| && es[i].inode == inode && forall k :: 0 <= k < i ==> es[k].inode != inode
    ensures FirstWith(es, inode) == i
  {
  }

  lemma {:induction false} FirstNone(es: seq<Dirent>, inode: Word32)
    requires forall k :: 0 <= k < |es| ==> es[k].inode != inode
    ensures FirstWith(es, inode) == |es|
  {
  }

  /** The fields ext2_delete_dentry clears, rec_len included. */
  method ClearEntry(buf: array<Byte>, at: nat)
    requires at + HEADER < buf.Length
    modifies buf
    ensures forall i :: 0 <= i < buf.Length ==> buf[i] == if at <= i <= at + HEADER then 0 else old(buf[i])
  {
    buf[at], buf[at + 1], buf[at + 2], buf[at + 3] := 0, 0, 0, 0;
    buf[at + 6] := 0;
    buf[at + 7] := 0;
    buf[at + HEADER] := 0;
    buf[at + 4], buf[at + 5] := 0, 0;
  }

  /** The deleting step: the entry before takes over the space. */
  method MergeAway(buf: array<Byte>, previous: nat, previousRec: Word16, at: nat, rec: Word16, ghost es: seq<Dirent>, ghost i: nat)
    requires Tiles(buf[..], es) && 1 <= i < |es| && |es[i].name| > 0
    requires previous == Span(es[..i - 1]) && previousRec == es[i - 1].rec && at == Span(es[..i]) && rec == es[i].rec
    modifies buf
    ensures es[i - 1].rec + es[i].rec < 0x1_0000 ==> Tiles(buf[..], Deleted(es, i))
  {
    hide Tiles, Span, Holds, Deleted;
    ghost var s := buf[..];
    EntryAt(s, es, i - 1);
    EntryAt(s, es, i);
    EntryFits(s, previous, es[i - 1]);
    EntryFits(s, at, es[i]);
    ClearEntry(buf, at);
    ghost var s1 := buf[..];
    HoldsKept(s, s1, previous, es[i - 1]);
    var sum: Word16 := (previousRec + rec) % 0x1_0000;
    if previousRec + rec < 0x1_0000 {
      PutRec(buf, previous, sum, es[i - 1]);
      assert forall k :: 0 <= k < previous || at + rec <= k < |s| ==> buf[..][k] == s[k];
      DeletedTiles(s, buf[..], es, i);
    } else {
      buf[previous + 4], buf[previous + 5] := sum % 0x100, sum / 0x100;
    }
  }

  lemma DeletedTiles(s: seq<Byte>, s': seq<Byte>, es: seq<Dirent>, i: nat)
    requires Tiles(s, es) && 1 <= i < |es| && es[i - 1].rec + es[i].rec < 0x1_0000 && |s'| == |s|
    requires var p, q := Span(es[..i - 1]), Span(es[..i]) + es[i].rec;
      && p <= |s| && (forall k :: 0 <= k < p || q <= k < |s| ==> s'[k] == s[k])
      && Holds(s', p, es[i - 1].(rec := es[i - 1].rec + es[i].rec))
    ensures Tiles(s', Deleted(es, i))
  {
    hide Span, Holds, Deleted, Laid, Tiles, Listing;
    var ab := es[i - 1].(rec := es[i - 1].rec + es[i].rec);
    var front, back := es[..i - 1], es[i + 1..];
    DeletedIs(es, i);
    EntryAt(s, es, i - 1);
    EntryAt(s, es, i);
    DeletedListing(es, i);
    SpanOne(ab);
    TilesFront(s, es, i - 1);
    TilesFront(s, es, i + 1);
    LaidKept(s, s', 0, front);
    LaidKept(s, s', Span(es[..i + 1]), back);
    LaidOne(s', Span(front), ab);
    LaidCat(s', Span(front), [ab], back);
    LaidCat(s', 0, front, [ab] + back);
    MakeTiles(s', front + ([ab] + back));
  }

  lemma DeletedIs(es: seq<Dirent>, i: nat)
    requires 1 <= i < |es| && es[i - 1].rec + es[i].rec < 0x1_0000
    ensures Deleted(es, i) == es[..i - 1] + ([es[i - 1].(rec := es[i - 1].rec + es[i].rec)] + es[i + 1..])
  {
  }

  /** Position of a scan after `steps` entries, whatever the bytes say. */
  function ScanPosition(s: seq<Byte>, steps: nat): nat {
    if steps == 0 then 0 else
      var p := ScanPosition(s, steps - 1);
      if p + 6 <= |s| then p + Load16(s, p + 4) else p
  }

  /** A directory whose first entry was deleted: every scan stays at offset 0 for ever. */
  ghost predicate Stuck(s: seq<Byte>) {
    forall steps: nat :: ScanPosition(s, steps) == 0
  }

  lemma FirstGone(s: seq<Byte>)
    requires |s| > HEADER && forall i :: 0 <= i <= HEADER ==> s[i] == 0
    ensures Stuck(s)
  {
    forall steps: nat
      ensures ScanPosition(s, steps) == 0
    {
      StaysAtZero(s, steps);
    }
  }

  lemma {:induction false} StaysAtZero(s: seq<Byte>, steps: nat)
    requires |s| > HEADER && Load16(s, 4) == 0
    ensures ScanPosition(s, steps) == 0
  {
    if steps > 0 {
      StaysAtZero(s, steps - 1);
    }
  }

  /** A stuck directory tiles with no list of entries. */
  lemma StuckTilesNothing(s: seq<Byte>, es: seq<Dirent>)
    requires Stuck(s) && |s| > HEADER
    ensures !Tiles(s, es)
  {
    assert ScanPosition(s, 0) == 0;
    assert ScanPosition(s, 1) == ScanPosition(s, 0) + Load16(s, 4);
  }

  /** ext2_initialize_directory: "." and "..", laid out for 1024 bytes. */
  method InitializeDirectory(buf: array<Byte>, inode: Word32, parent: Word32)
    requires buf.Length >= FIRST_SIZE
    modifies buf
    ensures var es := DotEntries(inode, parent);
      && Laid(buf[..], 0, es) && Span(es) == FIRST_SIZE
      && (Tiles(buf[..], es) <==> buf.Length == FIRST_SIZE)
    ensures Listing(DotEntries(inode, parent)) ==
      (if inode != 0 then [Listed(inode, TYPE_DIRECTORY, DOT)] else [])
      + (if parent != 0 then [Listed(parent, TYPE_DIRECTORY, DOT + DOT)] else [])
  {
    hide Holds;
    ghost var es := DotEntries(inode, parent);
    var first := Dirent(inode, 12, TYPE_DIRECTORY, DOT);
    var second := Dirent(parent, FIRST_SIZE - 12, TYPE_DIRECTORY, DOT + DOT);
    PutEntry(buf, 0, first);
    ghost var s := buf[..];
    PutEntry(buf, 12, second);
    HoldsKept(s, buf[..], 0, first);
    hide Laid, Span, Listing;
    assert es == [first] + [second];
    LaidCat(buf[..], 0, [first], [second]);
    LaidOne(buf[..], 0, first);
    LaidOne(buf[..], 12, second);
    SpanCat([first], [second]);
    SpanOne(first);
    SpanOne(second);
    ListingCat([first], [second]);
    ListingOne(first);
    ListingOne(second);
  }

  const DOT: seq<Byte> := [46]

  ghost function DotEntries(inode: Word32, parent: Word32): seq<Dirent> {
    [Dirent(inode, 12, TYPE_DIRECTORY, DOT), Dirent(parent, FIRST_SIZE - 12, TYPE_DIRECTORY, DOT + DOT)]
  }
}
