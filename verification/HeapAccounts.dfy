/** Sizes, live payloads and coalescing of the segment list. */
module HeapAccounts {
  import opened HeapList

  // ----- sums

  function UsedPart(n: Node): int {
    if n.free then 0 else H + n.len
  }

  function FreePart(n: Node): int {
    if n.free then H + n.len else 0
  }

  function UsedSum(ns: seq<Node>): int {
    if ns == [] then 0 else UsedPart(ns[0]) + UsedSum(ns[1..])
  }

  function FreeSum(ns: seq<Node>): int {
    if ns == [] then 0 else FreePart(ns[0]) + FreeSum(ns[1..])
  }

  lemma {:induction false} SumsCat(a: seq<Node>, b: seq<Node>)
    ensures UsedSum(a + b) == UsedSum(a) + UsedSum(b) && FreeSum(a + b) == FreeSum(a) + FreeSum(b)
  {
    if a == [] {
      assert a + b == b;
    } else {
      assert (a + b)[1..] == a[1..] + b;
      SumsCat(a[1..], b);
    }
  }

  lemma SumsOne(n: Node)
    ensures UsedSum([n]) == UsedPart(n) && FreeSum([n]) == FreePart(n)
  {
    assert [n][1..] == [];
  }

  /** The sums split around a stretch of the list. */
  lemma SumsAround(a: seq<Node>, mid: seq<Node>, b: seq<Node>)
    ensures UsedSum(a + mid + b) == UsedSum(a) + UsedSum(mid) + UsedSum(b)
    ensures FreeSum(a + mid + b) == FreeSum(a) + FreeSum(mid) + FreeSum(b)
  {
    SumsCat(a + mid, b);
    SumsCat(a, mid);
  }

  lemma SumsTwo(a: Node, b: Node)
    ensures UsedSum([a] + [b]) == UsedPart(a) + UsedPart(b) && FreeSum([a] + [b]) == FreePart(a) + FreePart(b)
  {
    SumsCat([a], [b]);
    SumsOne(a);
    SumsOne(b);
  }

  /** Exchanging a stretch of the list changes the sums by the difference of the stretches. */
  lemma SumsReplaced(a: seq<Node>, mid: seq<Node>, mid': seq<Node>, b: seq<Node>)
    ensures UsedSum(a + mid' + b) - UsedSum(a + mid + b) == UsedSum(mid') - UsedSum(mid)
    ensures FreeSum(a + mid' + b) - FreeSum(a + mid + b) == FreeSum(mid') - FreeSum(mid)
  {
    hide *;
    SumsAround(a, mid, b);
    SumsAround(a, mid', b);
  }

  lemma Around<T>(s: seq<T>, i: nat, n: nat)
    requires i + n <= |s|
    ensures s == s[..i] + s[i..i + n] + s[i + n..]
  {
  }

  lemma SetFreeIs(ns: seq<Node>, i: nat, free: bool)
    requires i < |ns|
    ensures SetFree(ns, i, free) == ns[..i] + [ns[i].(free := free)] + ns[i + 1..]
    ensures ns[i..i + 1] == [ns[i]]
  {
  }

  lemma SumsAfterSetFree(ns: seq<Node>, i: nat, free: bool)
    requires i < |ns| && ns[i].free != free
    ensures var d := H + ns[i].len;
      && UsedSum(SetFree(ns, i, free)) == UsedSum(ns) + (if free then -d else d)
      && FreeSum(SetFree(ns, i, free)) == FreeSum(ns) + (if free then d else -d)
  {
    hide UsedSum, FreeSum, SetFree;
    var one := ns[i].(free := free);
    Around(ns, i, 1);
    SetFreeIs(ns, i, free);
    SumsReplaced(ns[..i], [ns[i]], [one], ns[i + 1..]);
    SumsOne(ns[i]);
    SumsOne(one);
  }

  lemma SplitIs(ns: seq<Node>, i: nat, size: int)
    requires i < |ns|
    ensures var up, down := Node(ns[i].addr + ns[i].len - size, size, true), ns[i].(len := ns[i].len - size - H);
      Split(ns, i, size) == ns[..i] + ([up] + [down]) + ns[i + 1..]
    ensures ns[i..i + 1] == [ns[i]]
  {
  }

  lemma SumsAfterSplit(ns: seq<Node>, i: nat, size: int)
    requires i < |ns| && ns[i].free
    ensures UsedSum(Split(ns, i, size)) == UsedSum(ns) && FreeSum(Split(ns, i, size)) == FreeSum(ns)
  {
    hide UsedSum, FreeSum, Split;
    var up, down := Node(ns[i].addr + ns[i].len - size, size, true), ns[i].(len := ns[i].len - size - H);
    Around(ns, i, 1);
    SplitIs(ns, i, size);
    SumsReplaced(ns[..i], [ns[i]], [up] + [down], ns[i + 1..]);
    SumsOne(ns[i]);
    SumsTwo(up, down);
  }

  lemma MergedIs(ns: seq<Node>, i: nat)
    requires i + 1 < |ns|
    ensures MergedNext(ns, i) == ns[..i] + [ns[i + 1].(len := ns[i + 1].len + ns[i].len + H)] + ns[i + 2..]
    ensures ns[i..i + 2] == [ns[i]] + [ns[i + 1]]
  {
  }

  lemma SumsAfterMerge(ns: seq<Node>, i: nat)
    requires i + 1 < |ns| && ns[i].free && ns[i + 1].free
    ensures UsedSum(MergedNext(ns, i)) == UsedSum(ns) && FreeSum(MergedNext(ns, i)) == FreeSum(ns)
  {
    hide UsedSum, FreeSum, MergedNext;
    var one := ns[i + 1].(len := ns[i + 1].len + ns[i].len + H);
    Around(ns, i, 2);
    MergedIs(ns, i);
    SumsReplaced(ns[..i], [ns[i]] + [ns[i + 1]], [one], ns[i + 2..]);
    SumsTwo(ns[i], ns[i + 1]);
    SumsOne(one);
  }

  lemma ExpandedIs(ns: seq<Node>, bytes: int)
    requires |ns| >= 2
    ensures var k := |ns| - 1;
      Expanded(ns, bytes) ==
        if ns[k].free then ns[..k] + [Node(ns[k].addr - bytes, ns[k].len + bytes - H, true)] + []
        else ns + [] + [Node(ns[k].addr - bytes, bytes - H, true)]
    ensures ns == ns[..|ns| - 1] + [ns[|ns| - 1]] + []
  {
  }

  /** The free last segment grows, and the 48 bytes of its header are lost. */
  lemma SumsAfterAbsorb(ns: seq<Node>, bytes: int)
    requires |ns| >= 2 && ns[|ns| - 1].free
    ensures UsedSum(Expanded(ns, bytes)) == UsedSum(ns) && FreeSum(Expanded(ns, bytes)) == FreeSum(ns) + bytes - H
  {
    hide UsedSum, FreeSum, Expanded;
    var k := |ns| - 1;
    var one := Node(ns[k].addr - bytes, ns[k].len + bytes - H, true);
    ExpandedIs(ns, bytes);
    SumsReplaced(ns[..k], [ns[k]], [one], []);
    SumsOne(ns[k]);
    SumsOne(one);
  }

  lemma SumsAfterAppend(ns: seq<Node>, bytes: int)
    requires |ns| >= 2 && !ns[|ns| - 1].free
    ensures UsedSum(Expanded(ns, bytes)) == UsedSum(ns) && FreeSum(Expanded(ns, bytes)) == FreeSum(ns) + bytes
  {
    hide UsedSum, FreeSum, Expanded;
    var one := Node(ns[|ns| - 1].addr - bytes, bytes - H, true);
    ExpandedIs(ns, bytes);
    assert ns + [] == ns;
    SumsCat(ns, [one]);
    SumsOne(one);
  }

  lemma SumsAfterExpand(ns: seq<Node>, bytes: int)
    requires |ns| >= 2
    ensures UsedSum(Expanded(ns, bytes)) == UsedSum(ns)
    ensures FreeSum(Expanded(ns, bytes)) == FreeSum(ns) + bytes - (if ns[|ns| - 1].free then H else 0)
  {
    hide *;
    if ns[|ns| - 1].free {
      SumsAfterAbsorb(ns, bytes);
    } else {
      SumsAfterAppend(ns, bytes);
    }
  }

  /** The exact books of a heap after `e` expansions of which `a` absorbed the last segment. */
  ghost predicate Books(ns: seq<Node>, used: int, free: int, total: int, e: int, a: int)
    requires |ns| >= 1
  {
    && total == used + free
    && used == UsedSum(ns) - H
    && free == FreeSum(ns) + H * (1 + e + a)
    && UsedSum(ns) + FreeSum(ns) + H * a == ns[0].addr + H - ns[|ns| - 1].addr
  }

  // ----- allocation and release as list operations

  /** What _malloc does with the fitting segment `i`. */
  function AllocAt(ns: seq<Node>, i: nat, size: int): seq<Node>
    requires i < |ns|
  {
    if ns[i].len > size + H then SetFree(Split(ns, i, size), i, false) else SetFree(ns, i, false)
  }

  function AllocAddr(n: Node, size: int): int {
    if n.len > size + H then n.addr + n.len - size else n.addr
  }

  /** What _free does with segment `i`: mark it and merge it with its free neighbours. */
  function FreeAt(ns: seq<Node>, i: nat): seq<Node>
    requires 1 <= i < |ns|
  {
    var ns1 := SetFree(ns, i, true);
    if i + 1 < |ns| && ns[i + 1].free && ns[i - 1].free then MergedNext(MergedNext(ns1, i - 1), i - 1)
    else if ns[i - 1].free then MergedNext(ns1, i - 1)
    else if i + 1 < |ns| && ns[i + 1].free then MergedNext(ns1, i)
    else ns1
  }

  predicate Fits(n: Node, size: int) {
    n.free && (n.len > size + H || n.len == size)
  }

  lemma InThree(n: Node, a: seq<Node>, b: seq<Node>, c: seq<Node>)
    ensures n in a + b + c <==> n in a || n in b || n in c
  {
  }

  /** The pieces of the list around the segment taken. */
  lemma AllocPieces(ns: seq<Node>, i: nat, size: int)
    requires i < |ns| && Fits(ns[i], size)
    ensures ns == ns[..i] + [ns[i]] + ns[i + 1..]
    ensures var new_ := Node(AllocAddr(ns[i], size), size, false);
      if ns[i].len > size + H
      then AllocAt(ns, i, size) == ns[..i] + [new_, ns[i].(len := ns[i].len - size - H)] + ns[i + 1..]
      else AllocAt(ns, i, size) == ns[..i] + [new_] + ns[i + 1..]
  {
  }

  lemma AllocLive(ns: seq<Node>, i: nat, size: int)
    requires Layout(ns) && 1 <= i < |ns| && Fits(ns[i], size) && size > 0
    ensures forall a, l :: Live(AllocAt(ns, i, size), a, l) <==> Live(ns, a, l) || (a == AllocAddr(ns[i], size) && l == size)
  {
    hide AllocAt, AllocAddr, Layout;
    AllocPieces(ns, i, size);
    var new_, rest := Node(AllocAddr(ns[i], size), size, false), ns[i].(len := ns[i].len - size - H);
    forall a, l
      ensures Live(AllocAt(ns, i, size), a, l) <==> Live(ns, a, l) || (a == AllocAddr(ns[i], size) && l == size)
    {
      var n := Node(a, l, false);
      InThree(n, ns[..i], [ns[i]], ns[i + 1..]);
      InThree(n, ns[..i], [new_], ns[i + 1..]);
      InThree(n, ns[..i], [new_, rest], ns[i + 1..]);
    }
  }

  lemma AllocLayout(ns: seq<Node>, i: nat, size: int)
    requires Layout(ns) && 1 <= i < |ns| && Fits(ns[i], size) && size > 0 && size % 16 == 0
    ensures Layout(AllocAt(ns, i, size))
    ensures AllocAt(ns, i, size)[0] == ns[0]
    ensures var ns' := AllocAt(ns, i, size); ns'[|ns'| - 1].addr == ns[|ns| - 1].addr
  {
    hide Layout, Split;
    if ns[i].len > size + H {
      SplitLayout(ns, i, size);
      SplitNodes(ns, i, size);
      SetFreeLayout(Split(ns, i, size), i, false);
    } else {
      SetFreeLayout(ns, i, false);
    }
  }

  lemma AllocNoAdjacent(ns: seq<Node>, i: nat, size: int)
    requires NoAdjacentFree(ns) && 1 <= i < |ns| && Fits(ns[i], size)
    ensures NoAdjacentFree(AllocAt(ns, i, size))
  {
    var ns' := AllocAt(ns, i, size);
    SplitNodes(ns, i, size);
    hide Split;
    forall j | 0 <= j < |ns'| - 1
      ensures !(ns'[j].free && ns'[j + 1].free)
    {
      if ns[i].len > size + H && j > i {
        assert !(ns[j - 1].free && ns[j].free);
      } else if j != i && j + 1 != i {
        assert !(ns[j].free && ns[j + 1].free);
      }
    }
  }

  lemma AllocBooks(ns: seq<Node>, i: nat, size: int, used: int, free: int, total: int, e: int, a: int)
    requires Layout(ns) && 1 <= i < |ns| && Fits(ns[i], size) && size > 0 && size % 16 == 0
    requires Books(ns, used, free, total, e, a)
    ensures |AllocAt(ns, i, size)| >= 1
    ensures Books(AllocAt(ns, i, size), used + (size + H), free - (size + H), total, e, a)
  {
    AllocLayout(ns, i, size);
    if ns[i].len > size + H {
      SplitNodes(ns, i, size);
      SumsAfterSplit(ns, i, size);
      SumsAfterSetFree(Split(ns, i, size), i, false);
    } else {
      SumsAfterSetFree(ns, i, false);
    }
  }

  // ----- release

  lemma MergeLive(ns: seq<Node>, i: nat)
    requires i + 1 < |ns| && ns[i].free && ns[i + 1].free
    ensures forall a, l :: Live(MergedNext(ns, i), a, l) <==> Live(ns, a, l)
  {
    var one := ns[i + 1].(len := ns[i + 1].len + ns[i].len + H);
    assert ns == ns[..i] + [ns[i]] + [ns[i + 1]] + ns[i + 2..];
    assert MergedNext(ns, i) == ns[..i] + [one] + ns[i + 2..];
  }

  lemma SetFreeLive(ns: seq<Node>, i: nat)
    requires Layout(ns) && 1 <= i < |ns|
    ensures forall a, l :: Live(SetFree(ns, i, true), a, l) <==> Live(ns, a, l) && a != ns[i].addr
  {
    var ns' := SetFree(ns, i, true);
    forall a, l
      ensures Live(ns', a, l) <==> Live(ns, a, l) && a != ns[i].addr
    {
      var n := Node(a, l, false);
      if n in ns' {
        var j :| 0 <= j < |ns'| && ns'[j] == n;
        NodesFar(ns, i, j);
        assert ns[j] == n;
      }
      if n in ns && a != ns[i].addr {
        var j :| 0 <= j < |ns| && ns[j] == n;
        assert ns'[j] == n;
      }
    }
  }

  lemma FreeLive(ns: seq<Node>, i: nat)
    requires Layout(ns) && 1 <= i < |ns|
    ensures forall a, l :: Live(FreeAt(ns, i), a, l) <==> Live(ns, a, l) && a != ns[i].addr
  {
    var ns1 := SetFree(ns, i, true);
    SetFreeLive(ns, i);
    hide Live, Layout;
    if ns[i - 1].free {
      MergeLive(ns1, i - 1);
      if i + 1 < |ns| && ns[i + 1].free {
        MergedNodes(ns1, i - 1);
        MergeLive(MergedNext(ns1, i - 1), i - 1);
      }
    } else if i + 1 < |ns| && ns[i + 1].free {
      MergeLive(ns1, i);
    }
  }

  lemma MergeKeeps(ns: seq<Node>, i: nat)
    requires Layout(ns) && 1 <= i < |ns| - 1
    ensures var ns' := MergedNext(ns, i);
      Layout(ns') && |ns'| == |ns| - 1 && ns'[0] == ns[0] && ns'[|ns'| - 1].addr == ns[|ns| - 1].addr
  {
    MergedNextLayout(ns, i);
    hide Layout;
    MergedNodes(ns, i);
  }

  lemma MainNotFree(ns: seq<Node>)
    requires Layout(ns)
    ensures |ns| >= 2 && !ns[0].free
  {
  }

  lemma SetFreeKeeps(ns: seq<Node>, i: nat)
    requires Layout(ns) && 1 <= i < |ns|
    ensures var ns' := SetFree(ns, i, true);
      Layout(ns') && |ns'| == |ns| && ns'[0] == ns[0] && ns'[|ns'| - 1].addr == ns[|ns| - 1].addr
  {
    hide Layout;
    SetFreeLayout(ns, i, true);
  }

  /** Segment 0 is never free, so a free neighbour above has index at least 1. */
  lemma FreeLayout(ns: seq<Node>, i: nat)
    requires Layout(ns) && 1 <= i < |ns|
    ensures Layout(FreeAt(ns, i)) && |FreeAt(ns, i)| >= 2 && FreeAt(ns, i)[0] == ns[0]
    ensures FreeAt(ns, i)[|FreeAt(ns, i)| - 1].addr == ns[|ns| - 1].addr
  {
    hide Layout, MergedNext, SetFree;
    var ns1 := SetFree(ns, i, true);
    SetFreeKeeps(ns, i);
    MainNotFree(ns);
    if ns[i - 1].free {
      MergeKeeps(ns1, i - 1);
      if i + 1 < |ns| && ns[i + 1].free {
        MergeKeeps(MergedNext(ns1, i - 1), i - 1);
      }
    } else if i + 1 < |ns| && ns[i + 1].free {
      MergeKeeps(ns1, i);
    }
    MainNotFree(FreeAt(ns, i));
  }

  lemma AdjacentAt(ns: seq<Node>, j: nat)
    requires NoAdjacentFree(ns) && j + 1 < |ns|
    ensures !(ns[j].free && ns[j + 1].free)
  {
  }

  lemma FreeNoAdjacent(ns: seq<Node>, i: nat)
    requires NoAdjacentFree(ns) && 1 <= i < |ns| && !ns[i].free && !ns[0].free
    ensures NoAdjacentFree(FreeAt(ns, i))
  {
    var ns' := FreeAt(ns, i);
    var up, down := ns[i - 1].free, i + 1 < |ns| && ns[i + 1].free;
    var shift := (if up then 1 else 0) + (if down then 1 else 0);
    var at := if up then i - 1 else i;   // index of the free segment holding segment i
    FreeAtNodes(ns, i);
    hide FreeAt, NoAdjacentFree;
    forall j | 0 <= j < |ns'| - 1
      ensures !(ns'[j].free && ns'[j + 1].free)
    {
      if j < at {
        AdjacentAt(ns, j);
      } else if j > at {
        AdjacentAt(ns, j + shift);
      } else if down {
        AdjacentAt(ns, i + 1);
      }
    }
  }

  /** The nodes of the coalesced list: all others keep their place. */
  lemma FreeAtNodes(ns: seq<Node>, i: nat)
    requires 1 <= i < |ns|
    ensures var up, down := ns[i - 1].free, i + 1 < |ns| && ns[i + 1].free;
      var shift := (if up then 1 else 0) + (if down then 1 else 0);
      var at := if up then i - 1 else i;
      && |FreeAt(ns, i)| == |ns| - shift
      && (forall j :: 0 <= j < at ==> FreeAt(ns, i)[j] == ns[j])
      && (forall j :: at < j < |FreeAt(ns, i)| ==> FreeAt(ns, i)[j] == ns[j + shift])
  {
    hide MergedNext;
    var ns1 := SetFree(ns, i, true);
    if ns[i - 1].free {
      MergedNodes(ns1, i - 1);
      if i + 1 < |ns| && ns[i + 1].free {
        MergedNodes(MergedNext(ns1, i - 1), i - 1);
      }
    } else if i + 1 < |ns| && ns[i + 1].free {
      MergedNodes(ns1, i);
    }
  }

  lemma SumsAfterFree(ns: seq<Node>, i: nat)
    requires 1 <= i < |ns| && !ns[i].free && !ns[0].free
    ensures UsedSum(FreeAt(ns, i)) == UsedSum(ns) - (H + ns[i].len)
    ensures FreeSum(FreeAt(ns, i)) == FreeSum(ns) + (H + ns[i].len)
  {
    hide UsedSum, FreeSum, MergedNext;
    var ns1 := SetFree(ns, i, true);
    SumsAfterSetFree(ns, i, true);
    if ns[i - 1].free {
      SumsAfterMerge(ns1, i - 1);
      if i + 1 < |ns| && ns[i + 1].free {
        MergedNodes(ns1, i - 1);
        SumsAfterMerge(MergedNext(ns1, i - 1), i - 1);
      }
    } else if i + 1 < |ns| && ns[i + 1].free {
      SumsAfterMerge(ns1, i);
    }
  }

  lemma FreeBooks(ns: seq<Node>, i: nat, used: int, free: int, total: int, e: int, a: int)
    requires Layout(ns) && 1 <= i < |ns| && !ns[i].free
    requires Books(ns, used, free, total, e, a)
    ensures |FreeAt(ns, i)| >= 1
    ensures Books(FreeAt(ns, i), used - (ns[i].len + H), free + (ns[i].len + H), total, e, a)
  {
    hide FreeAt, Layout, UsedSum, FreeSum;
    FreeLayout(ns, i);
    MainNotFree(ns);
    SumsAfterFree(ns, i);
  }

  // ----- payloads

  /** No header lies in a live payload. */
  lemma HeadersOutsidePayloads(ns: seq<Node>, i: nat, x: int)
    requires Layout(ns) && i < |ns| && InPayload(ns, x)
    ensures x < ns[i].addr || ns[i].addr + H <= x
  {
    var j :| 1 <= j < |ns| && !ns[j].free && ns[j].addr + H <= x < ns[j].End();
    if i < j {
      assert ns[j].End() <= ns[i].addr;
    } else if j < i {
      assert ns[i].End() <= ns[j].addr;
    }
  }

  lemma PayloadIsLive(ns: seq<Node>, x: int)
    requires Layout(ns)
    ensures InPayload(ns, x) <==> exists a, l :: Live(ns, a, l) && a + H <= x < a + H + l
  {
    if InPayload(ns, x) {
      var j :| 1 <= j < |ns| && !ns[j].free && ns[j].addr + H <= x < ns[j].End();
      assert Live(ns, ns[j].addr, ns[j].len);
    }
    if exists a, l :: Live(ns, a, l) && a + H <= x < a + H + l {
      var a, l :| Live(ns, a, l) && a + H <= x < a + H + l;
      var j :| 0 <= j < |ns| && ns[j] == Node(a, l, false);
    }
  }

  /** Two live blocks have disjoint payloads. */
  lemma LiveDisjoint(ns: seq<Node>, a: int, l: int, b: int, m: int)
    requires Layout(ns) && Live(ns, a, l) && Live(ns, b, m) && (a != b || l != m)
    ensures a + H + l <= b || b + H + m <= a
  {
    var i :| 0 <= i < |ns| && ns[i] == Node(a, l, false);
    var j :| 0 <= j < |ns| && ns[j] == Node(b, m, false);
    if i < j {
      assert ns[j].End() <= ns[i].addr;
    } else {
      assert ns[i].End() <= ns[j].addr;
    }
  }

  /** No live payload meets a free segment. */
  lemma OutsideFreeSegment(ns: seq<Node>, i: nat, x: int)
    requires Layout(ns) && i < |ns| && ns[i].free && InPayload(ns, x)
    ensures x < ns[i].addr || ns[i].End() <= x
  {
    var j :| 1 <= j < |ns| && !ns[j].free && ns[j].addr + H <= x < ns[j].End();
    if i < j {
      assert ns[j].End() <= ns[i].addr;
    } else {
      assert ns[i].End() <= ns[j].addr;
    }
  }

  // ----- reading a represented list

  lemma ReadNode(hs: Headers, ns: seq<Node>, i: nat)
    requires Layout(ns) && Represents(hs, ns) && i < |ns|
    ensures ns[i].addr > 0 && ns[i].len >= 0 && ns[i].len % 16 == 0 && ns[i].addr % 16 == 0
    ensures var h := hs(ns[i].addr);
      && h.free == ns[i].free && h.length == ns[i].len && h.signature == SIGNATURE && !h.isStack
      && (h.next == 0 <==> i == |ns| - 1) && (i < |ns| - 1 ==> h.next == ns[i + 1].addr)
      && (h.last == 0 <==> i == 0) && (i > 0 ==> h.last == ns[i - 1].addr)
    ensures i < |ns| - 1 ==> ns[i + 1].addr < ns[i].addr
  {
  }

  /** The new header of a split overlaps neither its segment's header nor the one above. */
  lemma SplitApart(ns: seq<Node>, i: nat, size: int, h0: Headers, h1: Headers)
    requires Layout(ns) && 1 <= i < |ns| && size > 0 && ns[i].len > size + H
    requires forall k :: Far(k, ns[i].addr + ns[i].len - size) ==> h1(k) == h0(k)
    ensures h1(ns[i].addr) == h0(ns[i].addr) && h1(ns[i - 1].addr) == h0(ns[i - 1].addr)
  {
    hide Aligned;
    assert ns[i].End() <= ns[i - 1].addr;
  }

  lemma NodeApart(ns: seq<Node>, i: nat, j: nat, h1: Headers, h2: Headers)
    requires Layout(ns) && i < |ns| && j < |ns| && i != j
    requires forall k :: Far(k, ns[j].addr) ==> h2(k) == h1(k)
    ensures h2(ns[i].addr) == h1(ns[i].addr)
  {
    hide Layout;
    NodesFar(ns, i, j);
  }
}
