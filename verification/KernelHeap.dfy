/** The kernel heap allocator on memory that is read both as headers and as bytes. */
module KernelHeap {
  import opened Division
  import opened HeapList
  import opened HeapAccounts

  /** Requests are rounded up to 16 bytes. */
  function Round16(size: int): (r: int)
    requires size >= 0
    ensures r >= size && r % 16 == 0 && r < size + 16
    ensures size % 16 == 0 ==> r == size
  {
    if size % 16 > 0 then size - size % 16 + 16 else size
  }

  /** Bytes expand_heap maps for a request: header included, in whole pages. */
  function ExpandBytes(length: int): (r: int)
    requires length > 0
    ensures length + H <= r < length + H + PAGE && r >= PAGE && r % PAGE == 0 && r % 16 == 0
  {
    var l := length + H;
    WholePages(l, l / PAGE);
    if l % PAGE != 0 then l - l % PAGE + PAGE else l
  }

  lemma WholePages(l: nat, q: nat)
    requires q == l / PAGE
    ensures l - l % PAGE == PAGE * q && l % PAGE < PAGE
    ensures PAGE * q % PAGE == 0 && PAGE * q % 16 == 0 && (PAGE * q + PAGE) % PAGE == 0 && (PAGE * q + PAGE) % 16 == 0
  {
    QuotientIs(PAGE * q, PAGE, q, 0);
    QuotientIs(PAGE * q + PAGE, PAGE, q + 1, 0);
    QuotientIs(PAGE * q, 16, 256 * q, 0);
    QuotientIs(PAGE * q + PAGE, 16, 256 * q + 256, 0);
  }

  /** Address `x` is not part of the header at `a`. */
  predicate Outside(x: int, a: int) {
    x < a || a + H <= x
  }

  /** Only the bytes under the header at `a` may differ. */
  ghost predicate BytesKept(b0: int -> int, b1: int -> int, a: int) {
    forall x :: Outside(x, a) ==> b1(x) == b0(x)
  }

  /** Every live payload has the same bytes. */
  ghost predicate PayloadsKept(ns: seq<Node>, b0: int -> int, b1: int -> int) {
    forall x :: InPayload(ns, x) ==> b1(x) == b0(x)
  }

  ghost predicate SomeFits(ns: seq<Node>, size: int) {
    exists i :: 0 <= i < |ns| && Fits(ns[i], size)
  }

  /** Expansions still needed before a segment fits. */
  ghost function Rank(ns: seq<Node>, size: int): (r: nat)
    requires size > 0
    ensures r <= 2
  {
    if SomeFits(ns, size) then 0
    else if |ns| > 0 && ns[|ns| - 1].free && ns[|ns| - 1].len + ExpandBytes(size) > size + 2 * H then 1
    else 2
  }

  /** Address space the expansions of a request take. */
  ghost function Reserve(ns: seq<Node>, size: int): (r: int)
    requires size > 0
    ensures 0 <= r <= 2 * ExpandBytes(size)
  {
    var rank := Rank(ns, size);
    if rank == 0 then 0 else if rank == 1 then ExpandBytes(size) else 2 * ExpandBytes(size)
  }

  lemma TailFits(ns: seq<Node>, size: int)
    requires size > 0 && |ns| > 0 && Fits(ns[|ns| - 1], size)
    ensures Rank(ns, size) == 0
  {
    assert SomeFits(ns, size);
  }

  /** Every expansion brings the request one step nearer: two always suffice. */
  lemma ExpansionHelps(ns: seq<Node>, size: int)
    requires Layout(ns) && size > 0 && size % 16 == 0 && !SomeFits(ns, size)
    ensures Rank(Expanded(ns, ExpandBytes(size)), size) < Rank(ns, size)
  {
    var bytes := ExpandBytes(size);
    var ns' := Expanded(ns, bytes);
    var k, tail := |ns| - 1, ns'[|ns'| - 1];
    assert tail.free;
    assert ns[k].len >= 0 && ns[k].len % 16 == 0;
    if tail.len > size + H || tail.len == size {
      TailFits(ns', size);
    }
  }

  class Heap {
    var headers: Headers
    var bytes: int -> int
    var heapEnd: int
    var lastSegment: int
    var mainSegment: int
    var totalSize: int
    var usedSize: int
    var freeSize: int
    var ready: bool
    ghost var nodes: seq<Node>       // the segment list from mainSegment to lastSegment
    ghost var expansions: nat
    ghost var absorbed: nat          // expansions that took over a free last segment

    ghost predicate ListOk()
      reads this
    {
      && Layout(nodes) && Represents(headers, nodes)
      && mainSegment == nodes[0].addr
      && lastSegment == heapEnd == nodes[|nodes| - 1].addr
    }

    ghost predicate Valid()
      reads this
    {
      && ListOk() && NoAdjacentFree(nodes)
      && Books(nodes, usedSize, freeSize, totalSize, expansions, absorbed)
    }

    /** _initHeap on a zeroed heap structure: one page with the main segment and one free segment. */
    constructor (end: int)
      requires end % 16 == 0 && end > PAGE
      ensures Valid() && ready && expansions == 0 && absorbed == 0
      ensures heapEnd == end - PAGE
      ensures |nodes| == 2 && nodes[0] == Node(end - H, 0, false) && nodes[1] == Node(end - PAGE, PAGE - 2 * H, true)
    {
      heapEnd := end - PAGE;
      mainSegment := end - PAGE + (PAGE - H);
      totalSize, usedSize, freeSize := 0, 0, 0;
      expansions, absorbed := 0, 0;
      new;
      hide *;
      PutFirstSegments(end);
      totalSize := totalSize + PAGE;
      freeSize := freeSize + PAGE;
      ready := true;
      IsValid();
    }

    lemma IsValid()
      requires ListOk() && NoAdjacentFree(nodes)
      requires Books(nodes, usedSize, freeSize, totalSize, expansions, absorbed)
      ensures Valid()
    {
      hide ListOk, NoAdjacentFree, Books;
    }

    method PutFirstSegments(end: int)
      requires end % 16 == 0 && end > PAGE && heapEnd == end - PAGE && mainSegment == end - H
      modifies this`headers, this`bytes, this`lastSegment, this`nodes
      ensures ListOk() && NoAdjacentFree(nodes) && nodes == InitialNodes(end)
      ensures |nodes| == 2 && nodes[0] == Node(end - H, 0, false) && nodes[1] == Node(end - PAGE, PAGE - 2 * H, true)
      ensures Books(nodes, 0, PAGE, PAGE, 0, 0)
    {
      hide Layout, Represents, Books, NoAdjacentFree, HeaderWritten, InitialNodes, BytesKept, Far;
      var next := mainSegment - PAGE + H;
      ghost var h0 := headers;
      PutHeader(mainSegment, Header(false, 0, next, 0, false, SIGNATURE));
      ghost var h1 := headers;
      PutHeader(next, Header(true, PAGE - H - H, 0, mainSegment, false, SIGNATURE));
      lastSegment := next;
      nodes := InitialNodes(end);
      InitialList(end, h0, h1, headers);
    }

    /** Stores a header; what the 48 bytes meant before, as bytes or as other headers, is lost. */
    method PutHeader(a: int, h: Header)
      modifies this`headers, this`bytes
      ensures HeaderWritten(old(headers), headers, a, h)
      ensures BytesKept(old(bytes), bytes, a)
    {
      var junkHeaders: Headers := *;
      var junkBytes: int -> int := *;
      var hs, bs := headers, bytes;
      headers := k => if k == a then h else if Far(k, a) then hs(k) else junkHeaders(k);
      bytes := x => if a <= x < a + H then junkBytes(x) else bs(x);
    }

    /** Stores a payload byte; headers that overlap it are lost. */
    method StoreByte(x: int, v: int)
      modifies this`headers, this`bytes
      ensures bytes(x) == v && forall y :: y != x ==> bytes(y) == old(bytes)(y)
      ensures forall k :: k + H <= x || x < k ==> headers(k) == old(headers)(k)
    {
      var junkHeaders: Headers := *;
      var hs, bs := headers, bytes;
      headers := k => if k + H <= x || x < k then hs(k) else junkHeaders(k);
      bytes := y => if y == x then v else bs(y);
    }

    /** splitSegment: 0 when the segment is too short. */
    method SplitSegment(segment: int, size: int, ghost i: nat) returns (newSegment: int)
      requires ListOk() && 1 <= i < |nodes| && nodes[i].addr == segment && nodes[i].free
      requires size > 0 && size % 16 == 0
      modifies this`headers, this`bytes, this`nodes, this`lastSegment
      ensures ListOk()
      ensures newSegment == 0 <==> old(nodes[i].len) <= size + H
      ensures newSegment == 0 ==> nodes == old(nodes) && headers == old(headers) && bytes == old(bytes)
      ensures newSegment != 0 ==>
        nodes == Split(old(nodes), i, size) && newSegment == old(nodes[i].addr + nodes[i].len - size)
      ensures PayloadsKept(old(nodes), old(bytes), bytes)
    {
      hide Represents, Layout, Split, SplitWrites, BytesKept, PayloadsKept;
      ReadNode(headers, nodes, i);
      var h := headers(segment);
      NothingMoved(nodes, bytes);
      if h.length <= size + H {
        return 0;
      }
      ghost var ns, h0, b0 := nodes, headers, bytes;
      newSegment := segment + h.length - size;
      PutHeader(newSegment, Header(true, size, segment, h.last, false, SIGNATURE));
      ghost var h1, b1 := headers, bytes;
      SplitApart(ns, i, size, h0, h1);
      if headers(segment).next == 0 {
        lastSegment := segment;
      }
      if headers(segment).last != 0 {
        var up := headers(segment).last;
        PutHeader(up, headers(up).(next := newSegment));
      }
      ghost var h2, b2 := headers, bytes;
      NodeApart(ns, i, i - 1, h1, h2);
      PutHeader(segment, headers(segment).(last := newSegment, length := headers(segment).length - (size + H)));
      SplitIsWritten(h0, h1, h2, headers, ns, i, size);
      SplitWritten(h0, h1, h2, headers, ns, i, size);
      SplitLayout(ns, i, size);
      SplitNodes(ns, i, size);
      SplitKeepsPayloads(ns, i, size, b0, b1, b2, bytes);
      nodes := Split(ns, i, size);
    }

    /** The page loop of expand_heap; every requested page is assumed to be granted. */
    method MapPages(pages: int)
      requires pages >= 0
      modifies this`heapEnd
      ensures heapEnd == old(heapEnd) - pages * PAGE
    {
      var i := 0;
      while i < pages
        invariant 0 <= i <= pages && heapEnd == old(heapEnd) - i * PAGE
      {
        heapEnd := heapEnd - PAGE;
        i := i + 1;
      }
    }

    /** expand_heap: maps whole pages below the heap and adds them as, or to, the free last segment. */
    method ExpandHeap(request: int)
      requires Valid() && request > 0 && request % 16 == 0 && heapEnd > ExpandBytes(request)
      modifies this
      ensures Valid() && ready == old(ready)
      ensures nodes == Expanded(old(nodes), ExpandBytes(request))
      ensures heapEnd == old(heapEnd) - ExpandBytes(request) && usedSize == old(usedSize)
      ensures expansions == old(expansions) + 1
      ensures absorbed == old(absorbed) + if old(nodes[|nodes| - 1].free) then 1 else 0
      ensures PayloadsKept(old(nodes), old(bytes), bytes)
    {
      hide Represents, Layout, Expanded, PayloadsKept, Books, NoAdjacentFree;
      var length := request + H;
      if length % PAGE != 0 {
        length := length - length % PAGE;
        length := length + PAGE;
      }
      assert length == ExpandBytes(request);
      assert length / PAGE * PAGE == length;
      MapPages(length / PAGE);
      AddSegment(length);
    }

    /** The part of expand_heap behind the page loop. */
    method AddSegment(length: int)
      requires Layout(nodes) && Represents(headers, nodes) && NoAdjacentFree(nodes)
      requires Books(nodes, usedSize, freeSize, totalSize, expansions, absorbed)
      requires mainSegment == nodes[0].addr && lastSegment == nodes[|nodes| - 1].addr == heapEnd + length
      requires length > H && length % 16 == 0 && heapEnd > 0
      modifies this
      ensures Valid() && ready == old(ready) && heapEnd == old(heapEnd) && usedSize == old(usedSize)
      ensures nodes == Expanded(old(nodes), length)
      ensures expansions == old(expansions) + 1
      ensures absorbed == old(absorbed) + if old(nodes[|nodes| - 1].free) then 1 else 0
      ensures PayloadsKept(old(nodes), old(bytes), bytes)
    {
      hide Represents, Layout, Expanded, Books, NoAdjacentFree, Far, PayloadsKept;
      ghost var ns := nodes;
      MainNotFree(ns);
      ReadNode(headers, ns, |ns| - 1);
      ExpandedLayout(ns, length);
      ExpandBooks(ns, length, usedSize, freeSize, totalSize, expansions, absorbed);
      if lastSegment != 0 && headers(lastSegment).free && headers(lastSegment).last != 0 {
        AbsorbLast(length);
        absorbed := absorbed + 1;
      } else {
        AppendLast(length);
      }
      totalSize := totalSize + (length + H);
      freeSize := freeSize + (length + H);
      expansions := expansions + 1;
      nodes := Expanded(ns, length);
    }

    /** The new segment takes over the free last segment. */
    method AbsorbLast(length: int)
      requires Layout(nodes) && Represents(headers, nodes) && nodes[|nodes| - 1].free
      requires lastSegment == nodes[|nodes| - 1].addr == heapEnd + length && length > H && heapEnd > 0
      modifies this`headers, this`bytes, this`lastSegment
      ensures Represents(headers, Expanded(nodes, length)) && lastSegment == heapEnd
      ensures PayloadsKept(nodes, old(bytes), bytes)
    {
      hide Represents, Layout, Expanded, HeaderWritten, ExpandWrites, Far, BytesKept, PayloadsKept;
      ghost var ns, h0, b0 := nodes, headers, bytes;
      MainNotFree(ns);
      ReadNode(headers, ns, |ns| - 1);
      var newSegment := heapEnd;
      var size := headers(lastSegment).length + length;
      var up := headers(lastSegment).last;
      PutHeader(newSegment, Header(true, size - H, 0, up, false, SIGNATURE));
      ghost var h1, b1 := headers, bytes;
      PutHeader(up, headers(up).(next := newSegment));
      lastSegment := newSegment;
      ExpandKeepsPayloads(ns, length, b0, b1, bytes);
      ExpandIsWritten(h0, h1, headers, ns, length);
      ExpandWritten(h0, h1, headers, ns, length);
    }

    /** The new segment follows a last segment in use. */
    method AppendLast(length: int)
      requires Layout(nodes) && Represents(headers, nodes) && !nodes[|nodes| - 1].free
      requires lastSegment == nodes[|nodes| - 1].addr == heapEnd + length && length > H && heapEnd > 0
      modifies this`headers, this`bytes, this`lastSegment
      ensures Represents(headers, Expanded(nodes, length)) && lastSegment == heapEnd
      ensures PayloadsKept(nodes, old(bytes), bytes)
    {
      hide Represents, Layout, Expanded, HeaderWritten, ExpandWrites, Far, BytesKept, PayloadsKept;
      ghost var ns, h0, b0 := nodes, headers, bytes;
      MainNotFree(ns);
      var newSegment := heapEnd;
      PutHeader(newSegment, Header(true, length - H, 0, lastSegment, false, SIGNATURE));
      ghost var h1, b1 := headers, bytes;
      if lastSegment != 0 {
        PutHeader(lastSegment, headers(lastSegment).(next := newSegment));
      }
      lastSegment := newSegment;
      ExpandKeepsPayloads(ns, length, b0, b1, bytes);
      ExpandIsWritten(h0, h1, headers, ns, length);
      ExpandWritten(h0, h1, headers, ns, length);
    }

    /** _malloc: first fit, expanding the heap when nothing fits. Room below the heap must be left for that. */
    method Malloc(request: int) returns (r: int)
      requires Valid() && request >= 0
      requires request > 0 ==> heapEnd > Reserve(nodes, Round16(request))
      modifies this
      ensures Valid() && ready == old(ready)
      ensures r == 0 <==> !old(ready) || request == 0
      ensures r == 0 ==> nodes == old(nodes) && bytes == old(bytes) && headers == old(headers)
      ensures r != 0 ==> r % 16 == 0 && !Live(old(nodes), r - H, Round16(request))
      ensures r != 0 ==> forall a, l :: Live(nodes, a, l) <==>
        Live(old(nodes), a, l) || (a == r - H && l == Round16(request))
      ensures r != 0 ==> usedSize == old(usedSize) + (Round16(request) + H)
      ensures PayloadsKept(old(nodes), old(bytes), bytes)
      ensures old(expansions) <= expansions
      ensures r != 0 ==> expansions <= old(expansions) + Rank(old(nodes), Round16(request))
      ensures r != 0 ==> FirstFitTaken(old(nodes), nodes, r, Round16(request))
      ensures r != 0 ==> forall i :: 0 <= i < |old(nodes)| && old(nodes)[i].free ==>
        (old(nodes)[i].len == Round16(request) || old(nodes)[i].len > Round16(request) + H ==>
          heapEnd == old(heapEnd) && expansions == old(expansions))
      ensures r != 0 ==> forall i :: IsFirstServing(old(nodes), i, Round16(request)) ==>
        r == old(nodes)[i].addr + H +
          if old(nodes)[i].len == Round16(request) then 0 else old(nodes)[i].len - Round16(request)
      decreases if request > 0 then Rank(nodes, Round16(request)) else 0
    {
      hide Layout, Represents, Books, NoAdjacentFree, PayloadsKept, Live, SomeFits, Rank, FirstFit, AllocAt, Expanded, Reserve, ExpandBytes,
        IsFirstServing;
      NothingMoved(nodes, bytes);
      if !ready {
        return 0;
      }
      if request == 0 {
        return 0;
      }
      var size := request;
      if size % 16 > 0 {
        size := size - size % 16;
        size := size + 16;
      }
      assert size == Round16(request) && size % 16 == 0;
      var found, segment := FindSegment(size);
      if found {
        ghost var ns0 := nodes;
        r := TakeSegment(segment, size, FirstFit(nodes, size));
        ServedInPlace(ns0, nodes, r, size);
        return;
      }
      NothingServes(nodes, size);
      ghost var ns, b0 := nodes, bytes;
      OneExpansion(ns, size);
      ExpandHeap(size);
      ghost var b1 := bytes;
      ExpandLive(ns, ExpandBytes(size));
      r := Malloc(size);
      ExpandPayloads(ns, ExpandBytes(size), b0, b1, bytes);
    }

    /** The scan of _malloc. */
    method FindSegment(size: int) returns (found: bool, segment: int)
      requires ListOk() && size > 0
      ensures found <==> SomeFits(nodes, size)
      ensures FirstFit(nodes, size) == |nodes| || found
      ensures found ==> FirstFit(nodes, size) < |nodes| && segment == nodes[FirstFit(nodes, size)].addr
    {
      hide Layout, Represents, SomeFits, FirstFit;
      MainNotFree(nodes);
      segment := mainSegment;
      ghost var i := 0;
      while true
        invariant 0 <= i < |nodes| && segment == nodes[i].addr
        invariant forall j :: 0 <= j < i ==> !Fits(nodes[j], size)
        decreases |nodes| - i
      {
        ReadNode(headers, nodes, i);
        var h := headers(segment);
        if h.free {
          if h.length > size + H || h.length == size {
            FoundFirst(nodes, size, i);
            return true, segment;
          }
        }
        if h.next == 0 {
          break;
        }
        segment := h.next;
        i := i + 1;
      }
      NoneFits(nodes, size);
      found := false;
    }

    /** What _malloc does with a segment that fits. */
    method TakeSegment(segment: int, size: int, ghost i: nat) returns (r: int)
      requires Valid() && size > 0 && size % 16 == 0 && i < |nodes| && i == FirstFit(nodes, size)
      requires SomeFits(nodes, size) && segment == nodes[i].addr
      modifies this
      ensures Valid() && ready == old(ready) && r != 0 && r % 16 == 0
      ensures nodes == AllocAt(old(nodes), i, size) && r == AllocAddr(old(nodes[i]), size) + H && heapEnd == old(heapEnd)
      ensures !Live(old(nodes), r - H, size)
      ensures forall a, l :: Live(nodes, a, l) <==> Live(old(nodes), a, l) || (a == r - H && l == size)
      ensures usedSize == old(usedSize) + (size + H) && expansions == old(expansions)
      ensures PayloadsKept(old(nodes), old(bytes), bytes)
    {
      hide Layout, Represents, Books, NoAdjacentFree, PayloadsKept, Live, SomeFits, FirstFit, Split, HeaderWritten, BytesKept, SetFree, Far;
      ghost var ns, b0 := nodes, bytes;
      FirstFitFits(ns, size);
      ReadNode(headers, ns, i);
      FirstFitNotMain(ns, size);
      AllocLayout(ns, i, size);
      AllocLive(ns, i, size);
      AllocNew(ns, i, size);
      AllocNoAdjacent(ns, i, size);
      AllocBooks(ns, i, size, usedSize, freeSize, totalSize, expansions, absorbed);
      var current := segment;
      if headers(current).length > size + H {
        current := SplitSegment(current, size, i);
      } else {
        NothingMoved(ns, b0);
      }
      SplitNodes(ns, i, size);
      r := MarkTaken(current, size, i, ns, b0);
    }

    /** The end of _malloc: the segment found, or split off, is marked used and accounted for. */
    method MarkTaken(current: int, size: int, ghost i: nat, ghost ns: seq<Node>, ghost b0: int -> int) returns (r: int)
      requires Layout(ns) && 1 <= i < |ns| && Fits(ns[i], size) && size > 0 && size % 16 == 0 && |nodes| > i
      requires nodes == (if ns[i].len > size + H then Split(ns, i, size) else ns)
      requires Layout(nodes) && Represents(headers, nodes) && current == nodes[i].addr && nodes[i].len == size
      requires current == AllocAddr(ns[i], size) && PayloadsKept(ns, b0, bytes)
      modifies this`headers, this`bytes, this`nodes, this`usedSize, this`freeSize
      ensures nodes == AllocAt(ns, i, size) && Represents(headers, nodes) && PayloadsKept(ns, b0, bytes)
      ensures usedSize == old(usedSize) + (size + H) && freeSize == old(freeSize) - (size + H) && r == current + H
    {
      hide Layout, Represents, PayloadsKept, Split, HeaderWritten, BytesKept, SetFree, Far;
      ghost var mid, h1, b1 := nodes, headers, bytes;
      ReadNode(headers, mid, i);
      PutHeader(current, headers(current).(free := false));
      FlagWritten(h1, headers, mid, i, false);
      TakeKeepsPayloads(ns, mid, i, b0, b1, bytes);
      nodes := SetFree(mid, i, false);
      SetFreeNode(mid, i);
      RepresentsAt(headers, nodes, i);
      usedSize := usedSize + (headers(current).length + H);
      freeSize := freeSize - (headers(current).length + H);
      r := current + H;
    }

    /** MergeThisToNext on segment `i`. */
    method MergeThisToNext(header: int, ghost i: nat)
      requires Layout(nodes) && Represents(headers, nodes) && 1 <= i < |nodes| - 1
      requires nodes[i].addr == header && nodes[i].free && nodes[i + 1].free
      modifies this`headers, this`bytes, this`nodes
      ensures nodes == MergedNext(old(nodes), i) && Layout(nodes) && Represents(headers, nodes)
      ensures PayloadsKept(nodes, old(bytes), bytes)
    {
      hide Layout, Represents, MergedNext, HeaderWritten, BytesKept, PayloadsKept, MergeWrites;
      ghost var ns, h0, b0 := nodes, headers, bytes;
      ReadNode(headers, ns, i);
      ReadNode(headers, ns, i + 1);
      ReadNode(headers, ns, i - 1);
      var next := headers(header).next;
      var h := headers(header);
      PutHeader(next, headers(next).(length := headers(next).length + (h.length + H), last := h.last));
      ghost var h1, b1 := headers, bytes;
      PutHeader(h.last, headers(h.last).(next := next));
      ghost var h2, b2 := headers, bytes;
      PutHeader(header, ZERO_HEADER);
      MergeIsWritten(h0, h1, h2, headers, ns, i);
      MergeWritten(h0, h1, h2, headers, ns, i);
      MergedNextLayout(ns, i);
      MergeKeepsPayloads(ns, i, b0, b1, b2, bytes);
      nodes := MergedNext(ns, i);
    }

    /** MergeLastToThis on segment `i + 1`: it takes over the segment above it. */
    method MergeLastToThis(header: int, ghost i: nat)
      requires Layout(nodes) && Represents(headers, nodes) && 1 <= i < |nodes| - 1
      requires nodes[i + 1].addr == header && nodes[i].free && nodes[i + 1].free
      modifies this`headers, this`bytes, this`nodes
      ensures nodes == MergedNext(old(nodes), i) && Layout(nodes) && Represents(headers, nodes)
      ensures PayloadsKept(nodes, old(bytes), bytes)
    {
      hide Layout, Represents, MergedNext, HeaderWritten, BytesKept, PayloadsKept, MergeWrites;
      ghost var ns, h0, b0 := nodes, headers, bytes;
      ReadNode(headers, ns, i);
      ReadNode(headers, ns, i + 1);
      ReadNode(headers, ns, i - 1);
      var last := headers(header).last;
      var h := headers(last);
      PutHeader(header, headers(header).(length := headers(header).length + (h.length + H), last := h.last));
      ghost var h1, b1 := headers, bytes;
      var up := h.last;
      PutHeader(up, headers(up).(next := header));
      ghost var h2, b2 := headers, bytes;
      PutHeader(last, ZERO_HEADER);
      MergeIsWritten(h0, h1, h2, headers, ns, i);
      MergeWritten(h0, h1, h2, headers, ns, i);
      MergedNextLayout(ns, i);
      MergeKeepsPayloads(ns, i, b0, b1, b2, bytes);
      nodes := MergedNext(ns, i);
    }

    /** _free. A pointer whose header carries no signature, or is free already, stops the heap. */
    method Free(address: int, ghost i: nat) returns (panicked: bool)
      requires Valid()
      requires address == 0 || headers(address - H).signature != SIGNATURE
        || (1 <= i < |nodes| && nodes[i].addr == address - H)
      modifies this
      ensures !old(ready) || address == 0 ==>
        !panicked && nodes == old(nodes) && bytes == old(bytes) && ready == old(ready) && Valid()
      ensures old(ready) && address != 0 ==> (!panicked <==>
        old(headers(address - H)).signature == SIGNATURE && !old(headers(address - H)).free)
      ensures panicked ==> !ready && nodes == old(nodes) && bytes == old(bytes) && Valid()
      ensures old(ready) && address != 0 && !panicked ==>
        && ready && Valid() && 1 <= i < |old(nodes)| && nodes == FreeAt(old(nodes), i)
        && usedSize == old(usedSize) - (old(nodes[i]).len + H)
        && (forall a, l :: Live(nodes, a, l) <==> Live(old(nodes), a, l) && a != address - H)
        && PayloadsKept(nodes, old(bytes), bytes)
        && expansions == old(expansions)
    {
      panicked := false;
      if !ready {
        return;
      }
      if address == 0 {
        return;
      }
      var header := address - H;
      if headers(header).signature != SIGNATURE {
        ready := false;
        return true;
      }
      ReadNode(headers, nodes, i);
      if headers(header).free {
        ready := false;
        return true;
      }
      Release(header, i);
    }

    /** The body of _free behind its checks. */
    method Release(header: int, ghost i: nat)
      requires Valid() && 1 <= i < |nodes| && nodes[i].addr == header && !nodes[i].free
      modifies this
      ensures Valid() && ready == old(ready) && nodes == FreeAt(old(nodes), i)
      ensures usedSize == old(usedSize) - (old(nodes[i]).len + H) && expansions == old(expansions)
      ensures forall a, l :: Live(nodes, a, l) <==> Live(old(nodes), a, l) && a != header
      ensures PayloadsKept(nodes, old(bytes), bytes)
    {
      hide Layout, Represents, Books, NoAdjacentFree, PayloadsKept, Live, FreeAt, BytesKept, MergedNext, HeaderWritten;
      ghost var ns, b0, h0 := nodes, bytes, headers;
      MainNotFree(ns);
      FreeLayout(ns, i);
      FreeLive(ns, i);
      FreeNoAdjacent(ns, i);
      FreeBooks(ns, i, usedSize, freeSize, totalSize, expansions, absorbed);
      ReadNode(headers, ns, i);
      var length := headers(header).length;
      PutHeader(header, headers(header).(free := true));
      FlagWritten(h0, headers, ns, i, true);
      SetFreeLayout(ns, i, true);
      nodes := SetFree(ns, i, true);
      FlagKeepsPayloads(ns, i, b0, bytes);
      freeSize := freeSize + length + H;
      usedSize := usedSize - (length + H);
      Coalesce(header, i, ns, b0);
    }

    /** The merging part of _free. */
    method Coalesce(header: int, ghost i: nat, ghost ns: seq<Node>, ghost b0: int -> int)
      requires 1 <= i < |ns| && nodes == SetFree(ns, i, true) && Layout(nodes) && Represents(headers, nodes)
      requires nodes[i].addr == header && !ns[0].free && PayloadsKept(nodes, b0, bytes)
      modifies this`headers, this`bytes, this`nodes
      ensures nodes == FreeAt(ns, i) && Represents(headers, nodes) && PayloadsKept(nodes, b0, bytes)
    {
      hide Layout, Represents, PayloadsKept, MergedNext;
      ghost var ns1, b1 := nodes, bytes;
      ReadNode(headers, nodes, i);
      ReadNode(headers, nodes, i - 1);
      if i + 1 < |nodes| {
        ReadNode(headers, nodes, i + 1);
      }
      var h := headers(header);
      if h.next != 0 && h.last != 0 {
        if headers(h.next).free && headers(h.last).free {
          MergeLastToThis(header, i - 1);
          MergePayloads(ns1, i - 1, b0, b1, bytes);
          MergedNodes(ns1, i - 1);
          ghost var ns2, b2 := nodes, bytes;
          MergeThisToNext(header, i - 1);
          MergePayloads(ns2, i - 1, b0, b2, bytes);
          return;
        }
      }
      if h.last != 0 {
        if headers(h.last).free {
          MergeLastToThis(header, i - 1);
          MergePayloads(ns1, i - 1, b0, b1, bytes);
          return;
        }
      }
      if h.next != 0 {
        if headers(h.next).free {
          MergeThisToNext(header, i);
          MergePayloads(ns1, i, b0, b1, bytes);
          return;
        }
      }
    }

    /** memcpy into the payload of a live block. */
    method CopyBytes(dst: int, src: int, count: int, ghost l: int)
      requires ListOk() && Live(nodes, dst - H, l) && 0 <= count <= l
      requires src + count <= dst || dst + count <= src
      modifies this`headers, this`bytes
      ensures ListOk()
      ensures CopiedTo(old(bytes), bytes, dst, src, count)
    {
      hide Layout, Represents, Live, CopiedTo;
      NothingCopied(bytes, dst, src);
      ghost var b0 := bytes;
      var k := 0;
      while k < count
        invariant 0 <= k <= count && ListOk()
        invariant CopiedTo(b0, bytes, dst, src, k)
      {
        ghost var h0, b1 := headers, bytes;
        StoreByte(dst + k, bytes(src + k));
        StoreInPayload(h0, headers, nodes, dst - H, l, dst + k);
        CopyStep(b0, b1, bytes, dst, src, k, count);
        k := k + 1;
      }
    }

    /** _realloc: the block moves and keeps its first bytes; asked for 0 bytes it does nothing. */
    method Realloc(buffer: int, request: int, ghost length: int) returns (r: int)
      requires Valid() && request >= 0
      requires request > 0 ==> heapEnd > Reserve(nodes, Round16(request))
      requires buffer == 0 || Live(nodes, buffer - H, length)
      modifies this
      ensures Valid() && ready == old(ready)
      ensures r == 0 <==> !old(ready) || request == 0
      ensures r == 0 ==> nodes == old(nodes) && bytes == old(bytes) && headers == old(headers)
      ensures r != 0 ==> r % 16 == 0 && Moved(old(nodes), nodes, buffer - H, r - H, Round16(request))
      ensures r != 0 && buffer != 0 ==> forall x :: r <= x < r + (if length < request then length else request) ==>
        bytes(x) == old(bytes)(buffer + (x - r))
      ensures r != 0 ==> forall x :: InPayload(old(nodes), x) && (buffer == 0 || !(buffer <= x < buffer + length)) ==>
        bytes(x) == old(bytes)(x)
    {
      hide Layout, Represents, Books, NoAdjacentFree, PayloadsKept, Live, Reserve, FirstFitTaken, Round16, Rank, InPayload,
        FreeAt, CopiedTo, SetFree, Moved, IsFirstServing;
      if !ready {
        return 0;
      }
      ghost var ns, b0 := nodes, bytes;
      LiveAbove(ns);
      r := Malloc(request);
      if r == 0 {
        return;
      }
      PayloadsKeptAt(ns, b0, bytes);
      if buffer == 0 {
        MovedIs(ns, nodes, nodes, buffer - H, r - H, Round16(request));
        return;
      }
      ghost var ns1, b1 := nodes, bytes;
      ghost var i := LiveIndex(ns1, buffer - H, length);
      ReadNode(headers, ns1, i);
      var oldSize := headers(buffer - H).length;
      if request < oldSize {
        oldSize := request;
      }
      ReallocApart(ns, ns1, buffer - H, length, r - H, Round16(request));
      RoundUp(request);
      CopyBytes(r, buffer, oldSize, Round16(request));
      ghost var b2 := bytes;
      ReadNode(headers, ns1, i);
      var panicked := Free(buffer, i);
      MovedIs(ns, ns1, nodes, buffer - H, r - H, Round16(request));
      ReallocBytes(ns, ns1, nodes, b0, b1, b2, bytes, buffer, length, r, Round16(request), oldSize);
    }
  }

  // ----- reallocation

  /** The bytes now at `dst` are those that were at `src`. */
  ghost predicate SameBytes(b0: int -> int, b1: int -> int, dst: int, src: int, count: int) {
    forall x :: dst <= x < dst + count ==> b1(x) == b0(src + (x - dst))
  }

  ghost predicate CopiedTo(b0: int -> int, b1: int -> int, dst: int, src: int, count: int) {
    && SameBytes(b0, b1, dst, src, count)
    && (forall x :: x < dst || dst + count <= x ==> b1(x) == b0(x))
  }

  lemma NothingCopied(b: int -> int, dst: int, src: int)
    ensures CopiedTo(b, b, dst, src, 0)
  {
  }

  lemma CopyStep(b0: int -> int, b1: int -> int, b2: int -> int, dst: int, src: int, k: int, count: int)
    requires CopiedTo(b0, b1, dst, src, k) && 0 <= k < count && (src + count <= dst || dst + count <= src)
    requires b2(dst + k) == b1(src + k) && forall y :: y != dst + k ==> b2(y) == b1(y)
    ensures CopiedTo(b0, b2, dst, src, k + 1)
  {
  }

  /** The block at `b`, of size `m`, replaces the block at `a`. */
  ghost predicate Moved(ns: seq<Node>, ns': seq<Node>, a: int, b: int, m: int) {
    && !Live(ns, b, m)
    && forall x, l :: Live(ns', x, l) <==> (Live(ns, x, l) && x != a) || (x == b && l == m)
  }

  lemma MovedIs(ns: seq<Node>, ns1: seq<Node>, ns2: seq<Node>, a: int, b: int, m: int)
    requires !Live(ns, b, m) && a != b
    requires forall y, k :: Live(ns1, y, k) <==> Live(ns, y, k) || (y == b && k == m)
    requires forall y, k :: Live(ns2, y, k) <==> Live(ns1, y, k) && y != a
    ensures Moved(ns, ns2, a, b, m)
  {
    hide Live;
  }

  lemma RoundUp(size: int)
    requires size >= 0
    ensures size <= Round16(size)
  {
  }

  lemma LiveAbove(ns: seq<Node>)
    requires Layout(ns)
    ensures forall a, l :: Live(ns, a, l) ==> a > 0
  {
  }

  ghost function LiveIndex(ns: seq<Node>, a: int, l: int): (i: nat)
    requires Layout(ns) && Live(ns, a, l)
    ensures 1 <= i < |ns| && ns[i] == Node(a, l, false)
  {
    var i :| 0 <= i < |ns| && ns[i] == Node(a, l, false);
    i
  }

  lemma StoreInPayload(h0: Headers, h1: Headers, ns: seq<Node>, a: int, l: int, x: int)
    requires Layout(ns) && Represents(h0, ns) && Live(ns, a, l) && a + H <= x < a + H + l
    requires forall k :: k + H <= x || x < k ==> h1(k) == h0(k)
    ensures Represents(h1, ns)
  {
    PayloadIsLive(ns, x);
    hide Layout, InPayload, Represents, Live;
    forall j | 0 <= j < |ns|
      ensures h1(ns[j].addr) == HeaderOf(ns, j)
    {
      HeadersOutsidePayloads(ns, j, x);
      RepresentsAt(h0, ns, j);
    }
    RepresentsAll(h1, ns);
  }

  lemma PayloadsKeptAt(ns: seq<Node>, b0: int -> int, b1: int -> int)
    requires PayloadsKept(ns, b0, b1)
    ensures forall x :: InPayload(ns, x) ==> b1(x) == b0(x)
  {
  }

  lemma ReallocApart(ns: seq<Node>, ns1: seq<Node>, a: int, l: int, b: int, m: int)
    requires Layout(ns) && Layout(ns1) && Live(ns, a, l) && Live(ns1, a, l) && Live(ns1, b, m) && !Live(ns, b, m)
    ensures a != b && (a + H + l <= b || b + H + m <= a)
  {
    LiveDisjoint(ns1, a, l, b, m);
  }

  /** A payload byte that does not belong to the block at `a` is still live after that block is gone. */
  lemma StillLive(ns: seq<Node>, ns1: seq<Node>, ns2: seq<Node>, a: int, l: int, x: int)
    requires Layout(ns) && Layout(ns1) && Layout(ns2) && InPayload(ns, x) && !(a + H <= x < a + H + l)
    requires Live(ns, a, l)
    requires forall y, k :: Live(ns, y, k) ==> Live(ns1, y, k)
    requires forall y, k :: Live(ns2, y, k) <==> Live(ns1, y, k) && y != a
    ensures InPayload(ns1, x) && InPayload(ns2, x)
    ensures forall b, m :: Live(ns1, b, m) && !Live(ns, b, m) ==> !(b + H <= x < b + H + m)
  {
    PayloadIsLive(ns, x);
    PayloadIsLive(ns1, x);
    PayloadIsLive(ns2, x);
    var y, k :| Live(ns, y, k) && y + H <= x < y + H + k;
    SameAddress(ns, a, l, y, k);
    hide InPayload, Layout, Live;
    forall b, m | Live(ns1, b, m) && !Live(ns, b, m)
      ensures !(b + H <= x < b + H + m)
    {
      LiveDisjoint(ns1, y, k, b, m);
    }
  }

  lemma SameAddress(ns: seq<Node>, a: int, l: int, b: int, m: int)
    requires Layout(ns) && Live(ns, a, l) && Live(ns, b, m) && (a != b || l != m)
    ensures a != b
  {
    LiveDisjoint(ns, a, l, b, m);
  }

  lemma ReallocBytes(ns: seq<Node>, ns1: seq<Node>, ns2: seq<Node>,
                     b0: int -> int, b1: int -> int, b2: int -> int, b3: int -> int,
                     buffer: int, l: int, r: int, m: int, count: int)
    requires Layout(ns) && Layout(ns1) && Layout(ns2)
    requires Live(ns, buffer - H, l) && Live(ns1, r - H, m) && !Live(ns, r - H, m) && count <= l && count <= m
    requires forall y, k :: Live(ns1, y, k) <==> Live(ns, y, k) || (y == r - H && k == m)
    requires forall y, k :: Live(ns2, y, k) <==> Live(ns1, y, k) && y != buffer - H
    requires PayloadsKept(ns, b0, b1) && CopiedTo(b1, b2, r, buffer, count) && PayloadsKept(ns2, b2, b3)
    ensures SameBytes(b0, b3, r, buffer, count)
    ensures forall x :: InPayload(ns, x) && !(buffer <= x < buffer + l) ==> b3(x) == b0(x)
  {
    ReallocApart(ns, ns1, buffer - H, l, r - H, m);
    hide InPayload, Layout, Live;
    forall x | r <= x < r + count
      ensures b3(x) == b0(buffer + (x - r))
    {
      assert Live(ns2, r - H, m);
      PayloadIsLive(ns2, x);
      PayloadIsLive(ns, buffer + (x - r));
    }
    forall x | InPayload(ns, x) && !(buffer <= x < buffer + l)
      ensures b3(x) == b0(x)
    {
      StillLive(ns, ns1, ns2, buffer - H, l, x);
    }
  }

  lemma SplitIsWritten(h0: Headers, h1: Headers, h2: Headers, h3: Headers, ns: seq<Node>, i: nat, size: int)
    requires 1 <= i < |ns|
    requires HeaderWritten(h0, h1, ns[i].addr + ns[i].len - size,
      Header(true, size, ns[i].addr, ns[i - 1].addr, false, SIGNATURE))
    requires HeaderWritten(h1, h2, ns[i - 1].addr, h1(ns[i - 1].addr).(next := ns[i].addr + ns[i].len - size))
    requires HeaderWritten(h2, h3, ns[i].addr,
      h2(ns[i].addr).(last := ns[i].addr + ns[i].len - size, length := ns[i].len - (size + H)))
    ensures SplitWrites(h0, h1, h2, h3, ns, i, size)
  {
    hide HeaderWritten;
  }

  /** The heap of one page. */
  function InitialNodes(end: int): seq<Node> {
    [Node(end - H, 0, false), Node(end - PAGE, PAGE - 2 * H, true)]
  }

  lemma InitialList(end: int, h0: Headers, h1: Headers, h2: Headers)
    requires end % 16 == 0 && end > PAGE
    requires HeaderWritten(h0, h1, end - H, Header(false, 0, end - PAGE, 0, false, SIGNATURE))
    requires HeaderWritten(h1, h2, end - PAGE, Header(true, PAGE - H - H, 0, end - H, false, SIGNATURE))
    ensures Layout(InitialNodes(end)) && NoAdjacentFree(InitialNodes(end)) && Represents(h2, InitialNodes(end))
    ensures Books(InitialNodes(end), 0, PAGE, PAGE, 0, 0)
    ensures var ns := InitialNodes(end);
      |ns| == 2 && ns[0] == Node(end - H, 0, false) && ns[1] == Node(end - PAGE, PAGE - 2 * H, true)
  {
    var a, b := Node(end - H, 0, false), Node(end - PAGE, PAGE - 2 * H, true);
    assert [a, b] == [a] + [b];
    SumsTwo(a, b);
    assert Far(a.addr, b.addr);
  }

  // ----- expansion

  /** The two header writes of expand_heap. */
  ghost predicate ExpandWrites(h0: Headers, h1: Headers, h2: Headers, ns: seq<Node>, bytes: int)
    requires |ns| >= 2
  {
    var k := |ns| - 1;
    var at := ns[k].addr - bytes;
    if ns[k].free then
      && HeaderWritten(h0, h1, at, Header(true, ns[k].len + bytes - H, 0, ns[k - 1].addr, false, SIGNATURE))
      && HeaderWritten(h1, h2, ns[k - 1].addr, h1(ns[k - 1].addr).(next := at))
    else
      && HeaderWritten(h0, h1, at, Header(true, bytes - H, 0, ns[k].addr, false, SIGNATURE))
      && HeaderWritten(h1, h2, ns[k].addr, h1(ns[k].addr).(next := at))
  }

  lemma ExpandIsWritten(h0: Headers, h1: Headers, h2: Headers, ns: seq<Node>, bytes: int)
    requires |ns| >= 2
    requires var k := |ns| - 1;
      var at := ns[k].addr - bytes;
      if ns[k].free then
        && HeaderWritten(h0, h1, at, Header(true, ns[k].len + bytes - H, 0, ns[k - 1].addr, false, SIGNATURE))
        && HeaderWritten(h1, h2, ns[k - 1].addr, h1(ns[k - 1].addr).(next := at))
      else
        && HeaderWritten(h0, h1, at, Header(true, bytes - H, 0, ns[k].addr, false, SIGNATURE))
        && HeaderWritten(h1, h2, ns[k].addr, h1(ns[k].addr).(next := at))
    ensures ExpandWrites(h0, h1, h2, ns, bytes)
  {
    hide HeaderWritten;
  }

  lemma TwoWrites(h0: Headers, h1: Headers, h2: Headers, a1: int, x1: Header, a2: int, x2: Header)
    requires HeaderWritten(h0, h1, a1, x1) && HeaderWritten(h1, h2, a2, x2) && Far(a1, a2) && Far(a2, a1)
    ensures h1(a2) == h0(a2) && h2(a1) == x1 && h2(a2) == x2
    ensures forall x :: Far(x, a1) && Far(x, a2) ==> h2(x) == h0(x)
  {
  }

  lemma ExpandWritten(h0: Headers, h1: Headers, h2: Headers, ns: seq<Node>, bytes: int)
    requires Layout(ns) && Represents(h0, ns) && bytes > H && ns[|ns| - 1].addr > bytes
    requires ExpandWrites(h0, h1, h2, ns, bytes)
    ensures Represents(h2, Expanded(ns, bytes))
  {
    hide Layout, Represents, Far, HeaderWritten;
    MainNotFree(ns);
    var ns' := Expanded(ns, bytes);
    var k := |ns| - 1;
    var at := ns[k].addr - bytes;
    var j0 := if ns[k].free then k - 1 else k;    // the segment whose next link changes
    ExpandApart(ns, bytes, j0);
    RepresentsAt(h0, ns, j0);
    TwoWrites(h0, h1, h2, at, if ns[k].free then Header(true, ns[k].len + bytes - H, 0, ns[k - 1].addr, false, SIGNATURE)
      else Header(true, bytes - H, 0, ns[k].addr, false, SIGNATURE), ns[j0].addr, h1(ns[j0].addr).(next := at));
    forall j | 0 <= j < |ns'|
      ensures h2(ns'[j].addr) == HeaderOf(ns', j)
    {
      if j < j0 {
        RepresentsAt(h0, ns, j);
        ExpandApart(ns, bytes, j);
        NodesFar(ns, j, j0);
      }
    }
    RepresentsAll(h2, ns');
  }

  /** The new last segment lies clear of every old header. */
  lemma ExpandApart(ns: seq<Node>, bytes: int, i: nat)
    requires Layout(ns) && bytes > H && i < |ns|
    ensures Far(ns[i].addr, ns[|ns| - 1].addr - bytes) && Far(ns[|ns| - 1].addr - bytes, ns[i].addr)
    ensures ns[i].addr != ns[|ns| - 1].addr - bytes
  {
    hide Aligned;
    if i < |ns| - 1 {
      assert ns[|ns| - 1].End() <= ns[i].addr;
    }
  }

  lemma ExpandBelow(ns: seq<Node>, bytes: int, x: int)
    requires Layout(ns) && bytes > H && InPayload(ns, x)
    ensures x >= ns[|ns| - 1].addr - bytes + H
  {
    hide Aligned;
    var j :| 1 <= j < |ns| && !ns[j].free && ns[j].addr + H <= x < ns[j].End();
    if j < |ns| - 1 {
      assert ns[|ns| - 1].End() <= ns[j].addr;
    }
  }

  lemma ExpandKeepsPayloads(ns: seq<Node>, length: int, b0: int -> int, b1: int -> int, b2: int -> int)
    requires Layout(ns) && length > H
    requires BytesKept(b0, b1, ns[|ns| - 1].addr - length)
    requires BytesKept(b1, b2, ns[if ns[|ns| - 1].free then |ns| - 2 else |ns| - 1].addr)
    ensures PayloadsKept(ns, b0, b2)
  {
    hide Layout, InPayload;
    MainNotFree(ns);
    var k := |ns| - 1;
    forall x | InPayload(ns, x)
      ensures b2(x) == b0(x)
    {
      ExpandBelow(ns, length, x);
      HeadersOutsidePayloads(ns, if ns[k].free then k - 1 else k, x);
    }
  }

  lemma NothingMoved(ns: seq<Node>, b: int -> int)
    ensures PayloadsKept(ns, b, b)
  {
  }

  lemma SplitKeepsPayloads(ns: seq<Node>, i: nat, size: int, b0: int -> int, b1: int -> int, b2: int -> int, b3: int -> int)
    requires Layout(ns) && 1 <= i < |ns| && ns[i].free && 0 < size && ns[i].len > size + H
    requires BytesKept(b0, b1, ns[i].addr + ns[i].len - size)
    requires BytesKept(b1, b2, ns[i - 1].addr) && BytesKept(b2, b3, ns[i].addr)
    ensures PayloadsKept(ns, b0, b3)
  {
    hide Layout, InPayload;
    forall x | InPayload(ns, x)
      ensures b3(x) == b0(x)
    {
      OutsideFreeSegment(ns, i, x);
      HeadersOutsidePayloads(ns, i - 1, x);
    }
  }

  lemma ExpandBooks(ns: seq<Node>, bytes: int, used: int, free: int, total: int, e: int, a: int)
    requires Layout(ns) && NoAdjacentFree(ns) && Books(ns, used, free, total, e, a)
    requires bytes > H
    ensures NoAdjacentFree(Expanded(ns, bytes)) && |Expanded(ns, bytes)| >= 2
    ensures Expanded(ns, bytes)[0] == ns[0]
    ensures Books(Expanded(ns, bytes), used, free + (bytes + H), total + (bytes + H), e + 1,
                  a + if ns[|ns| - 1].free then 1 else 0)
  {
    MainNotFree(ns);
    hide Layout, UsedSum, FreeSum;
    SumsAfterExpand(ns, bytes);
    var k := |ns| - 1;
    AdjacentAt(ns, k - 1);
  }

  /** A live payload stays live when the heap grows. */
  lemma ExpandLive(ns: seq<Node>, bytes: int)
    requires |ns| >= 2
    ensures forall a, l :: Live(Expanded(ns, bytes), a, l) <==> Live(ns, a, l)
  {
    var k := |ns| - 1;
    assert ns == ns[..k] + [ns[k]];
  }

  // ----- first fit

  /** Index of the first segment that fits, or the list's length. */
  ghost function FirstFit(ns: seq<Node>, size: int): (i: nat)
    ensures i <= |ns|
  {
    if ns == [] then 0 else if Fits(ns[0], size) then 0 else 1 + FirstFit(ns[1..], size)
  }

  /** If some segment fits, the first one was taken, split when it is long enough. */
  ghost predicate FirstFitTaken(ns: seq<Node>, ns': seq<Node>, r: int, size: int) {
    var i := FirstFit(ns, size);
    i < |ns| ==> ns' == AllocAt(ns, i, size) && r == AllocAddr(ns[i], size) + H
  }

  lemma {:induction false} FirstFitIs(ns: seq<Node>, size: int, i: nat)
    requires i <= |ns| && (forall j :: 0 <= j < i ==> !Fits(ns[j], size))
    requires i == |ns| || Fits(ns[i], size)
    ensures FirstFit(ns, size) == i
  {
    if i > 0 {
      FirstFitIs(ns[1..], size, i - 1);
    }
  }

  lemma FoundFirst(ns: seq<Node>, size: int, i: nat)
    requires i < |ns| && (forall j :: 0 <= j < i ==> !Fits(ns[j], size)) && Fits(ns[i], size)
    ensures SomeFits(ns, size) && FirstFit(ns, size) == i
  {
    FirstFitIs(ns, size, i);
  }

  lemma NoneFits(ns: seq<Node>, size: int)
    requires forall j :: 0 <= j < |ns| ==> !Fits(ns[j], size)
    ensures !SomeFits(ns, size) && FirstFit(ns, size) == |ns|
  {
    FirstFitIs(ns, size, |ns|);
  }

  lemma {:induction false} FirstFitFits(ns: seq<Node>, size: int)
    requires SomeFits(ns, size)
    ensures FirstFit(ns, size) < |ns| && Fits(ns[FirstFit(ns, size)], size)
  {
    if !Fits(ns[0], size) {
      var i :| 0 <= i < |ns| && Fits(ns[i], size);
      assert Fits(ns[1..][i - 1], size);
      FirstFitFits(ns[1..], size);
    }
  }

  lemma FirstFitNotMain(ns: seq<Node>, size: int)
    requires Layout(ns) && SomeFits(ns, size)
    ensures 1 <= FirstFit(ns, size) < |ns|
  {
    FirstFitFits(ns, size);
  }

  /** Segment `i` is the first free one that has the size exactly or more than a header to spare. */
  ghost predicate IsFirstServing(ns: seq<Node>, i: int, size: int) {
    && 0 <= i < |ns| && ns[i].free && (ns[i].len == size || ns[i].len > size + H)
    && forall j :: 0 <= j < i && ns[j].free ==> ns[j].len != size && ns[j].len <= size + H
  }

  /** If any free segment has the size exactly or more than a header to spare, the first such one is taken. */
  lemma FirstServing(ns: seq<Node>, size: int, k: nat)
    requires k < |ns| && ns[k].free && (ns[k].len == size || ns[k].len > size + H)
    ensures SomeFits(ns, size) && FirstFit(ns, size) <= k && IsFirstServing(ns, FirstFit(ns, size), size)
  {
    assert Fits(ns[k], size);
    BeforeFirst(ns, size);
    FirstFitFits(ns, size);
    hide FirstFit;
    forall j | 0 <= j < FirstFit(ns, size) && ns[j].free
      ensures ns[j].len != size && ns[j].len <= size + H
    {
      assert !Fits(ns[j], size);
    }
  }

  lemma {:induction false} BeforeFirst(ns: seq<Node>, size: int)
    ensures forall j :: 0 <= j < FirstFit(ns, size) ==> !Fits(ns[j], size)
  {
    if ns != [] && !Fits(ns[0], size) {
      BeforeFirst(ns[1..], size);
      forall j | 0 <= j < FirstFit(ns, size)
        ensures !Fits(ns[j], size)
      {
        if j > 0 {
          assert ns[1..][j - 1] == ns[j];
        }
      }
    }
  }

  lemma OnlyOneFirst(ns: seq<Node>, i: int, size: int)
    requires IsFirstServing(ns, i, size)
    ensures SomeFits(ns, size) && FirstFit(ns, size) == i
  {
    FirstServing(ns, size, i);
    hide FirstFit, SomeFits;
    assert FirstFit(ns, size) == i;
  }

  lemma ServedInPlace(ns: seq<Node>, ns': seq<Node>, r: int, size: int)
    requires SomeFits(ns, size) && FirstFit(ns, size) < |ns|
    requires r == AllocAddr(ns[FirstFit(ns, size)], size) + H
    ensures forall i :: IsFirstServing(ns, i, size) ==>
      r == ns[i].addr + H + if ns[i].len == size then 0 else ns[i].len - size
  {
    hide FirstFit, SomeFits;
    forall i | IsFirstServing(ns, i, size)
      ensures r == ns[i].addr + H + if ns[i].len == size then 0 else ns[i].len - size
    {
      OnlyOneFirst(ns, i, size);
    }
  }

  lemma NothingServes(ns: seq<Node>, size: int)
    requires !SomeFits(ns, size)
    ensures forall i :: 0 <= i < |ns| && ns[i].free ==> ns[i].len != size && ns[i].len <= size + H
    ensures forall i :: !IsFirstServing(ns, i, size)
  {
    forall i | 0 <= i < |ns| && ns[i].free
      ensures ns[i].len != size && ns[i].len <= size + H
    {
      assert !Fits(ns[i], size);
    }
    hide SomeFits, FirstFit, IsFirstServing;
    forall i
      ensures !IsFirstServing(ns, i, size)
    {
      if IsFirstServing(ns, i, size) {
        OnlyOneFirst(ns, i, size);
      }
    }
  }

  /** A block between used neighbours, freed: unless an earlier segment serves, it is the one taken for its size again. */
  lemma FreedAgain(ns: seq<Node>, i: nat)
    requires 1 <= i < |ns| && !ns[i].free && !ns[i - 1].free && (i + 1 < |ns| ==> !ns[i + 1].free)
    requires forall j :: 0 <= j < i && ns[j].free ==> ns[j].len != ns[i].len && ns[j].len <= ns[i].len + H
    ensures IsFirstServing(FreeAt(ns, i), i, ns[i].len) && FirstFit(FreeAt(ns, i), ns[i].len) == i
    ensures AllocAt(FreeAt(ns, i), i, ns[i].len) == ns && AllocAddr(FreeAt(ns, i)[i], ns[i].len) == ns[i].addr
  {
    assert FreeAt(ns, i) == SetFree(ns, i, true);
    OnlyOneFirst(FreeAt(ns, i), i, ns[i].len);
    assert ns[i := ns[i].(free := true)][i := ns[i]] == ns;
  }

  /** free followed by malloc of the same size: the same block, and the heap as it was. */
  method FreeThenMalloc(heap: Heap, address: int, request: int, ghost i: nat) returns (r: int)
    requires heap.Valid() && heap.ready && 1 <= i < |heap.nodes| && request > 0
    requires heap.nodes[i] == Node(address - H, Round16(request), false)
    requires !heap.nodes[i - 1].free && (i + 1 < |heap.nodes| ==> !heap.nodes[i + 1].free)
    requires forall j :: 0 <= j < i && heap.nodes[j].free ==>
      heap.nodes[j].len != Round16(request) && heap.nodes[j].len <= Round16(request) + H
    modifies heap
    ensures r == address && heap.Valid() && heap.nodes == old(heap.nodes)
    ensures heap.heapEnd == old(heap.heapEnd) && heap.expansions == old(heap.expansions)
    ensures PayloadsKept(FreeAt(old(heap.nodes), i), old(heap.bytes), heap.bytes)
  {
    hide Layout, Represents, Books, NoAdjacentFree, PayloadsKept, Live, SomeFits, Rank, FirstFit, AllocAt, FreeAt, Reserve,
      IsFirstServing, Round16;
    ghost var ns := heap.nodes;
    ghost var b0 := heap.bytes;
    FreedAgain(ns, i);
    ReadNode(heap.headers, ns, i);
    var panicked := heap.Free(address, i);
    ghost var b1 := heap.bytes;
    ServingReserve(heap.nodes, Round16(request), i);
    ReadNode(heap.headers, heap.nodes, |heap.nodes| - 1);
    r := heap.Malloc(request);
    PayloadsAgain(FreeAt(ns, i), b0, b1, heap.bytes);
  }

  lemma ServingReserve(ns: seq<Node>, size: int, i: nat)
    requires IsFirstServing(ns, i, size) && size > 0
    ensures Reserve(ns, size) == 0 && |ns| > 0
  {
    OnlyOneFirst(ns, i, size);
    hide SomeFits, FirstFit;
  }

  lemma PayloadsAgain(ns: seq<Node>, b0: int -> int, b1: int -> int, b2: int -> int)
    requires PayloadsKept(ns, b0, b1) && PayloadsKept(ns, b1, b2)
    ensures PayloadsKept(ns, b0, b2)
  {
    hide InPayload;
  }

  lemma OneExpansion(ns: seq<Node>, size: int)
    requires Layout(ns) && size > 0 && size % 16 == 0 && !SomeFits(ns, size)
    ensures |ns| >= 2
    ensures Rank(Expanded(ns, ExpandBytes(size)), size) < Rank(ns, size)
    ensures Reserve(ns, size) >= ExpandBytes(size) + Reserve(Expanded(ns, ExpandBytes(size)), size)
    ensures ExpandBytes(size) > 0
  {
    ExpansionHelps(ns, size);
  }

  lemma NodesDisjoint(ns: seq<Node>, i: nat, j: nat)
    requires Layout(ns) && i < |ns| && j < |ns| && i != j
    ensures ns[i].End() <= ns[j].addr || ns[j].End() <= ns[i].addr
  {
  }

  /** The new block was not live before. */
  lemma AllocNew(ns: seq<Node>, i: nat, size: int)
    requires Layout(ns) && 1 <= i < |ns| && Fits(ns[i], size) && size > 0
    ensures !Live(ns, AllocAddr(ns[i], size), size)
  {
    hide Aligned;
    if Live(ns, AllocAddr(ns[i], size), size) {
      var j :| 0 <= j < |ns| && ns[j] == Node(AllocAddr(ns[i], size), size, false);
      if i != j {
        NodesDisjoint(ns, i, j);
      }
    }
  }

  lemma SetFreeNode(ns: seq<Node>, i: nat)
    requires i < |ns|
    ensures |SetFree(ns, i, false)| == |ns| && SetFree(ns, i, false)[i] == ns[i].(free := false)
  {
  }

  lemma TakeKeepsPayloads(ns: seq<Node>, mid: seq<Node>, i: nat, b0: int -> int, b1: int -> int, b2: int -> int)
    requires Layout(ns) && i < |ns| && ns[i].free && i < |mid|
    requires PayloadsKept(ns, b0, b1) && BytesKept(b1, b2, mid[i].addr)
    requires ns[i].addr <= mid[i].addr && mid[i].addr + H <= ns[i].End()
    ensures PayloadsKept(ns, b0, b2)
  {
    hide Layout, InPayload;
    forall x | InPayload(ns, x)
      ensures b2(x) == b0(x)
    {
      OutsideFreeSegment(ns, i, x);
    }
  }

  lemma ExpandPayloads(ns: seq<Node>, length: int, b0: int -> int, b1: int -> int, b2: int -> int)
    requires Layout(ns) && PayloadsKept(ns, b0, b1) && PayloadsKept(Expanded(ns, length), b1, b2)
    ensures PayloadsKept(ns, b0, b2)
  {
    MainNotFree(ns);
    forall x | InPayload(ns, x)
      ensures InPayload(Expanded(ns, length), x)
    {
      var j :| 1 <= j < |ns| && !ns[j].free && ns[j].addr + H <= x < ns[j].End();
      assert Expanded(ns, length)[j] == ns[j];
    }
  }

  // ----- merging

  lemma MergeIsWritten(h0: Headers, h1: Headers, h2: Headers, h3: Headers, ns: seq<Node>, i: nat)
    requires 1 <= i < |ns| - 1
    requires HeaderWritten(h0, h1, ns[i + 1].addr,
      h0(ns[i + 1].addr).(length := ns[i + 1].len + (ns[i].len + H), last := ns[i - 1].addr))
    requires HeaderWritten(h1, h2, ns[i - 1].addr, h1(ns[i - 1].addr).(next := ns[i + 1].addr))
    requires HeaderWritten(h2, h3, ns[i].addr, ZERO_HEADER)
    ensures MergeWrites(h0, h1, h2, h3, ns, i)
  {
    hide HeaderWritten;
  }

  lemma MergedPayload(ns: seq<Node>, i: nat, x: int)
    requires Layout(ns) && 1 <= i < |ns| - 1 && ns[i].free && ns[i + 1].free
    requires InPayload(MergedNext(ns, i), x)
    ensures InPayload(ns, x)
  {
    hide Layout, InPayload, Live, MergedNext;
    MergedNextLayout(ns, i);
    MergeLive(ns, i);
    PayloadIsLive(MergedNext(ns, i), x);
    PayloadIsLive(ns, x);
  }

  lemma MergeKeepsPayloads(ns: seq<Node>, i: nat, b0: int -> int, b1: int -> int, b2: int -> int, b3: int -> int)
    requires Layout(ns) && 1 <= i < |ns| - 1 && ns[i].free && ns[i + 1].free
    requires BytesKept(b0, b1, ns[i + 1].addr) && BytesKept(b1, b2, ns[i - 1].addr) && BytesKept(b2, b3, ns[i].addr)
    ensures PayloadsKept(MergedNext(ns, i), b0, b3)
  {
    hide Layout, InPayload, MergedNext;
    forall x | InPayload(MergedNext(ns, i), x)
      ensures b3(x) == b0(x)
    {
      MergedPayload(ns, i, x);
      HeadersOutsidePayloads(ns, i + 1, x);
      HeadersOutsidePayloads(ns, i - 1, x);
      HeadersOutsidePayloads(ns, i, x);
    }
  }

  /** Payloads kept before and during a merge are kept over both. */
  lemma MergePayloads(ns: seq<Node>, i: nat, b0: int -> int, b1: int -> int, b2: int -> int)
    requires Layout(ns) && 1 <= i < |ns| - 1 && ns[i].free && ns[i + 1].free
    requires PayloadsKept(ns, b0, b1) && PayloadsKept(MergedNext(ns, i), b1, b2)
    ensures PayloadsKept(MergedNext(ns, i), b0, b2)
  {
    hide Layout, InPayload, MergedNext;
    forall x | InPayload(MergedNext(ns, i), x)
      ensures b2(x) == b0(x)
    {
      MergedPayload(ns, i, x);
    }
  }

  lemma FlagKeepsPayloads(ns: seq<Node>, i: nat, b0: int -> int, b1: int -> int)
    requires Layout(ns) && 1 <= i < |ns| && BytesKept(b0, b1, ns[i].addr)
    ensures PayloadsKept(SetFree(ns, i, true), b0, b1)
  {
    SetFreeLayout(ns, i, true);
    hide Layout, InPayload;
    forall x | InPayload(SetFree(ns, i, true), x)
      ensures b1(x) == b0(x)
    {
      HeadersOutsidePayloads(SetFree(ns, i, true), i, x);
    }
  }
}
