/** The segment list of the kernel heap as a value: geometry, links and the effect of each list operation. */
module HeapList {

  const H: int := 48        // sizeof(struct heap_segment_header), aligned to 16
  const PAGE: int := 4096
  const SIGNATURE: int := 0xCAFE_BABE

  datatype Header = Header(free: bool, length: int, next: int, last: int, isStack: bool, signature: int)

  const ZERO_HEADER := Header(false, 0, 0, 0, false, 0)

  /** One segment: address of its header, payload length, free flag. The list runs from high to low addresses. */
  datatype Node = Node(addr: int, len: int, free: bool) {
    /** First address behind the payload. */
    function End(): int {
      addr + H + len
    }
  }

  type Headers = int -> Header

  function HeaderOf(ns: seq<Node>, i: nat): Header
    requires i < |ns|
  {
    Header(ns[i].free, ns[i].len,
           if i + 1 < |ns| then ns[i + 1].addr else 0,
           if i > 0 then ns[i - 1].addr else 0,
           false, SIGNATURE)
  }

  /** Memory holds the doubly linked list `ns`. */
  ghost predicate Represents(hs: Headers, ns: seq<Node>) {
    forall i :: 0 <= i < |ns| ==> hs(ns[i].addr) == HeaderOf(ns, i)
  }

  /** Segments in strictly descending order, each ending at or below the previous one. */
  ghost predicate Descending(ns: seq<Node>) {
    forall i, j :: 0 <= i < j < |ns| ==> ns[j].End() <= ns[i].addr
  }

  ghost predicate Aligned(ns: seq<Node>) {
    forall i :: 0 <= i < |ns| ==> ns[i].addr % 16 == 0 && ns[i].len % 16 == 0
  }

  ghost predicate Sized(ns: seq<Node>) {
    && |ns| >= 2
    && ns[0].len == 0 && !ns[0].free
    && (forall i :: 0 <= i < |ns| ==> ns[i].addr > 0)
    && (forall i :: 1 <= i < |ns| ==> ns[i].len > 0)
  }

  /** Descending, aligned, disjoint segments; the first one is the empty main segment. */
  ghost predicate Layout(ns: seq<Node>) {
    Sized(ns) && Aligned(ns) && Descending(ns)
  }

  ghost predicate NoAdjacentFree(ns: seq<Node>) {
    forall i :: 0 <= i < |ns| - 1 ==> !(ns[i].free && ns[i + 1].free)
  }

  /** A payload handed out by malloc: header address `a`, length `l`. */
  ghost predicate Live(ns: seq<Node>, a: int, l: int) {
    l > 0 && Node(a, l, false) in ns
  }

  /** Address `x` lies in a live payload. */
  ghost predicate InPayload(ns: seq<Node>, x: int) {
    exists i :: 1 <= i < |ns| && !ns[i].free && ns[i].addr + H <= x < ns[i].End()
  }

  // ----- header writes

  predicate Far(a: int, b: int) {
    a + H <= b || b + H <= a
  }

  /** Writing a header at `a` says nothing about headers that would overlap it. */
  ghost predicate HeaderWritten(hs: Headers, hs': Headers, a: int, h: Header) {
    hs'(a) == h && forall k :: Far(k, a) ==> hs'(k) == hs(k)
  }

  lemma NodesFar(ns: seq<Node>, i: nat, j: nat)
    requires Layout(ns) && i < |ns| && j < |ns| && i != j
    ensures Far(ns[i].addr, ns[j].addr) && ns[i].addr != ns[j].addr
  {
  }

  // ----- list operations

  function SetFree(ns: seq<Node>, i: nat, free: bool): seq<Node>
    requires i < |ns|
  {
    ns[i := ns[i].(free := free)]
  }

  /** splitSegment: the upper part of segment `i` becomes a new segment of `size` bytes. */
  function Split(ns: seq<Node>, i: nat, size: int): seq<Node>
    requires i < |ns|
  {
    ns[..i] + [Node(ns[i].addr + ns[i].len - size, size, true)]
      + [ns[i].(len := ns[i].len - size - H)] + ns[i + 1..]
  }

  /** MergeThisToNext: segment `i + 1` takes over segment `i`. */
  function MergedNext(ns: seq<Node>, i: nat): seq<Node>
    requires i + 1 < |ns|
  {
    ns[..i] + [ns[i + 1].(len := ns[i + 1].len + ns[i].len + H)] + ns[i + 2..]
  }

  /** expand_heap by `bytes` bytes below the last segment. */
  function Expanded(ns: seq<Node>, bytes: int): seq<Node>
    requires |ns| >= 2
  {
    var k := |ns| - 1;
    var at := ns[k].addr - bytes;
    if ns[k].free then ns[..k] + [Node(at, ns[k].len + bytes - H, true)]
    else ns + [Node(at, bytes - H, true)]
  }

  lemma SplitNodes(ns: seq<Node>, i: nat, size: int)
    requires i < |ns|
    ensures |Split(ns, i, size)| == |ns| + 1
    ensures Split(ns, i, size)[i] == Node(ns[i].addr + ns[i].len - size, size, true)
    ensures Split(ns, i, size)[i + 1] == Node(ns[i].addr, ns[i].len - size - H, ns[i].free)
    ensures forall j :: 0 <= j < i ==> Split(ns, i, size)[j] == ns[j]
    ensures forall j :: i + 1 < j <= |ns| ==> Split(ns, i, size)[j] == ns[j - 1]
  {
  }

  lemma MergedNodes(ns: seq<Node>, i: nat)
    requires i + 1 < |ns|
    ensures |MergedNext(ns, i)| == |ns| - 1
    ensures MergedNext(ns, i)[i] == Node(ns[i + 1].addr, ns[i + 1].len + ns[i].len + H, ns[i + 1].free)
    ensures forall j :: 0 <= j < i ==> MergedNext(ns, i)[j] == ns[j]
    ensures forall j :: i < j < |ns| - 1 ==> MergedNext(ns, i)[j] == ns[j + 1]
  {
  }

  lemma SplitDescending(ns: seq<Node>, i: nat, size: int)
    requires Descending(ns) && i < |ns| && size >= 0 && ns[i].len >= size + H
    ensures Descending(Split(ns, i, size))
  {
    SplitNodes(ns, i, size);
    hide Split;
    var ns' := Split(ns, i, size);
    forall j, k | 0 <= j < k < |ns'|
      ensures ns'[k].End() <= ns'[j].addr
    {
      var j', k' := if j <= i then j else j - 1, if k <= i then k else k - 1;
      assert ns'[k].End() <= ns[k'].End() && ns[j'].addr <= ns'[j].addr;
      if j' != k' {
        assert ns[k'].End() <= ns[j'].addr;
      }
    }
  }

  lemma SplitLayout(ns: seq<Node>, i: nat, size: int)
    requires Layout(ns) && 1 <= i < |ns|
    requires size > 0 && size % 16 == 0 && ns[i].len > size + H
    ensures Layout(Split(ns, i, size)) && |Split(ns, i, size)| == |ns| + 1
  {
    SplitNodes(ns, i, size);
    SplitDescending(ns, i, size);
    SplitAligned(ns, i, size);
    hide Split, Descending, Aligned;
  }

  lemma PartsAligned(n: Node, size: int)
    requires n.addr % 16 == 0 && n.len % 16 == 0 && size % 16 == 0
    ensures (n.addr + n.len - size) % 16 == 0 && (n.len - size - H) % 16 == 0
  {
  }

  lemma SplitAligned(ns: seq<Node>, i: nat, size: int)
    requires Aligned(ns) && i < |ns| && size % 16 == 0
    ensures Aligned(Split(ns, i, size))
  {
    SplitNodes(ns, i, size);
    hide Split;
    var ns' := Split(ns, i, size);
    forall j | 0 <= j < |ns'|
      ensures ns'[j].addr % 16 == 0 && ns'[j].len % 16 == 0
    {
      var k := if j <= i then j else j - 1;
      assert ns[k].addr % 16 == 0 && ns[k].len % 16 == 0;
      PartsAligned(ns[i], size);
    }
  }

  lemma MergedDescending(ns: seq<Node>, i: nat)
    requires Descending(ns) && i + 1 < |ns|
    ensures Descending(MergedNext(ns, i))
  {
    MergedNodes(ns, i);
    hide MergedNext;
    var ns' := MergedNext(ns, i);
    assert ns[i + 1].End() <= ns[i].addr;
    forall j, k | 0 <= j < k < |ns'|
      ensures ns'[k].End() <= ns'[j].addr
    {
      var j', k' := if j < i then j else j + 1, if k < i then k else k + 1;
      if k == i {
        assert ns[i].End() <= ns[j'].addr;
      } else {
        assert ns[k'].End() <= ns[j'].addr;
      }
    }
  }

  lemma MergedNextLayout(ns: seq<Node>, i: nat)
    requires Layout(ns) && 1 <= i < |ns| - 1
    ensures Layout(MergedNext(ns, i)) && |MergedNext(ns, i)| == |ns| - 1
  {
    MergedNodes(ns, i);
    MergedDescending(ns, i);
    hide MergedNext, Descending;
    var ns' := MergedNext(ns, i);
    forall j | 0 <= j < |ns'|
      ensures ns'[j].addr % 16 == 0 && ns'[j].len % 16 == 0
    {
      if j == i {
        assert ns[i].len % 16 == 0 && ns[i + 1].len % 16 == 0;
      }
    }
  }

  lemma ExpandedLayout(ns: seq<Node>, bytes: int)
    requires Layout(ns) && bytes > H && bytes % 16 == 0 && ns[|ns| - 1].addr > bytes
    ensures Layout(Expanded(ns, bytes))
    ensures Expanded(ns, bytes)[|Expanded(ns, bytes)| - 1].addr == ns[|ns| - 1].addr - bytes
  {
    hide Aligned;
    ExpandedAligned(ns, bytes);
    var ns' := Expanded(ns, bytes);
    var k := |ns| - 1;
    forall i, j | 0 <= i < j < |ns'|
      ensures ns'[j].End() <= ns'[i].addr
    {
      if j == |ns'| - 1 {
        assert ns'[j].End() <= ns[k].End();
        if i < k {
          assert ns[k].End() <= ns[i].addr;
        }
      }
    }
  }

  lemma ExpandedAligned(ns: seq<Node>, bytes: int)
    requires |ns| >= 2 && Aligned(ns) && bytes % 16 == 0
    ensures Aligned(Expanded(ns, bytes))
  {
    var k := |ns| - 1;
    StretchAligned(ns[k], bytes);
    AlignedSnoc(ns[..k], Node(ns[k].addr - bytes, ns[k].len + bytes - H, true));
    AlignedSnoc(ns, Node(ns[k].addr - bytes, bytes - H, true));
  }

  lemma StretchAligned(n: Node, bytes: int)
    requires n.addr % 16 == 0 && n.len % 16 == 0 && bytes % 16 == 0
    ensures (n.addr - bytes) % 16 == 0 && (n.len + bytes - H) % 16 == 0 && (bytes - H) % 16 == 0
  {
  }

  lemma AlignedSnoc(ns: seq<Node>, n: Node)
    requires Aligned(ns) && n.addr % 16 == 0 && n.len % 16 == 0
    ensures Aligned(ns + [n])
  {
  }

  lemma SetFreeLayout(ns: seq<Node>, i: nat, free: bool)
    requires Layout(ns) && 1 <= i < |ns|
    ensures Layout(SetFree(ns, i, free))
  {
    var ns' := SetFree(ns, i, free);
    assert forall j :: 0 <= j < |ns| ==> ns'[j].addr == ns[j].addr && ns'[j].End() == ns[j].End();
  }

  // ----- operations on memory represent operations on the list

  /** Changing one header in place. */
  lemma FlagWritten(hs: Headers, hs': Headers, ns: seq<Node>, i: nat, free: bool)
    requires Layout(ns) && Represents(hs, ns) && 1 <= i < |ns|
    requires HeaderWritten(hs, hs', ns[i].addr, hs(ns[i].addr).(free := free))
    ensures Represents(hs', SetFree(ns, i, free))
  {
    hide Layout, Represents;
    var ns' := SetFree(ns, i, free);
    forall j | 0 <= j < |ns'|
      ensures hs'(ns'[j].addr) == HeaderOf(ns', j)
    {
      RepresentsAt(hs, ns, j);
      if j != i {
        NodesFar(ns, j, i);
      }
      assert HeaderOf(ns', j) == HeaderOf(ns, j).(free := ns'[j].free);
    }
    RepresentsAll(hs', ns');
  }

  /** Three headers written one after the other, none overlapping another. */
  lemma ThreeWrites(h0: Headers, h1: Headers, h2: Headers, h3: Headers,
                    a1: int, x1: Header, a2: int, x2: Header, a3: int, x3: Header)
    requires HeaderWritten(h0, h1, a1, x1) && HeaderWritten(h1, h2, a2, x2) && HeaderWritten(h2, h3, a3, x3)
    requires Far(a1, a2) && Far(a1, a3) && Far(a2, a3)
    ensures h1(a2) == h0(a2) && h2(a3) == h0(a3)
    ensures h3(a1) == x1 && h3(a2) == x2 && h3(a3) == x3
    ensures forall x :: Far(x, a1) && Far(x, a2) && Far(x, a3) ==> h3(x) == h0(x)
  {
  }

  lemma RepresentsAt(hs: Headers, ns: seq<Node>, i: nat)
    requires Represents(hs, ns) && i < |ns|
    ensures hs(ns[i].addr) == HeaderOf(ns, i)
  {
  }

  lemma RepresentsAll(hs: Headers, ns: seq<Node>)
    requires forall j :: 0 <= j < |ns| ==> hs(ns[j].addr) == HeaderOf(ns, j)
    ensures Represents(hs, ns)
  {
  }

  /** The three header writes of splitSegment. */
  ghost predicate SplitWrites(h0: Headers, h1: Headers, h2: Headers, h3: Headers, ns: seq<Node>, i: nat, size: int)
    requires 1 <= i < |ns|
  {
    var at := ns[i].addr + ns[i].len - size;
    && HeaderWritten(h0, h1, at, Header(true, size, ns[i].addr, ns[i - 1].addr, false, SIGNATURE))
    && HeaderWritten(h1, h2, ns[i - 1].addr, h1(ns[i - 1].addr).(next := at))
    && HeaderWritten(h2, h3, ns[i].addr, h2(ns[i].addr).(last := at, length := ns[i].len - (size + H)))
  }

  lemma EndsBelow(ns: seq<Node>, i: nat)
    requires Layout(ns) && 1 <= i < |ns|
    ensures ns[i].addr + H + ns[i].len <= ns[i - 1].addr && ns[i].len >= 0
  {
    hide Aligned;
    assert ns[i].End() <= ns[i - 1].addr;
  }

  lemma SplitTouched(h0: Headers, h1: Headers, h2: Headers, h3: Headers, ns: seq<Node>, i: nat, size: int)
    requires Layout(ns) && Represents(h0, ns) && 1 <= i < |ns|
    requires size > 0 && ns[i].len > size + H
    requires SplitWrites(h0, h1, h2, h3, ns, i, size)
    ensures var ns' := Split(ns, i, size);
      && |ns'| == |ns| + 1
      && h3(ns'[i - 1].addr) == HeaderOf(ns', i - 1)
      && h3(ns'[i].addr) == HeaderOf(ns', i)
      && h3(ns'[i + 1].addr) == HeaderOf(ns', i + 1)
    ensures forall x :: Far(x, ns[i].addr + ns[i].len - size) && Far(x, ns[i - 1].addr) && Far(x, ns[i].addr) ==>
      h3(x) == h0(x)
  {
    hide Split, Layout, Represents, HeaderWritten;
    SplitNodes(ns, i, size);
    var at, up, down := ns[i].addr + ns[i].len - size, ns[i - 1].addr, ns[i].addr;
    EndsBelow(ns, i);
    RepresentsAt(h0, ns, i - 1);
    RepresentsAt(h0, ns, i);
    ThreeWrites(h0, h1, h2, h3, at, Header(true, size, down, up, false, SIGNATURE), up, h1(up).(next := at),
      down, h2(down).(last := at, length := ns[i].len - (size + H)));
  }

  lemma SplitWritten(h0: Headers, h1: Headers, h2: Headers, h3: Headers, ns: seq<Node>, i: nat, size: int)
    requires Layout(ns) && Represents(h0, ns) && 1 <= i < |ns|
    requires size > 0 && size % 16 == 0 && ns[i].len > size + H
    requires SplitWrites(h0, h1, h2, h3, ns, i, size)
    ensures Represents(h3, Split(ns, i, size))
  {
    hide *;
    var ns' := Split(ns, i, size);
    forall j | 0 <= j < |ns'|
      ensures h3(ns'[j].addr) == HeaderOf(ns', j)
    {
      SplitAt(h0, h1, h2, h3, ns, i, size, j);
    }
    RepresentsAll(h3, ns');
  }

  lemma SplitAt(h0: Headers, h1: Headers, h2: Headers, h3: Headers, ns: seq<Node>, i: nat, size: int, j: nat)
    requires Layout(ns) && Represents(h0, ns) && 1 <= i < |ns|
    requires size > 0 && size % 16 == 0 && ns[i].len > size + H
    requires SplitWrites(h0, h1, h2, h3, ns, i, size) && j < |Split(ns, i, size)|
    ensures h3(Split(ns, i, size)[j].addr) == HeaderOf(Split(ns, i, size), j)
  {
    hide *;
    SplitLayout(ns, i, size);
    SplitNodes(ns, i, size);
    SplitTouched(h0, h1, h2, h3, ns, i, size);
    if j < i - 1 || j > i + 1 {
      SplitUntouched(h0, h3, ns, Split(ns, i, size), i, j);
    }
  }

  lemma SplitUntouched(h0: Headers, h3: Headers, ns: seq<Node>, ns': seq<Node>, i: nat, j: nat)
    requires Layout(ns') && Represents(h0, ns) && 1 <= i < |ns| && |ns'| == |ns| + 1
    requires forall k :: 0 <= k < i ==> ns'[k] == ns[k]
    requires forall k :: i + 1 < k <= |ns| ==> ns'[k] == ns[k - 1]
    requires ns'[i + 1].addr == ns[i].addr
    requires j < |ns'| && (j < i - 1 || j > i + 1)
    requires forall x :: Far(x, ns'[i].addr) && Far(x, ns[i - 1].addr) && Far(x, ns[i].addr) ==> h3(x) == h0(x)
    ensures h3(ns'[j].addr) == HeaderOf(ns', j)
  {
    hide Layout, Represents, Far;
    NodesFar(ns', j, i);
    NodesFar(ns', j, i - 1);
    NodesFar(ns', j, i + 1);
    RepresentsAt(h0, ns, if j < i then j else j - 1);
  }

  /** The three header writes of MergeThisToNext. */
  ghost predicate MergeWrites(h0: Headers, h1: Headers, h2: Headers, h3: Headers, ns: seq<Node>, i: nat)
    requires 1 <= i < |ns| - 1
  {
    && HeaderWritten(h0, h1, ns[i + 1].addr,
         h0(ns[i + 1].addr).(length := ns[i + 1].len + (ns[i].len + H), last := ns[i - 1].addr))
    && HeaderWritten(h1, h2, ns[i - 1].addr, h1(ns[i - 1].addr).(next := ns[i + 1].addr))
    && HeaderWritten(h2, h3, ns[i].addr, ZERO_HEADER)
  }

  lemma MergeTouched(h0: Headers, h1: Headers, h2: Headers, h3: Headers, ns: seq<Node>, i: nat)
    requires Layout(ns) && Represents(h0, ns) && 1 <= i < |ns| - 1
    requires MergeWrites(h0, h1, h2, h3, ns, i)
    ensures var ns' := MergedNext(ns, i);
      && |ns'| == |ns| - 1
      && h3(ns'[i - 1].addr) == HeaderOf(ns', i - 1)
      && h3(ns'[i].addr) == HeaderOf(ns', i)
    ensures forall x :: Far(x, ns[i + 1].addr) && Far(x, ns[i - 1].addr) && Far(x, ns[i].addr) ==> h3(x) == h0(x)
  {
    hide MergedNext, Layout, Represents, HeaderWritten;
    MergedNodes(ns, i);
    var down, up, here := ns[i + 1].addr, ns[i - 1].addr, ns[i].addr;
    EndsBelow(ns, i);
    EndsBelow(ns, i + 1);
    RepresentsAt(h0, ns, i - 1);
    RepresentsAt(h0, ns, i + 1);
    ThreeWrites(h0, h1, h2, h3, down, h0(down).(length := ns[i + 1].len + (ns[i].len + H), last := up),
      up, h1(up).(next := down), here, ZERO_HEADER);
  }

  lemma MergeWritten(h0: Headers, h1: Headers, h2: Headers, h3: Headers, ns: seq<Node>, i: nat)
    requires Layout(ns) && Represents(h0, ns) && 1 <= i < |ns| - 1
    requires MergeWrites(h0, h1, h2, h3, ns, i)
    ensures Represents(h3, MergedNext(ns, i))
  {
    hide *;
    var ns' := MergedNext(ns, i);
    forall j | 0 <= j < |ns'|
      ensures h3(ns'[j].addr) == HeaderOf(ns', j)
    {
      MergedAt(h0, h1, h2, h3, ns, i, j);
    }
    RepresentsAll(h3, ns');
  }

  lemma MergedAt(h0: Headers, h1: Headers, h2: Headers, h3: Headers, ns: seq<Node>, i: nat, j: nat)
    requires Layout(ns) && Represents(h0, ns) && 1 <= i < |ns| - 1
    requires MergeWrites(h0, h1, h2, h3, ns, i) && j < |MergedNext(ns, i)|
    ensures h3(MergedNext(ns, i)[j].addr) == HeaderOf(MergedNext(ns, i), j)
  {
    hide *;
    MergedNodes(ns, i);
    MergeTouched(h0, h1, h2, h3, ns, i);
    if j < i - 1 || j > i {
      MergeUntouched(h0, h3, ns, MergedNext(ns, i), i, j);
    }
  }

  lemma MergeUntouched(h0: Headers, h3: Headers, ns: seq<Node>, ns': seq<Node>, i: nat, j: nat)
    requires Layout(ns) && Represents(h0, ns) && 1 <= i < |ns| - 1 && |ns'| == |ns| - 1
    requires forall k :: 0 <= k < i ==> ns'[k] == ns[k]
    requires forall k :: i < k < |ns| - 1 ==> ns'[k] == ns[k + 1]
    requires ns'[i].addr == ns[i + 1].addr
    requires j < |ns'| && (j < i - 1 || j > i)
    requires forall x :: Far(x, ns[i + 1].addr) && Far(x, ns[i - 1].addr) && Far(x, ns[i].addr) ==> h3(x) == h0(x)
    ensures h3(ns'[j].addr) == HeaderOf(ns', j)
  {
    hide Layout, Represents, Far;
    var k := if j < i then j else j + 1;
    NodesFar(ns, k, i);
    NodesFar(ns, k, i - 1);
    NodesFar(ns, k, i + 1);
    RepresentsAt(h0, ns, k);
  }
}
