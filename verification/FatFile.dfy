/** Reading a FAT32 file through its cluster chain. */
module FatFile {
  import opened Bytes
  import opened Division
  import opened FatVolume

  const EOC_FIRST: int := 0xFFF_FFF8
  const ENTRY_MASK: int := 0x1000_0000

  const WORD: int := 0x1_0000_0000

  /** First sector of a cluster. */
  function FirstSector(g: Geometry, cluster: nat): int {
    (cluster - 2) * g.clusterSize + g.dataLba
  }

  /** fat_clust_to_sect, in 32-bit arithmetic. */
  function ClusterToSector(g: Geometry, cluster: nat): nat {
    FirstSector(g, cluster) % WORD
  }

  /** fat_sect_to_clust. */
  function SectorToCluster(g: Geometry, sector: int): int
    requires g.clusterSize > 0
  {
    (sector - g.dataLba) / g.clusterSize + 2
  }

  /** Every sector of a cluster belongs to that cluster. */
  lemma ClusterOfSector(g: Geometry, cluster: nat, i: nat)
    requires cluster >= 2 && i < g.clusterSize
    ensures SectorToCluster(g, FirstSector(g, cluster) + i) == cluster
  {
    QuotientIs((cluster - 2) * g.clusterSize + i, g.clusterSize, cluster - 2, i);
  }

  /** The end-of-chain test of the file operations. */
  predicate IsEoc(entry: Word32) {
    entry % ENTRY_MASK >= EOC_FIRST
  }

  /** The FAT links the clusters `cs` in this order. */
  ghost predicate Chain(g: Geometry, disk: seq<Sector>, cs: seq<nat>) {
    && SectorsOk(disk) && |disk| <= WORD && g.clusterSize > 0 && g.fatLba > 0 && g.dataLba > 0 && |cs| > 0
    && (forall i :: 0 <= i < |cs| ==> ClusterOk(g, disk, cs[i]))
    && forall i, j :: 0 <= i && j == i + 1 && j < |cs| ==> FollowedBy(g, disk, cs[i], cs[j])
  }

  ghost predicate FollowedBy(g: Geometry, disk: seq<Sector>, a: nat, b: nat)
    requires SectorsOk(disk)
  {
    g.fatLba + a / ENTRIES < |disk| && FatEntry(g, disk, a) == b && !IsEoc(b)
  }

  ghost predicate ClusterOk(g: Geometry, disk: seq<Sector>, c: nat) {
    c >= 2 && g.fatLba + c / ENTRIES < |disk| && 0 < FirstSector(g, c) && FirstSector(g, c) + g.clusterSize <= |disk|
  }

  lemma ChainAt(g: Geometry, disk: seq<Sector>, cs: seq<nat>, i: nat)
    requires Chain(g, disk, cs) && i < |cs|
    ensures ClusterOk(g, disk, cs[i])
    ensures i + 1 < |cs| ==> FatEntry(g, disk, cs[i]) == cs[i + 1] && !IsEoc(cs[i + 1])
  {
    if i + 1 < |cs| {
      assert FollowedBy(g, disk, cs[i], cs[i + 1]);
    }
  }

  // ----- contents

  function ClusterBytes(g: Geometry): int {
    g.clusterSize * SECTOR
  }

  /** One cluster's sectors one after the other. */
  function Joined(disk: seq<Sector>, first: int, count: nat): (r: seq<Byte>)
    requires 0 <= first && first + count <= |disk|
  {
    if count == 0 then [] else Joined(disk, first, count - 1) + disk[first + count - 1]
  }

  /** The bytes of the chain: its clusters concatenated. */
  ghost function Contents(g: Geometry, disk: seq<Sector>, cs: seq<nat>): (r: seq<Byte>)
    requires forall c :: c in cs ==> ClusterOk(g, disk, c)
  {
    if cs == [] then []
    else
      var last := cs[|cs| - 1];
      assert last in cs && ClusterOk(g, disk, last);
      Contents(g, disk, cs[..|cs| - 1]) + Joined(disk, FirstSector(g, last), g.clusterSize)
  }

  lemma {:induction false} JoinedAt(disk: seq<Sector>, first: int, count: nat, s: nat, b: nat)
    requires 0 <= first && first + count <= |disk| && SectorsOk(disk)
    ensures |Joined(disk, first, count)| == count * SECTOR
    ensures s < count && b < SECTOR ==> Joined(disk, first, count)[s * SECTOR + b] == disk[first + s][b]
  {
    if count > 0 {
      JoinedAt(disk, first, count - 1, s, b);
    }
  }

  ghost predicate IsByteAt(disk: seq<Sector>, sector: int, b: nat, all: seq<Byte>, at: int) {
    0 <= sector < |disk| && b < |disk[sector]| && 0 <= at < |all| && all[at] == disk[sector][b]
  }

  /** Byte `b` of sector `s` of cluster number `k` is at its place in the contents. */
  lemma {:induction false} ContentsAt(g: Geometry, disk: seq<Sector>, cs: seq<nat>, k: nat, s: nat, b: nat)
    requires SectorsOk(disk) && forall c :: c in cs ==> ClusterOk(g, disk, c)
    ensures |Contents(g, disk, cs)| == |cs| * ClusterBytes(g)
    ensures k < |cs| && s < g.clusterSize && b < SECTOR ==>
      IsByteAt(disk, FirstSector(g, cs[k]) + s, b, Contents(g, disk, cs), (k * g.clusterSize + s) * SECTOR + b)
  {
    if cs != [] {
      var n := |cs| - 1;
      var front := cs[..n];
      assert forall c :: c in front ==> c in cs;
      ContentsAt(g, disk, front, k, s, b);
      assert cs[n] in cs;
      JoinedAt(disk, FirstSector(g, cs[n]), g.clusterSize, s, b);
      OneMore(n, ClusterBytes(g));
      if k < |cs| && s < g.clusterSize && b < SECTOR {
        PlaceInCluster(g, k, s, b);
        if k < n {
          Scaled(k + 1, n, ClusterBytes(g));
        }
      }
    }
  }

  lemma OneMore(n: nat, d: int)
    ensures (n + 1) * d == n * d + d
  {
  }

  lemma PlaceInCluster(g: Geometry, k: nat, s: nat, b: nat)
    requires s < g.clusterSize && b < SECTOR
    ensures (k * g.clusterSize + s) * SECTOR + b == k * ClusterBytes(g) + (s * SECTOR + b)
    ensures 0 <= s * SECTOR + b < ClusterBytes(g)
    ensures (k + 1) * ClusterBytes(g) == k * ClusterBytes(g) + ClusterBytes(g)
    ensures 0 <= k * ClusterBytes(g)
  {
    assert (k * g.clusterSize) * SECTOR == k * (g.clusterSize * SECTOR);
  }

  // ----- how much is read

  /** Bytes one fat_file_read returns: at or behind the end of the file it still returns one. */
  function ReadCount(offset: nat, size: nat, count: nat): nat {
    if count == 0 then 0 else if offset >= size then 1 else if count <= size - offset then count else size - offset
  }

  /** Inside the file the count is min(count, size - offset); at its end and behind it is 1, unless nothing is asked for. */
  lemma ReadCountExact(offset: nat, size: nat, count: nat)
    ensures offset <= size ==>
      (ReadCount(offset, size, count) == (if count <= size - offset then count else size - offset) <==>
        offset < size || count == 0)
    ensures offset >= size && count > 0 ==> ReadCount(offset, size, count) == 1
  {
  }

  /** Reading a and then b bytes returns as many as reading a + b at once, exactly when the first read stops short of the end. */
  lemma ReadInTwo(offset: nat, size: nat, a: nat, b: nat)
    requires offset < size
    ensures ReadCount(offset, size, a) + ReadCount(offset + ReadCount(offset, size, a), size, b) == ReadCount(offset, size, a + b) <==>
      b == 0 || offset + a < size
  {
  }

  class File {
    const vol: Volume
    const startSect: int
    const size: nat
    var sector: nat
    var cluster: nat
    var rwOffset: nat
    var globOffset: nat

    constructor (vol: Volume, startSect: nat, size: nat)
      ensures this.vol == vol && this.startSect == startSect && this.size == size
      ensures sector == startSect && rwOffset == 0 && globOffset == 0
    {
      this.vol, this.startSect, this.size := vol, startSect, size;
      sector, rwOffset, globOffset := startSect, 0, 0;
      cluster := 0;
    }

    /** The position is in sector `s` of cluster number `k` of the chain; rwOffset may stand behind the sector. */
    ghost predicate Stands(cs: seq<nat>, k: nat, s: nat)
      reads this
    {
      && k < |cs| && s < vol.geometry.clusterSize
      && cluster == cs[k] && sector == FirstSector(vol.geometry, cs[k]) + s
      && rwOffset <= SECTOR && globOffset == (k * vol.geometry.clusterSize + s) * SECTOR + rwOffset
    }

    ghost predicate Positioned(cs: seq<nat>)
      reads this
    {
      exists k: nat, s: nat :: Stands(cs, k, s)
    }

    lemma StandsIn(l: seq<Sector>, cs: seq<nat>, k: nat, s: nat)
      requires Stands(cs, k, s) && Chain(vol.geometry, l, cs)
      ensures 0 < sector < |l| && |l[sector]| == SECTOR && rwOffset <= SECTOR
    {
      hide FatEntry;
      NoWrap(vol.geometry, l, cs, k);
    }

    /** More bytes to come: there is another sector in the chain. */
    lemma RoomBehind(l: seq<Sector>, cs: seq<nat>, k: nat, s: nat, start: nat, done: nat, total: nat)
      requires Stands(cs, k, s) && rwOffset == SECTOR && globOffset == start + done && done < total
      requires start + total <= |cs| * ClusterBytes(vol.geometry)
      ensures s + 1 < vol.geometry.clusterSize || k + 1 < |cs|
    {
      NextSector(k, s, vol.geometry.clusterSize);
      assert |cs| * ClusterBytes(vol.geometry) == (|cs| * vol.geometry.clusterSize) * SECTOR;
    }

    lemma OneMoreByte(l: seq<Sector>, cs: seq<nat>, k: nat, s: nat, start: nat, data: seq<Byte>, b: Byte)
      requires Chain(vol.geometry, l, cs) && Stands(cs, k, s) && rwOffset < SECTOR && globOffset == start + |data|
      requires sector < |l| && |l[sector]| == SECTOR && b == l[sector][rwOffset]
      requires IsSlice(vol.geometry, l, cs, start, data)
      ensures IsSlice(vol.geometry, l, cs, start, data + [b])
    {
      hide Chain, IsSlice;
      SliceGrows(vol.geometry, l, cs, k, s, rwOffset, start, data);
    }

    ghost predicate Ready(cs: seq<nat>)
      reads this, vol, vol.buffer
    {
      vol.Valid() && Chain(vol.geometry, vol.Logical(), cs)
    }

    /** fat_file_addr_resolve behind the end of a sector. Without a disk fault the position moves to the next sector. */
    method AddrResolve(ghost cs: seq<nat>, ghost k: nat, ghost s: nat) returns (ok: bool, ghost k': nat, ghost s': nat)
      requires vol.Sane() && rwOffset == SECTOR
      requires !vol.faulted ==> Ready(cs) && Stands(cs, k, s)
      requires !vol.faulted ==> s + 1 < vol.geometry.clusterSize || k + 1 < |cs|
      modifies this`sector, this`cluster, this`rwOffset
      modifies vol`disk, vol`bufferLba, vol`bufferDirty, vol`faulted, vol.buffer
      ensures vol.Sane() && rwOffset == 0 && (old(vol.faulted) ==> vol.faulted)
      ensures !vol.faulted ==> ok && vol.Valid() && vol.Logical() == old(vol.Logical()) && Stands(cs, k', s')
    {
      hide Chain, FatEntry;
      k', s' := k, s + 1;
      if !vol.faulted {
        ChainAt(vol.geometry, vol.Logical(), cs, k);
        NoWrap(vol.geometry, vol.Logical(), cs, k);
        NextSector(k, s, vol.geometry.clusterSize);
      }
      rwOffset := rwOffset - SECTOR;
      sector := sector + 1;
      if sector >= ClusterToSector(vol.geometry, cluster) + vol.geometry.clusterSize {
        var entry;
        ok, entry := vol.TableGet(cluster);
        if !ok {
          return;
        }
        if IsEoc(entry) {
          return false, k', s';
        }
        if !vol.faulted {
          NoWrap(vol.geometry, vol.Logical(), cs, k + 1);
        }
        cluster := entry;
        sector := ClusterToSector(vol.geometry, cluster);
        k', s' := k + 1, 0;
      }
      ok := true;
    }

    /** The link-following loop of fat_file_jump; `ended` at the end of the chain. */
    method Follow(steps: nat, ghost cs: seq<nat>) returns (ok: bool, ended: bool)
      requires Ready(cs) && |cs| > 0 && cluster == cs[0]
      requires steps >= |cs| ==> EndsAt(vol.geometry, vol.Logical(), cs)
      modifies this`cluster, vol`disk, vol`bufferLba, vol`bufferDirty, vol`faulted, vol.buffer
      ensures ok ==> Ready(cs) && vol.Logical() == old(vol.Logical()) && vol.faulted == old(vol.faulted)
      ensures ok ==> (ended <==> steps >= |cs|) && cluster == cs[if ended then |cs| - 1 else steps]
      ensures !ok ==> vol.faulted
    {
      hide Chain, FatEntry, EndsAt;
      ghost var g := vol.geometry;
      ghost var k := 0;
      var left := steps;
      while left != 0
        invariant 0 <= k < |cs| && k + left == steps && cluster == cs[k]
        invariant Ready(cs) && vol.Logical() == old(vol.Logical()) && vol.faulted == old(vol.faulted)
        decreases left
      {
        ChainAt(g, vol.Logical(), cs, k);
        LastEnds(g, vol.Logical(), cs);
        var entry;
        ok, entry := vol.TableGet(cluster);
        if !ok {
          return false, false;
        }
        if IsEoc(entry) {
          return true, true;
        }
        cluster := entry;
        left := left - 1;
        k := k + 1;
      }
      ok, ended := true, false;
    }

    /** fat_file_jump: inside the chain the position is the offset; behind its end only `cluster` moves, yet it succeeds. */
    method Jump(offset: nat, ghost cs: seq<nat>) returns (ok: bool)
      requires Ready(cs) && startSect == FirstSector(vol.geometry, cs[0])
      requires offset >= |cs| * ClusterBytes(vol.geometry) ==> EndsAt(vol.geometry, vol.Logical(), cs)
      modifies this`sector, this`cluster, this`rwOffset, this`globOffset
      modifies vol`disk, vol`bufferLba, vol`bufferDirty, vol`faulted, vol.buffer
      ensures ok ==> Ready(cs) && vol.Logical() == old(vol.Logical()) && vol.faulted == old(vol.faulted)
      ensures ok && offset < |cs| * ClusterBytes(vol.geometry) ==>
        Positioned(cs) && globOffset == offset && rwOffset < SECTOR
      ensures ok && offset >= |cs| * ClusterBytes(vol.geometry) ==>
        cluster == cs[|cs| - 1] && sector == old(sector) && rwOffset == old(rwOffset) && globOffset == old(globOffset)
      ensures !ok ==> vol.faulted
    {
      hide Chain, FatEntry, EndsAt;
      ghost var g := vol.geometry;
      ChainSize(g, vol.Logical(), cs);
      ChainAt(g, vol.Logical(), cs, 0);
      ClusterOfSector(g, cs[0], 0);
      SplitOffset(g, offset, |cs|);
      cluster := SectorToCluster(vol.geometry, startSect);
      var sectorOffset := offset / SECTOR;
      var clusterOffset := sectorOffset / vol.geometry.clusterSize;
      sectorOffset := sectorOffset % vol.geometry.clusterSize;
      hide FirstSector, SectorToCluster, ClusterBytes;
      var ended;
      ok, ended := Follow(clusterOffset, cs);
      if !ok {
        return false;
      }
      if ended {
        return true;
      }
      Land(offset, sectorOffset, clusterOffset, cs);
    }

    /** The end of fat_file_jump: position inside the cluster that was found. */
    method Land(offset: nat, sectorOffset: nat, ghost k: nat, ghost cs: seq<nat>)
      requires Ready(cs) && k < |cs| && cluster == cs[k] && sectorOffset < vol.geometry.clusterSize
      requires offset == (k * vol.geometry.clusterSize + sectorOffset) * SECTOR + offset % SECTOR
      modifies this`sector, this`rwOffset, this`globOffset
      ensures Positioned(cs) && globOffset == offset && rwOffset < SECTOR
    {
      hide FirstSector, Chain;
      NoWrap(vol.geometry, vol.Logical(), cs, k);
      sector := ClusterToSector(vol.geometry, cluster) + sectorOffset;
      rwOffset := offset % SECTOR;
      globOffset := offset;
      assert Stands(cs, k, sectorOffset);
    }

    /** Past one byte of the current sector. */
    method Advance(ghost cs: seq<nat>, ghost k: nat, ghost s: nat)
      modifies this`rwOffset, this`globOffset
      ensures rwOffset == old(rwOffset) + 1 && globOffset == old(globOffset) + 1
      ensures old(Stands(cs, k, s)) && rwOffset <= SECTOR ==> Stands(cs, k, s)
    {
      rwOffset := rwOffset + 1;
      globOffset := globOffset + 1;
    }

    /** fat_file_read: without a disk fault the slice of the contents, ReadCount bytes long. */
    method Read(count: nat, ghost cs: seq<nat>) returns (ok: bool, data: seq<Byte>)
      requires Ready(cs) && Positioned(cs)
      requires globOffset + ReadCount(globOffset, size, count) <= |cs| * ClusterBytes(vol.geometry)
      modifies this`sector, this`cluster, this`rwOffset, this`globOffset
      modifies vol`disk, vol`bufferLba, vol`bufferDirty, vol`faulted, vol.buffer
      ensures !ok ==> vol.faulted
      ensures !vol.faulted ==> Ready(cs) && Positioned(cs) && vol.Logical() == old(vol.Logical())
      ensures !vol.faulted ==> globOffset == old(globOffset) + |data| && |data| == ReadCount(old(globOffset), size, count)
      ensures !vol.faulted ==> IsSlice(vol.geometry, old(vol.Logical()), cs, old(globOffset), data)
    {
      hide Chain, IsSlice, Stands, FirstSector, ReadStep, Flushed, Coherent, Contents, ClusterBytes;
      ghost var g, l, start := vol.geometry, vol.Logical(), globOffset;
      ghost var k: nat, s: nat :| Stands(cs, k, s);
      data := [];
      StandsIn(l, cs, k, s);
      EmptySlice(g, l, cs, start);
      ok := vol.Read(sector);
      if !ok {
        return;
      }
      var left: nat := count;
      while left != 0
        invariant left <= count && vol.Sane() && rwOffset <= SECTOR && ok
        invariant !vol.faulted ==> Ready(cs) && vol.Logical() == l && Stands(cs, k, s)
        invariant !vol.faulted ==> globOffset == start + |data| && |data| == count - left && IsSlice(g, l, cs, start, data)
        invariant !vol.faulted ==> vol.bufferLba == sector && vol.buffer[..] == l[sector]
        invariant !vol.faulted ==> if left > 0 then |data| < ReadCount(start, size, count) else |data| == ReadCount(start, size, count)
        decreases left
      {
        left := left - 1;
        if rwOffset >= SECTOR {
          if !vol.faulted {
            RoomBehind(l, cs, k, s, start, |data|, ReadCount(start, size, count));
          }
          var resolved;
          resolved, k, s := AddrResolve(cs, k, s);
          if !vol.faulted {
            StandsIn(l, cs, k, s);
          }
          ok := vol.Read(sector);
          if !ok {
            return;
          }
        }
        if !vol.faulted {
          OneMoreByte(l, cs, k, s, start, data, vol.buffer[rwOffset]);
        }
        data := data + [vol.buffer[rwOffset]];
        Advance(cs, k, s);
        if globOffset >= size {
          break;
        }
      }
    }
  }

  /** The bytes at `offset` in the chain's contents. */
  ghost predicate IsSlice(g: Geometry, disk: seq<Sector>, cs: seq<nat>, offset: nat, data: seq<Byte>)
    requires Chain(g, disk, cs)
  {
    var all := Contents(g, disk, cs);
    offset + |data| <= |all| && data == all[offset..offset + |data|]
  }

  /** Reading a and then b bytes gives the bytes of reading a + b at once, exactly when the first read stops short of the end. */
  lemma ReadInTwoParts(g: Geometry, disk: seq<Sector>, cs: seq<nat>, offset: nat, size: nat, a: nat, b: nat,
                       first: seq<Byte>, second: seq<Byte>, both: seq<Byte>)
    requires Chain(g, disk, cs) && offset < size
    requires IsSlice(g, disk, cs, offset, first) && |first| == ReadCount(offset, size, a)
    requires IsSlice(g, disk, cs, offset + |first|, second) && |second| == ReadCount(offset + |first|, size, b)
    requires IsSlice(g, disk, cs, offset, both) && |both| == ReadCount(offset, size, a + b)
    ensures both == first + second <==> b == 0 || offset + a < size
  {
    ClustersOk(g, disk, cs);
    hide Chain, Contents;
    ReadInTwo(offset, size, a, b);
  }

  lemma NoWrap(g: Geometry, disk: seq<Sector>, cs: seq<nat>, i: nat)
    requires Chain(g, disk, cs) && i < |cs|
    ensures ClusterToSector(g, cs[i]) == FirstSector(g, cs[i])
    ensures 0 < FirstSector(g, cs[i]) && FirstSector(g, cs[i]) + g.clusterSize <= |disk|
  {
  }

  lemma NextSector(k: nat, s: nat, n: nat)
    ensures (k * n + s) * SECTOR + SECTOR == (k * n + (s + 1)) * SECTOR
    ensures s + 1 == n ==> (k + 1) * n + 0 == k * n + (s + 1)
  {
  }

  /** The FAT entry of the last cluster is an end mark. */
  ghost predicate EndsAt(g: Geometry, disk: seq<Sector>, cs: seq<nat>)
    requires Chain(g, disk, cs)
  {
    IsEoc(FatEntry(g, disk, cs[|cs| - 1]))
  }

  lemma LastEnds(g: Geometry, disk: seq<Sector>, cs: seq<nat>)
    requires Chain(g, disk, cs)
    ensures g.fatLba + cs[|cs| - 1] / ENTRIES < |disk| && |disk[g.fatLba + cs[|cs| - 1] / ENTRIES]| == SECTOR
    ensures EndsAt(g, disk, cs) ==> IsEoc(FatEntry(g, disk, cs[|cs| - 1]))
  {
    ChainAt(g, disk, cs, |cs| - 1);
  }

  lemma ClustersOk(g: Geometry, disk: seq<Sector>, cs: seq<nat>)
    requires Chain(g, disk, cs)
    ensures forall c :: c in cs ==> ClusterOk(g, disk, c)
    ensures SectorsOk(disk) && |cs| > 0 && g.clusterSize > 0
  {
    hide ClusterOk;
  }

  lemma EmptySlice(g: Geometry, disk: seq<Sector>, cs: seq<nat>, offset: nat)
    requires Chain(g, disk, cs) && offset <= |cs| * ClusterBytes(g)
    ensures IsSlice(g, disk, cs, offset, [])
  {
    hide Chain, Contents;
    ClustersOk(g, disk, cs);
    ContentsAt(g, disk, cs, 0, 0, 0);
  }

  lemma SliceGrows(g: Geometry, disk: seq<Sector>, cs: seq<nat>, k: nat, s: nat, b: nat, offset: nat, data: seq<Byte>)
    requires Chain(g, disk, cs) && k < |cs| && s < g.clusterSize && b < SECTOR
    requires IsSlice(g, disk, cs, offset, data) && offset + |data| == (k * g.clusterSize + s) * SECTOR + b
    requires 0 <= FirstSector(g, cs[k]) + s < |disk| && |disk[FirstSector(g, cs[k]) + s]| == SECTOR
    ensures IsSlice(g, disk, cs, offset, data + [disk[FirstSector(g, cs[k]) + s][b]])
  {
    ClustersOk(g, disk, cs);
    hide Chain, Contents, FirstSector;
    ContentsAt(g, disk, cs, k, s, b);
  }

  lemma NextCluster(k: nat, s: nat, n: nat)
    ensures (k + 1) * n == k * n + n
  {
  }

  lemma ChainSize(g: Geometry, disk: seq<Sector>, cs: seq<nat>)
    requires Chain(g, disk, cs)
    ensures g.clusterSize > 0 && |cs| > 0
  {
  }

  /** Cluster, sector and byte of an offset inside the chain. */
  lemma SplitOffset(g: Geometry, offset: nat, n: nat)
    requires g.clusterSize > 0
    ensures var q := offset / SECTOR;
      && 0 <= q / g.clusterSize && 0 <= q % g.clusterSize < g.clusterSize
      && offset == (q / g.clusterSize * g.clusterSize + q % g.clusterSize) * SECTOR + offset % SECTOR
      && (offset < n * ClusterBytes(g) <==> q / g.clusterSize < n)
  {
    var q := offset / SECTOR;
    var k := q / g.clusterSize;
    assert q == k * g.clusterSize + q % g.clusterSize;
    if k < n {
      Scaled(k + 1, n, g.clusterSize);
      NextCluster(k, 0, g.clusterSize);
    } else {
      Scaled(n, k, g.clusterSize);
    }
    assert n * ClusterBytes(g) == (n * g.clusterSize) * SECTOR;
  }
}
