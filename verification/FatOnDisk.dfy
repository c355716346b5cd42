/** The FAT and the bytes of a file told in sectors of the disk. */
module FatOnDisk {
  import opened Bytes
  import opened Division
  import opened FatVolume
  import opened FatFile

  // ----- the data area

  lemma OneFactorMore(n: int, d: int)
    ensures (n + 1) * d == n * d + d
  {
  }

  /** The clusters 2, 3, ... lie one behind the other from the first sector of the data area on. */
  lemma ClustersTile(g: Geometry, c: nat)
    ensures FirstSector(g, 2) == g.dataLba
    ensures FirstSector(g, c + 1) == FirstSector(g, c) + g.clusterSize
  {
    OneFactorMore(c - 2, g.clusterSize);
  }

  /** Two clusters have no sector in common. */
  lemma ClustersApart(g: Geometry, a: nat, b: nat, i: nat, j: nat)
    requires a < b && i < g.clusterSize && j < g.clusterSize
    ensures FirstSector(g, a) + i < FirstSector(g, b) + j
  {
    Scaled(a - 1, b - 2, g.clusterSize);
    OneFactorMore(a - 2, g.clusterSize);
  }

  // ----- the FAT

  /** Entry `c` of the FAT is stored in its bytes 4c to 4c + 3, the lowest first. */
  lemma EntryOnDisk(g: Geometry, disk: seq<Sector>, c: nat, j: nat)
    requires g.fatLba + c / ENTRIES < |disk| && |disk[g.fatLba + c / ENTRIES]| == SECTOR && j < 4
    ensures (4 * c + j) / 512 == c / ENTRIES
    ensures BytePart(FatEntry(g, disk, c), j) == disk[g.fatLba + (4 * c + j) / 512][(4 * c + j) % 512]
  {
    hide Load32, BytePart;
    QuotientIs(4 * c + j, 512, c / ENTRIES, c % ENTRIES * 4 + j);
    Load32Bytes(disk[g.fatLba + c / ENTRIES], c % ENTRIES * 4, j);
  }

  /** The end of a chain is marked by the 28 low bits: six digits F, and a last one from 8 on. */
  lemma EocExactly(entry: Word32)
    ensures IsEoc(entry) <==> entry / 16 % 0x100_0000 == 0xFF_FFFF && entry % 16 >= 8
  {
    var low, high := entry % 0x1000_0000, entry / 0x1000_0000;
    assert entry == 0x1000_0000 * high + low;
    assert entry / 16 == 0x100_0000 * high + low / 16 && entry % 16 == low % 16;
    assert low == 16 * (low / 16) + low % 16 && low / 16 < 0x100_0000;
  }

  // ----- the bytes of a file

  /** The cluster, the sector in it and the byte in that, of byte `x`. */
  lemma SplitByte(x: nat, d: nat, n: nat)
    requires d > 0 && x < n * d * 512
    ensures 0 <= x / 512 / d < n && 0 <= x / 512 % d < d
    ensures x == (x / 512 / d * d + x / 512 % d) * 512 + x % 512
  {
    var q := x / 512;
    assert q < n * d;
    assert q == q / d * d + q % d;
    if q / d >= n {
      Scaled(n, q / d, d);
    }
  }

  lemma SizeInSectors(g: Geometry, n: nat)
    ensures n * ClusterBytes(g) == n * g.clusterSize * 512
  {
  }

  lemma ChainStart(g: Geometry, disk: seq<Sector>, cs: seq<nat>, k: nat)
    requires Chain(g, disk, cs) && k < |cs|
    ensures 0 <= FirstSector(g, cs[k]) && FirstSector(g, cs[k]) + g.clusterSize <= |disk|
  {
    hide FatEntry;
    ChainAt(g, disk, cs, k);
  }

  /** Byte `x` of the file is in the data area, in cluster number x / 512 / clusterSize of the chain. */
  lemma ByteOnDisk(g: Geometry, disk: seq<Sector>, cs: seq<nat>, x: nat)
    requires Chain(g, disk, cs) && x < |Contents(g, disk, cs)|
    ensures |Contents(g, disk, cs)| == |cs| * g.clusterSize * 512 && 0 <= x / 512 / g.clusterSize < |cs|
    ensures var sector := g.dataLba + (cs[x / 512 / g.clusterSize] - 2) * g.clusterSize + x / 512 % g.clusterSize;
      && 0 <= sector < |disk| && |disk[sector]| == 512
      && Contents(g, disk, cs)[x] == disk[sector][x % 512]
  {
    ClustersOk(g, disk, cs);
    hide Chain, Contents, FatEntry, ClusterOk, ClusterBytes;
    ContentsAt(g, disk, cs, 0, 0, 0);
    SizeInSectors(g, |cs|);
    SplitByte(x, g.clusterSize, |cs|);
    var k, s := x / 512 / g.clusterSize, x / 512 % g.clusterSize;
    ChainStart(g, disk, cs, k);
    ContentsAt(g, disk, cs, k, s, x % 512);
  }

  /** What fat_file_read returns, byte by byte on the disk. */
  lemma ReadOnDisk(g: Geometry, disk: seq<Sector>, cs: seq<nat>, offset: nat, data: seq<Byte>, i: nat)
    requires Chain(g, disk, cs) && IsSlice(g, disk, cs, offset, data) && i < |data|
    ensures var x := offset + i;
      && 0 <= x / 512 / g.clusterSize < |cs|
      && var sector := g.dataLba + (cs[x / 512 / g.clusterSize] - 2) * g.clusterSize + x / 512 % g.clusterSize;
      && 0 <= sector < |disk| && |disk[sector]| == 512
      && data[i] == disk[sector][x % 512]
  {
    ByteOnDisk(g, disk, cs, offset + i);
    ClustersOk(g, disk, cs);
    hide Contents, Chain;
    var all := Contents(g, disk, cs);
    assert data[i] == all[offset..offset + |data|][i];
  }

  /** Where the file stands, in its offset. */
  lemma PositionOnDisk(file: File, cs: seq<nat>)
    requires file.vol.geometry.clusterSize > 0
    requires file.Positioned(cs) && file.rwOffset < SECTOR
    ensures var g, x := file.vol.geometry, file.globOffset;
      && 0 <= x / 512 / g.clusterSize < |cs| && file.cluster == cs[x / 512 / g.clusterSize]
      && file.sector == g.dataLba + (file.cluster - 2) * g.clusterSize + x / 512 % g.clusterSize
      && file.rwOffset == x % 512
  {
    var k: nat, s: nat :| file.Stands(cs, k, s);
    var n := k * file.vol.geometry.clusterSize + s;
    QuotientIs(n, file.vol.geometry.clusterSize, k, s);
    QuotientIs(file.globOffset, 512, n, file.rwOffset);
  }
}
