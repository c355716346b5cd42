/** A FAT32 volume behind its one-sector write-back buffer. */
module FatVolume {
  import opened Bytes

  const SECTOR: int := 512
  const ENTRIES: int := 128      // FAT entries in a sector

  type Sector = seq<Byte>

  // ----- the volume

  datatype Geometry = Geometry(fatLba: nat, dataLba: nat, clusterSize: nat)

  ghost predicate SectorsOk(disk: seq<Sector>) {
    forall i :: 0 <= i < |disk| ==> |disk[i]| == SECTOR
  }

  /** Entry `cluster` of the FAT. */
  function FatEntry(g: Geometry, disk: seq<Sector>, cluster: nat): Word32
    requires g.fatLba + cluster / ENTRIES < |disk| && |disk[g.fatLba + cluster / ENTRIES]| == SECTOR
  {
    Load32(disk[g.fatLba + cluster / ENTRIES], cluster % ENTRIES * 4)
  }

  /** The disk after storing entry `cluster`. */
  function FatStored(g: Geometry, disk: seq<Sector>, cluster: nat, w: Word32): (r: seq<Sector>)
    requires g.fatLba + cluster / ENTRIES < |disk| && |disk[g.fatLba + cluster / ENTRIES]| == SECTOR
    ensures |r| == |disk|
  {
    disk[g.fatLba + cluster / ENTRIES := Stored32(disk[g.fatLba + cluster / ENTRIES], cluster % ENTRIES * 4, w)]
  }

  /** The FAT is an array: a stored entry reads back, every other entry and every other sector is as before. */
  lemma FatIsArray(g: Geometry, disk: seq<Sector>, cluster: nat, w: Word32)
    requires SectorsOk(disk) && g.fatLba + cluster / ENTRIES < |disk|
    ensures var disk' := FatStored(g, disk, cluster, w);
      && SectorsOk(disk') && FatEntry(g, disk', cluster) == w
      && (forall c: nat :: c != cluster && g.fatLba + c / ENTRIES < |disk| ==> FatEntry(g, disk', c) == FatEntry(g, disk, c))
      && (forall i :: 0 <= i < |disk| && i != g.fatLba + cluster / ENTRIES ==> disk'[i] == disk[i])
  {
    hide Load32, Stored32;
    var disk' := FatStored(g, disk, cluster, w);
    var s := disk[g.fatLba + cluster / ENTRIES];
    Load32Back(s, cluster % ENTRIES * 4, w);
    forall c: nat | c != cluster && g.fatLba + c / ENTRIES < |disk|
      ensures FatEntry(g, disk', c) == FatEntry(g, disk, c)
    {
      if c / ENTRIES == cluster / ENTRIES {
        assert c % ENTRIES != cluster % ENTRIES;
        Load32Elsewhere(s, cluster % ENTRIES * 4, w, c % ENTRIES * 4);
      }
    }
  }

  // ----- the one-sector buffer under faults

  /** The value of a volume: the disk, the cached sector's number (0: none), the buffer, and whether it is dirty. */
  datatype Cache = Cache(disk: seq<Sector>, lba: nat, data: Sector, dirty: bool)

  function Flushed(c: Cache): seq<Sector> {
    if c.dirty && c.lba < |c.disk| then c.disk[c.lba := c.data] else c.disk
  }

  /** What a call of fat_read did: the sector was cached, the dirty buffer could not be written, the buffer was
      filled by a transfer that failed, or the sector was fetched. */
  datatype Outcome = Hit | FlushFailed | FillFailed | Filled

  /** fat_read returned 1. */
  predicate Delivers(o: Outcome) {
    o.Hit? || o.Filled?
  }

  /** fat_read of sector `lba`; after a failed transfer the buffer holds anything. */
  ghost predicate ReadStep(c: Cache, c': Cache, lba: nat, o: Outcome) {
    match o
    case Hit => c.lba == lba && c' == c
    case FlushFailed => c.lba != lba && c.dirty && c' == c
    case FillFailed => c.lba != lba && |c'.data| == SECTOR && c' == Cache(Flushed(c), c.lba, c'.data, false)
    case Filled => c.lba != lba && lba < |c.disk| && c' == Cache(Flushed(c), lba, Flushed(c)[lba], false)
  }

  /** The cache stands for the sectors `l`: the cached one in the buffer, the others on the disk. */
  ghost predicate Coherent(c: Cache, l: seq<Sector>) {
    && c.lba < |c.disk| && (c.lba == 0 ==> !c.dirty) && Flushed(c) == l
    && (c.lba != 0 ==> c.data == l[c.lba])
  }

  /** Coherent, or all sectors are on the disk but the buffer is not the sector it is taken for. */
  ghost predicate OnDisk(c: Cache, l: seq<Sector>) {
    Coherent(c, l) || (c.lba < |c.disk| && !c.dirty && c.disk == l)
  }

  /** One read: no sector is lost, and it ends coherent exactly when it did not fill the buffer by a failed transfer. */
  lemma ReadKeeps(c: Cache, c': Cache, lba: nat, o: Outcome, l: seq<Sector>)
    requires OnDisk(c, l) && ReadStep(c, c', lba, o)
    ensures OnDisk(c', l)
    ensures Coherent(c', l) <==> match o
      case Hit => Coherent(c, l)
      case FlushFailed => Coherent(c, l)
      case FillFailed => c'.lba == 0 || c'.data == l[c'.lba]
      case Filled => true
  {
    assert c.lba < |c.disk|;
  }

  /** A run of reads, each with its outcome. */
  ghost predicate Reads(cs: seq<Cache>, lbas: seq<nat>, os: seq<Outcome>) {
    && |cs| == |lbas| + 1 && |os| == |lbas|
    && forall k :: 0 <= k < |lbas| ==> ReadStep(cs[k], cs[k + 1], lbas[k], os[k])
  }

  /** The last read that touched the buffer did not fail to fill it. */
  predicate Trusted(os: seq<Outcome>) {
    if os == [] then true
    else
      match os[|os| - 1]
      case FillFailed => false
      case Filled => true
      case _ => Trusted(os[..|os| - 1])
  }

  lemma FirstReads(cs: seq<Cache>, lbas: seq<nat>, os: seq<Outcome>)
    requires Reads(cs, lbas, os) && lbas != []
    ensures var n := |lbas| - 1;
      Reads(cs[..n + 1], lbas[..n], os[..n]) && ReadStep(cs[n], cs[n + 1], lbas[n], os[n])
  {
    hide ReadStep;
    var n := |lbas| - 1;
    assert ReadStep(cs[n], cs[n + 1], lbas[n], os[n]);
  }

  lemma OneMoreRead(cs: seq<Cache>, lbas: seq<nat>, os: seq<Outcome>, c: Cache)
    requires lbas != [] && |os| == |lbas|
    requires var n := |lbas| - 1;
      Reads(cs, lbas[..n], os[..n]) && ReadStep(cs[n], c, lbas[n], os[n])
    ensures Reads(cs + [c], lbas, os)
  {
    hide ReadStep;
    var n := |lbas| - 1;
    forall k | 0 <= k < |lbas|
      ensures ReadStep((cs + [c])[k], (cs + [c])[k + 1], lbas[k], os[k])
    {
      if k < n {
        assert ReadStep(cs[k], cs[k + 1], lbas[..n][k], os[..n][k]);
      }
    }
  }

  /** No sector is lost, and after a trusted run the buffer is the sector it is taken for. */
  lemma {:induction false} RunKeeps(cs: seq<Cache>, lbas: seq<nat>, os: seq<Outcome>, l: seq<Sector>)
    requires Reads(cs, lbas, os) && Coherent(cs[0], l)
    ensures OnDisk(cs[|lbas|], l)
    ensures Trusted(os) || cs[|lbas|].lba == 0 ==> Coherent(cs[|lbas|], l)
    decreases |lbas|
  {
    hide Coherent, OnDisk, ReadStep, Reads;
    RunLength(cs, lbas, os);
    if lbas == [] {
      CoherentOnDisk(cs[0], l);
    } else {
      var n := |lbas| - 1;
      FirstReads(cs, lbas, os);
      RunKeeps(cs[..n + 1], lbas[..n], os[..n], l);
      ReadKeeps(cs[n], cs[n + 1], lbas[n], os[n], l);
      StaysUncached(cs[n], cs[n + 1], lbas[n], os[n]);
    }
  }

  lemma RunLength(cs: seq<Cache>, lbas: seq<nat>, os: seq<Outcome>)
    requires Reads(cs, lbas, os)
    ensures |cs| == |lbas| + 1 && |os| == |lbas|
  {
  }

  lemma StaysUncached(c: Cache, c': Cache, lba: nat, o: Outcome)
    requires ReadStep(c, c', lba, o)
    ensures !o.Filled? ==> c'.lba == c.lba
  {
  }

  lemma CoherentOnDisk(c: Cache, l: seq<Sector>)
    requires Coherent(c, l)
    ensures OnDisk(c, l)
  {
  }

  /** After any other run the buffer may hold anything at all, by the same first state, sectors and outcomes. */
  lemma {:induction false} JunkPossible(cs: seq<Cache>, lbas: seq<nat>, os: seq<Outcome>, junk: Sector) returns (cs': seq<Cache>)
    requires Reads(cs, lbas, os) && !Trusted(os) && |junk| == SECTOR
    ensures Reads(cs', lbas, os) && cs'[0] == cs[0] && cs'[|lbas|] == cs[|lbas|].(data := junk)
    decreases |lbas|
  {
    hide ReadStep, Reads;
    RunLength(cs, lbas, os);
    var n := |lbas| - 1;
    FirstReads(cs, lbas, os);
    var c := cs[n + 1].(data := junk);
    SameOtherwise(cs[n], cs[n + 1], lbas[n], os[n], junk);
    if os[n].FillFailed? {
      cs' := cs[..n + 1];
    } else {
      cs' := JunkPossible(cs[..n + 1], lbas[..n], os[..n], junk);
      RunLength(cs', lbas[..n], os[..n]);
    }
    OneMoreRead(cs', lbas, os, c);
    cs' := cs' + [c];
  }

  lemma SameOtherwise(c: Cache, c': Cache, lba: nat, o: Outcome, junk: Sector)
    requires ReadStep(c, c', lba, o) && |junk| == SECTOR
    ensures o.FillFailed? ==> ReadStep(c, c'.(data := junk), lba, o)
    ensures o.Hit? || o.FlushFailed? ==> ReadStep(c.(data := junk), c'.(data := junk), lba, o)
  {
  }

  /** A successful read of `lba` behind a run with these outcomes always delivers `s`. */
  ghost predicate AlwaysDelivers(first: Cache, lbas: seq<nat>, os: seq<Outcome>, lba: nat, s: Sector) {
    forall cs: seq<Cache>, c: Cache, o: Outcome ::
      Reads(cs, lbas, os) && cs[0] == first && ReadStep(cs[|lbas|], c, lba, o) && Delivers(o) ==> c.data == s
  }

  /** Whatever fails during a run of reads, no sector is lost. A read that succeeds behind it is sure to deliver its
      sector if and only if that is not the cached one, or the last read that touched the buffer did not fail to fill it. */
  lemma ReadsUnderFaults(cs: seq<Cache>, lbas: seq<nat>, os: seq<Outcome>, l: seq<Sector>, lba: nat)
    requires Reads(cs, lbas, os) && Coherent(cs[0], l) && SectorsOk(l) && 0 < lba < |l|
    ensures OnDisk(cs[|lbas|], l)
    ensures AlwaysDelivers(cs[0], lbas, os, lba, l[lba]) <==> cs[|lbas|].lba != lba || Trusted(os)
  {
    hide Coherent, OnDisk, ReadStep, Trusted;
    RunKeeps(cs, lbas, os, l);
    RunLength(cs, lbas, os);
    if cs[|lbas|].lba != lba || Trusted(os) {
      forall cs': seq<Cache>, c: Cache, o: Outcome |
        Reads(cs', lbas, os) && cs'[0] == cs[0] && ReadStep(cs'[|lbas|], c, lba, o) && Delivers(o)
        ensures c.data == l[lba]
      {
        SameLba(cs, cs', lbas, os);
        RunKeeps(cs', lbas, os, l);
        Delivered(cs'[|lbas|], c, lba, o, l);
      }
    } else {
      var junk := AnotherSector(l[lba]);
      var cs' := JunkPossible(cs, lbas, os, junk);
      RunLength(cs', lbas, os);
      HitAgain(cs'[|lbas|]);
      NotAlways(cs', lbas, os, cs'[|lbas|], lba, Hit, l[lba]);
    }
  }

  lemma NotAlways(cs: seq<Cache>, lbas: seq<nat>, os: seq<Outcome>, c: Cache, lba: nat, o: Outcome, s: Sector)
    requires Reads(cs, lbas, os) && ReadStep(cs[|lbas|], c, lba, o) && Delivers(o) && c.data != s
    ensures !AlwaysDelivers(cs[0], lbas, os, lba, s)
  {
    hide ReadStep;
  }

  function AnotherSector(s: Sector): (r: Sector)
    requires |s| == SECTOR
    ensures |r| == SECTOR && r != s
  {
    var r := s[0 := if s[0] == 0 then 1 else 0];
    assert r[0] != s[0];
    r
  }

  lemma HitAgain(c: Cache)
    ensures ReadStep(c, c, c.lba, Hit)
  {
  }

  /** Which sector is cached depends on the sectors asked for and the outcomes only. */
  lemma {:induction false} SameLba(cs: seq<Cache>, cs': seq<Cache>, lbas: seq<nat>, os: seq<Outcome>)
    requires Reads(cs, lbas, os) && Reads(cs', lbas, os) && cs'[0] == cs[0]
    ensures cs'[|lbas|].lba == cs[|lbas|].lba
    decreases |lbas|
  {
    hide Reads;
    RunLength(cs, lbas, os);
    RunLength(cs', lbas, os);
    if lbas != [] {
      var n := |lbas| - 1;
      FirstReads(cs, lbas, os);
      FirstReads(cs', lbas, os);
      SameLba(cs[..n + 1], cs'[..n + 1], lbas[..n], os[..n]);
    }
  }

  lemma Delivered(c: Cache, c': Cache, lba: nat, o: Outcome, l: seq<Sector>)
    requires OnDisk(c, l) && ReadStep(c, c', lba, o) && Delivers(o) && 0 < lba < |l|
    requires c.lba != lba || Coherent(c, l)
    ensures c'.data == l[lba]
  {
  }

  class Volume {
    var disk: seq<Sector>
    const buffer: array<Byte>
    var bufferLba: nat           // 0: nothing cached yet
    var bufferDirty: bool
    const geometry: Geometry
    ghost var faulted: bool      // a disk transfer has failed

    /** Shape only: holds even after a failed transfer left junk in the buffer. */
    ghost predicate Sane()
      reads this
    {
      SectorsOk(disk) && buffer.Length == SECTOR && bufferLba < |disk| && geometry.fatLba > 0
    }

    /** The buffer is a copy of its sector, or dirty. */
    ghost predicate Valid()
      reads this, buffer
    {
      && Sane()
      && (bufferLba == 0 ==> !bufferDirty)
      && (bufferLba != 0 && !bufferDirty ==> buffer[..] == disk[bufferLba])
    }

    /** What the volume holds: the cached sector from the buffer, all others from the disk. */
    ghost function Logical(): (l: seq<Sector>)
      requires Valid()
      reads this, buffer
      ensures SectorsOk(l) && |l| == |disk|
    {
      if bufferLba == 0 then disk else disk[bufferLba := buffer[..]]
    }

    /** The cache of the volume; a valid volume is coherent with its logical sectors. */
    ghost function State(): (c: Cache)
      reads this, buffer
      ensures Valid() ==> Coherent(c, Logical())
    {
      Cache(disk, bufferLba, buffer[..], bufferDirty)
    }

    constructor (disk: seq<Sector>, geometry: Geometry)
      requires SectorsOk(disk) && |disk| > 0 && geometry.fatLba > 0
      ensures Valid() && Logical() == disk && this.geometry == geometry && !faulted && fresh(buffer)
    {
      this.disk, this.geometry := disk, geometry;
      buffer := new Byte[SECTOR];
      bufferLba, bufferDirty, faulted := 0, false, false;
    }

    /** One sector to the disk; may fail, then the sector is as before. */
    method DiskWrite(lba: nat) returns (ok: bool)
      requires Sane() && lba < |disk|
      modifies this`disk, this`faulted
      ensures Sane()
      ensures ok ==> disk == old(disk)[lba := buffer[..]] && faulted == old(faulted)
      ensures !ok ==> disk == old(disk) && faulted
    {
      ok := *;
      if ok {
        disk := disk[lba := buffer[..]];
      } else {
        faulted := true;
      }
    }

    /** One sector from the disk; may fail, and does behind the end of the disk. Then the buffer holds anything. */
    method DiskRead(lba: nat) returns (ok: bool)
      requires Sane()
      modifies buffer, this`faulted
      ensures ok ==> lba < |disk| && buffer[..] == disk[lba] && faulted == old(faulted)
      ensures !ok ==> faulted
    {
      ok := *;
      if ok && lba < |disk| {
        forall i | 0 <= i < SECTOR {
          buffer[i] := disk[lba][i];
        }
      } else {
        var junk: Sector := *;
        forall i | 0 <= i < SECTOR {
          buffer[i] := if i < |junk| then junk[i] else 0;
        }
        ok, faulted := false, true;
      }
    }

    /** fat_flush: the logical volume never changes, and on success the disk holds it. */
    method Flush() returns (ok: bool)
      requires Sane()
      modifies this`disk, this`bufferDirty, this`faulted
      ensures Sane() && |disk| == |old(disk)| && (old(faulted) ==> faulted)
      ensures old(Valid()) ==> Valid() && Logical() == old(Logical())
      ensures old(Valid()) && ok ==> disk == old(Logical())
      ensures ok ==> !bufferDirty && faulted == old(faulted)
      ensures !ok ==> disk == old(disk) && bufferDirty && faulted && old(bufferDirty)
      ensures ok ==> disk == Flushed(old(State()))
    {
      if bufferDirty {
        var written := DiskWrite(bufferLba);
        if !written {
          return false;
        }
        bufferDirty := false;
      }
      ok := true;
    }

    /** fat_read: on success sector `lba` is cached and the logical volume is as before. */
    method Read(lba: nat) returns (ok: bool)
      requires Sane()
      modifies this`disk, this`bufferLba, this`bufferDirty, this`faulted, buffer
      ensures Sane() && |disk| == |old(disk)| && (old(faulted) ==> faulted)
      ensures ok ==> bufferLba == lba < |disk| && faulted == old(faulted)
      ensures ok && old(Valid()) && lba != 0 ==>
        Valid() && Logical() == old(Logical()) && buffer[..] == old(Logical())[lba]
      ensures !ok ==> faulted
      ensures !ok && old(Valid()) ==> disk == old(Logical()) || (Valid() && Logical() == old(Logical()))
      ensures exists o: Outcome :: ReadStep(old(State()), State(), lba, o) && (ok <==> Delivers(o))
    {
      ghost var c := State();
      if bufferLba != lba {
        var flushed := Flush();
        if !flushed {
          assert ReadStep(c, State(), lba, FlushFailed);
          return false;
        }
        var read := DiskRead(lba);
        if !read {
          assert ReadStep(c, State(), lba, FillFailed);
          return false;
        }
        bufferLba := lba;
        assert ReadStep(c, State(), lba, Filled);
      } else {
        assert ReadStep(c, State(), lba, Hit);
      }
      ok := true;
    }

    /** fat_table_get. */
    method TableGet(cluster: nat) returns (ok: bool, entry: Word32)
      requires Sane()
      modifies this`disk, this`bufferLba, this`bufferDirty, this`faulted, buffer
      ensures Sane() && |disk| == |old(disk)| && (old(faulted) ==> faulted)
      ensures ok ==> faulted == old(faulted) && geometry.fatLba + cluster / ENTRIES < |disk|
      ensures ok && old(Valid()) ==>
        Valid() && Logical() == old(Logical()) && entry == FatEntry(geometry, old(Logical()), cluster)
      ensures !ok ==> faulted
    {
      var start := geometry.fatLba + cluster / ENTRIES;
      var offset := cluster % ENTRIES;
      entry := 0;
      ok := Read(start);
      if !ok {
        return;
      }
      entry := Load32(buffer[..], offset * 4);
    }

    /** store32 into the buffer. */
    method Store32(at: nat, w: Word32)
      requires at + 4 <= buffer.Length
      modifies buffer
      ensures buffer[..] == Stored32(old(buffer[..]), at, w)
    {
      var value: Word32 := w;
      buffer[at] := value % 0x100;
      value := value / 0x100;
      buffer[at + 1] := value % 0x100;
      value := value / 0x100;
      buffer[at + 2] := value % 0x100;
      value := value / 0x100;
      buffer[at + 3] := value % 0x100;
      assert w / 0x100 / 0x100 == w / 0x1_0000 && w / 0x100 / 0x100 / 0x100 == w / 0x100_0000;
    }

    /** fat_table_set. Whether or not the flush behind it succeeds, the entry is in the logical volume. */
    method TableSet(cluster: nat, w: Word32) returns (ok: bool)
      requires Valid()
      modifies this`disk, this`bufferLba, this`bufferDirty, this`faulted, buffer
      ensures ok ==> Valid() && geometry.fatLba + cluster / ENTRIES < |disk| == |old(disk)|
      ensures ok ==> Logical() == FatStored(geometry, old(Logical()), cluster, w)
      ensures !ok ==> faulted
    {
      hide Stored32;
      var start := geometry.fatLba + cluster / ENTRIES;
      var offset := cluster % ENTRIES;
      ok := Read(start);
      if !ok {
        return;
      }
      Store32(4 * offset, w);
      bufferDirty := true;
      assert Logical() == FatStored(geometry, old(Logical()), cluster, w);
      var flushed := Flush();
      ok := true;
    }
  }
}
