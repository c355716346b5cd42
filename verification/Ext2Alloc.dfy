/** Block input/output and the bitmap allocator of the ext2 driver. */
module Ext2Alloc {
  import opened Words
  import opened Ext2Volume

  class Partition {
    const words: nat            // block_size / 4
    const bpg: nat              // s_blocks_per_group
    var disk: seq<Block>
    var gd: seq<Group>
    var freeBlocks: nat         // s_free_blocks_count

    ghost function Value(): Snapshot
      reads this
    {
      Snapshot(words, bpg, disk, gd, freeBlocks)
    }

    ghost predicate Valid()
      reads this
    {
      Value().Valid()
    }

    constructor (words: nat, bpg: nat, disk: seq<Block>, gd: seq<Group>, freeBlocks: nat)
      requires Snapshot(words, bpg, disk, gd, freeBlocks).Valid()
      ensures Value() == Snapshot(words, bpg, disk, gd, freeBlocks) && Valid()
    {
      this.words, this.bpg, this.disk, this.gd, this.freeBlocks := words, bpg, disk, gd, freeBlocks;
    }

    /** A fresh block-sized buffer; its contents are whatever the heap held. */
    method BlockBuffer() returns (buf: Block)
      ensures |buf| == words
    {
      var junk: seq<Word> := *;
      buf := seq(words, i requires 0 <= i => if i < |junk| then junk[i] else 0);
    }

    /** ext2_read_block: block 0 is refused with 0, a block past the device fails. */
    method ReadBlock(block: nat) returns (rc: int, buf: Block)
      requires Value().Shape()
      ensures |buf| == words
      ensures block == 0 ==> rc == 0
      ensures 0 < block < |disk| ==> rc == 1 && buf == disk[block]
      ensures block >= |disk| && block > 0 ==> rc == READ_FAILED
    {
      buf := BlockBuffer();
      if block > 0 {
        if block >= |disk| {
          return READ_FAILED, buf;
        }
        buf := disk[block];
      } else {
        return 0, buf;
      }
      rc := 1;
    }

    /** ext2_write_block: the transfer covers the whole block. */
    method WriteBlock(block: nat, src: Block) returns (rc: int)
      requires |src| == words
      modifies this`disk
      ensures block == 0 ==> rc == 0 && disk == old(disk)
      ensures 0 < block < |old(disk)| ==> rc == 1 && disk == old(disk)[block := src]
      ensures block >= |old(disk)| && block > 0 ==> rc == WRITE_FAILED && disk == old(disk)
      ensures |disk| == |old(disk)|
    {
      if block > 0 {
        if block >= |disk| {
          return WRITE_FAILED;
        }
        disk := disk[block := src];
      } else {
        return 0;
      }
      rc := 1;
    }
  }

  /** `t` is `s` after exactly the free block `b` has been handed out. */
  ghost predicate HandedOut(s: Snapshot, t: Snapshot, b: nat)
    requires s.Valid()
  {
    && b in s.Free()
    && s.gd[GroupOf(s.bpg, b)].free > 0 && s.total > 0
    && t == Take(s, GroupOf(s.bpg, b), IndexOf(s.bpg, b))
  }

  lemma TakeIsHandingOut(s: Snapshot, g: nat, i: nat)
    requires s.Valid() && g < |s.gd| && i < 32 * s.words && !s.Used(g, i)
    ensures s.gd[g].free > 0 && s.total > 0
    ensures HandedOut(s, Take(s, g, i), BlockNo(s.bpg, g, i))
    ensures Take(s, g, i).Valid() && Take(s, g, i).SameLayout(s)
    ensures Take(s, g, i).Free() == s.Free() - {BlockNo(s.bpg, g, i)}
  {
    TakeValid(s, g, i);
    NumberingInverse(s.bpg, g, i);
  }

  /** The scan has seen no zero bit in the groups before `g` nor in the first `n` bits of group `g`. */
  ghost predicate ScannedTo(s: Snapshot, g: nat, n: nat)
    requires s.Shape() && g <= |s.gd|
  {
    && (forall h: nat, j: nat :: h < g && j < 32 * s.words ==> s.Used(h, j))
    && (g < |s.gd| ==> forall j: nat :: j < n && j < 32 * s.words ==> s.Used(g, j))
  }

  lemma ScanFindsLeast(s: Snapshot, g: nat, i: nat)
    requires s.Valid() && g < |s.gd| && i < 32 * s.words && !s.Used(g, i)
    requires ScannedTo(s, g, i)
    ensures forall b :: b in s.Free() ==> BlockNo(s.bpg, g, i) <= b
  {
    forall b | b in s.Free()
      ensures BlockNo(s.bpg, g, i) <= b
    {
      NumberingOnto(s.bpg, b);
      NumberingOrder(s.bpg, g, i, GroupOf(s.bpg, b), IndexOf(s.bpg, b));
    }
  }

  lemma ScanAllMeansNoneFree(s: Snapshot)
    requires s.Valid() && ScannedTo(s, |s.gd|, 0)
    ensures s.Free() == {}
  {
    forall b | b in s.Free()
      ensures false
    {
      NumberingOnto(s.bpg, b);
    }
  }

  lemma FullGroupSkipped(s: Snapshot, g: nat)
    requires s.Valid() && g < |s.gd| && s.gd[g].free == 0
    requires ScannedTo(s, g, 0)
    ensures ScannedTo(s, g + 1, 0)
  {
    assert ZeroBits(s.Bitmap(g)) == {};
    forall j: nat | j < 32 * s.words
      ensures s.Used(g, j)
    {
      assert j !in ZeroBits(s.Bitmap(g));
    }
  }

  lemma FullWordSkipped(s: Snapshot, g: nat, j: nat)
    requires s.Valid() && g < |s.gd| && j < s.words && s.Bitmap(g)[j] == ALL_ONES
    requires ScannedTo(s, g, 32 * j)
    ensures ScannedTo(s, g, 32 * (j + 1))
  {
    FullWord(s.Bitmap(g)[j]);
    forall i: nat | 32 * j <= i < 32 * (j + 1)
      ensures s.Used(g, i)
    {
      assert i / 32 == j && Bit(s.Bitmap(g)[j], i % 32);
    }
  }

  /** ext2_allocate_block: first fit over groups, words and bits. */
  method AllocateBlock(p: Partition) returns (block: nat)
    requires p.Valid()
    modifies p
    ensures p.Valid() && p.Value().SameLayout(old(p.Value()))
    ensures block == 0 <==> old(p.Value().Free()) == {}
    ensures block == 0 ==> p.Value() == old(p.Value())
    ensures block != 0 ==> HandedOut(old(p.Value()), p.Value(), block)
    ensures block != 0 ==> forall b :: b in old(p.Value().Free()) ==> block <= b
    ensures p.Value().Free() == old(p.Value().Free()) - {block}
  {
    hide Bit, SumFree, BlockNo, GroupOf, IndexOf;
    ghost var s := p.Value();
    var i := 0;
    while i < |p.gd|
      invariant i <= |p.gd| && p.Value() == s
      invariant ScannedTo(s, i, 0)
    {
      if p.gd[i].free == 0 {
        FullGroupSkipped(s, i);
        i := i + 1;
        continue;
      }
      var rc, bitmap := p.ReadBlock(p.gd[i].bitmap);
      assert bitmap == s.Bitmap(i);
      var j := 0;
      while j < p.words
        invariant j <= p.words && p.Value() == s
        invariant ScannedTo(s, i, 32 * j)
      {
        if bitmap[j] == ALL_ONES {
          FullWordSkipped(s, i, j);
          j := j + 1;
          continue;
        }
        var k := 0;
        while k < 32
          invariant k <= 32 && p.Value() == s
          invariant ScannedTo(s, i, 32 * j + k)
        {
          if !Bit(bitmap[j], k) {
            block := MarkUsed(p, i, j, k, bitmap);
            return;
          }
          assert BlockBit(bitmap, 32 * j + k);
          k := k + 1;
        }
        j := j + 1;
      }
      i := i + 1;
    }
    ScanAllMeansNoneFree(s);
    block := 0;
  }

  /** The statements run when the scan meets zero bit `k` of word `j`. */
  method MarkUsed(p: Partition, i: nat, j: nat, k: nat, bitmap: Block) returns (block: nat)
    requires p.Valid() && i < |p.gd| && j < p.words && k < 32
    requires bitmap == p.Value().Bitmap(i) && !Bit(bitmap[j], k)
    requires ScannedTo(p.Value(), i, 32 * j + k)
    modifies p
    ensures p.Valid() && p.Value().SameLayout(old(p.Value()))
    ensures HandedOut(old(p.Value()), p.Value(), block)
    ensures forall b :: b in old(p.Value().Free()) ==> block <= b
    ensures p.Value().Free() == old(p.Value().Free()) - {block}
  {
    hide Bit, SetBit, SumFree, GroupOf, IndexOf, ScannedTo, HandedOut, Snapshot.Valid, Snapshot.Free, Snapshot.SameLayout;
    ghost var s := p.Value();
    ghost var bit := 32 * j + k;
    ShapeOf(s);
    assert bit / 32 == j && bit % 32 == k;
    TakeIsHandingOut(s, i, bit);
    ScanFindsLeast(s, i, bit);
    SetBitInWord(bitmap[j], k);
    var marked := bitmap[j := SetBit(bitmap[j], k)];
    p.gd := p.gd[i := p.gd[i].(free := p.gd[i].free - 1)];
    p.freeBlocks := p.freeBlocks - 1;
    var rc := p.WriteBlock(p.gd[i].bitmap, marked);
    assert p.Value() == Take(s, i, bit);
    block := j * 32 + k + 1;
    block := block + i * p.bpg;
  }

  lemma SetBitInWord(w: Word, k: nat)
    requires k < 32
    ensures SetBit(w, k) < 0x1_0000_0000
  {
    WordWidth();
    SetBitBounded(w, k, 32);
  }

  lemma BlockUsed(s: Snapshot, block: nat)
    requires s.Valid() && 0 < block < |s.disk| && GroupOf(s.bpg, block) < |s.gd|
    ensures IndexOf(s.bpg, block) < s.bpg <= 32 * s.words
    ensures block in s.Free() <==> !s.Used(GroupOf(s.bpg, block), IndexOf(s.bpg, block))
    ensures s.SameLayout(s)
  {
  }

  /** ext2_deallocate_block: 1 when the bit was set, 0 and no change when it was clear already. */
  method DeallocateBlock(p: Partition, block: nat) returns (rc: nat)
    requires p.Valid() && 0 < block < |p.disk| && GroupOf(p.bpg, block) < |p.gd|
    requires !p.Value().IsBitmap(block)
    modifies p
    ensures p.Valid() && p.Value().SameLayout(old(p.Value()))
    ensures rc == if block in old(p.Value().Free()) then 0 else 1
    ensures rc == 0 ==> p.Value() == old(p.Value())
    ensures rc == 1 ==> p.Value() == Give(old(p.Value()), GroupOf(p.bpg, block), IndexOf(p.bpg, block))
    ensures p.Value().Free() == old(p.Value().Free()) + {block}
  {
    hide Bit, ClearBit, SumFree, Snapshot.Valid, Snapshot.SameLayout, Snapshot.Free;
    ghost var s := p.Value();
    ShapeOf(s);
    NumberingOnto(p.bpg, block);
    BlockUsed(s, block);
    var group := (block - 1) / p.bpg;
    var index := (block - 1) % p.bpg;
    var word, offset := index / 32, index % 32;
    assert group == GroupOf(p.bpg, block) && index == IndexOf(p.bpg, block);
    assert s.gd[group].bitmap < |p.disk|;
    var _, bitmap := p.ReadBlock(p.gd[group].bitmap);
    assert bitmap == s.Bitmap(group);
    if Bit(bitmap[word], offset) {
      GiveValid(s, group, index);
      ClearBitBounded(bitmap[word], offset);
      var cleared := bitmap[word := ClearBit(bitmap[word], offset)];
      p.gd := p.gd[group := p.gd[group].(free := p.gd[group].free + 1)];
      p.freeBlocks := p.freeBlocks + 1;
      var _ := p.WriteBlock(p.gd[group].bitmap, cleared);
      assert p.Value() == Give(s, group, index);
      return 1;
    }
    rc := 0;
  }
}
