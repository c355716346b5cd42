/** An ext2 volume as the block layer sees it: whole blocks, block bitmaps and free counters. */
module Ext2Volume {
  import opened Division
  import opened Words

  /** A block is `block_size / 4` little-endian 32-bit words. */
  type Block = seq<Word>

  const READ_FAILED: int := 0xFFFF_FFFE
  const WRITE_FAILED: int := 0xFFFF_FFFD

  /** The two fields of a block group descriptor that the allocator uses. */
  datatype Group = Group(bitmap: nat, free: nat)

  /** Bit `i` of a bitmap block. */
  predicate BlockBit(blk: Block, i: nat)
    requires i < 32 * |blk|
  {
    Bit(blk[i / 32], i % 32)
  }

  ghost function ZeroBits(blk: Block): set<nat> {
    set i: nat | i < 32 * |blk| && !BlockBit(blk, i)
  }

  function SumFree(gd: seq<Group>): nat {
    if gd == [] then 0 else gd[0].free + SumFree(gd[1..])
  }

  /** The number the allocator gives to bit `i` of group `g`, and its inverse. */
  function BlockNo(bpg: nat, g: nat, i: nat): nat {
    i + 1 + g * bpg
  }

  function GroupOf(bpg: nat, b: nat): nat
    requires bpg > 0 && b > 0
  {
    (b - 1) / bpg
  }

  function IndexOf(bpg: nat, b: nat): nat
    requires bpg > 0 && b > 0
  {
    (b - 1) % bpg
  }

  /** The value of a partition: geometry, disk contents, group descriptors and `s_free_blocks_count`. */
  datatype Snapshot = Snapshot(words: nat, bpg: nat, disk: seq<Block>, gd: seq<Group>, total: nat) {

    /** Geometry: block size, blocks per group (a group's count fits 16 bits), a 32-bit block count, one
        bitmap block a group. */
    ghost predicate Shape() {
      && 0 < words
      && 0 < bpg <= 32 * words <= 0xFFFF
      && |disk| <= 0xFFFF_FFFF
      && (forall b :: 0 <= b < |disk| ==> |disk[b]| == words)
      && (forall g :: 0 <= g < |gd| ==> 0 < gd[g].bitmap < |disk|)
      && (forall g, h :: 0 <= g < h < |gd| ==> gd[g].bitmap != gd[h].bitmap)
    }

    ghost function Bitmap(g: nat): (blk: Block)
      requires Shape() && g < |gd|
      ensures |blk| == words
    {
      disk[gd[g].bitmap]
    }

    ghost predicate Used(g: nat, i: nat)
      requires Shape() && g < |gd| && i < 32 * words
    {
      BlockBit(Bitmap(g), i)
    }

    ghost predicate IsFree(b: nat)
      requires Shape() && 0 < b
    {
      GroupOf(bpg, b) < |gd| && !Used(GroupOf(bpg, b), IndexOf(bpg, b))
    }

    ghost function Free(): set<nat>
      requires Shape()
    {
      set b: nat | 0 < b < |disk| && IsFree(b)
    }

    ghost predicate IsBitmap(b: nat) {
      exists g :: 0 <= g < |gd| && gd[g].bitmap == b
    }

    /** Every zero bit stands for a block of the volume. */
    ghost predicate BitsInRange()
      requires Shape()
    {
      forall g: nat, i: nat :: g < |gd| && i < 32 * words && !Used(g, i) ==>
        i < bpg && BlockNo(bpg, g, i) < |disk|
    }

    /** Each group's counter is its number of zero bits and the superblock's is their sum. */
    ghost predicate CountsExact()
      requires Shape()
    {
      && (forall g :: 0 <= g < |gd| ==> gd[g].free == |ZeroBits(Bitmap(g))|)
      && total == SumFree(gd)
    }

    ghost predicate Valid() {
      && Shape()
      && BitsInRange()
      && (forall g :: 0 <= g < |gd| ==> gd[g].bitmap !in Free())
      && CountsExact()
    }

    /** Same geometry and same place for every bitmap. */
    ghost predicate SameLayout(s: Snapshot) {
      && words == s.words && bpg == s.bpg && |disk| == |s.disk| && |gd| == |s.gd|
      && (forall g :: 0 <= g < |gd| ==> gd[g].bitmap == s.gd[g].bitmap)
    }
  }

  lemma ShapeOf(s: Snapshot)
    requires s.Valid()
    ensures s.Shape()
  {
  }

  // ----- block numbering

  /** Deallocation's division inverts the allocator's numbering. */
  lemma NumberingInverse(bpg: nat, g: nat, i: nat)
    requires i < bpg
    ensures GroupOf(bpg, BlockNo(bpg, g, i)) == g && IndexOf(bpg, BlockNo(bpg, g, i)) == i
  {
    QuotientIs(g * bpg + i, bpg, g, i);
  }

  lemma NumberingOnto(bpg: nat, b: nat)
    requires bpg > 0 && b > 0
    ensures IndexOf(bpg, b) < bpg && BlockNo(bpg, GroupOf(bpg, b), IndexOf(bpg, b)) == b
  {
  }

  /** The numbers count through the bits of group 0, then of group 1, and so on, from 1 on. */
  lemma NumberingCounts(bpg: nat, g: nat, i: nat)
    ensures BlockNo(bpg, 0, 0) == 1 && BlockNo(bpg, g, i + 1) == BlockNo(bpg, g, i) + 1
    ensures bpg > 0 ==> BlockNo(bpg, g + 1, 0) == BlockNo(bpg, g, bpg - 1) + 1
  {
    assert (g + 1) * bpg == g * bpg + bpg;
  }

  lemma NumberingOrder(bpg: nat, g: nat, i: nat, h: nat, j: nat)
    requires i < bpg && j < bpg
    requires g < h || (g == h && i <= j)
    ensures BlockNo(bpg, g, i) <= BlockNo(bpg, h, j)
  {
    if g < h {
      Scaled(g + 1, h, bpg);
    }
  }

  // ----- one bit changes hands

  function SetBlockBit(blk: Block, i: nat): (r: Block)
    requires i < 32 * |blk|
    ensures |r| == |blk|
  {
    WordWidth();
    SetBitBounded(blk[i / 32], i % 32, 32);
    blk[i / 32 := SetBit(blk[i / 32], i % 32)]
  }

  function ClearBlockBit(blk: Block, i: nat): (r: Block)
    requires i < 32 * |blk|
    ensures |r| == |blk|
  {
    ClearBitBounded(blk[i / 32], i % 32);
    blk[i / 32 := ClearBit(blk[i / 32], i % 32)]
  }

  lemma BitOfSetBlockBit(blk: Block, i: nat, j: nat)
    requires i < 32 * |blk| && j < 32 * |blk|
    ensures BlockBit(SetBlockBit(blk, i), j) == (j == i || BlockBit(blk, j))
  {
    BitOfSetBit(blk[i / 32], i % 32, j % 32);
  }

  lemma BitOfClearBlockBit(blk: Block, i: nat, j: nat)
    requires i < 32 * |blk| && j < 32 * |blk|
    ensures BlockBit(ClearBlockBit(blk, i), j) == (j != i && BlockBit(blk, j))
  {
    BitOfClearBit(blk[i / 32], i % 32, j % 32);
  }

  lemma ZeroBitsAfterSet(blk: Block, i: nat)
    requires i < 32 * |blk|
    ensures ZeroBits(SetBlockBit(blk, i)) == ZeroBits(blk) - {i}
  {
    forall j: nat | j < 32 * |blk|
      ensures BlockBit(SetBlockBit(blk, i), j) == (j == i || BlockBit(blk, j))
    {
      BitOfSetBlockBit(blk, i, j);
    }
  }

  lemma ZeroBitsAfterClear(blk: Block, i: nat)
    requires i < 32 * |blk|
    ensures ZeroBits(ClearBlockBit(blk, i)) == ZeroBits(blk) + {i}
  {
    forall j: nat | j < 32 * |blk|
      ensures BlockBit(ClearBlockBit(blk, i), j) == (j != i && BlockBit(blk, j))
    {
      BitOfClearBlockBit(blk, i, j);
    }
  }

  lemma {:induction false} SumFreeUpdate(gd: seq<Group>, g: nat, x: Group)
    requires g < |gd|
    ensures SumFree(gd[g := x]) == SumFree(gd) - gd[g].free + x.free
  {
    if g > 0 {
      assert gd[g := x][1..] == gd[1..][g - 1 := x];
      SumFreeUpdate(gd[1..], g - 1, x);
    } else {
      assert gd[g := x][1..] == gd[1..];
    }
  }

  /** What replacing group `g`'s bitmap by `blk` and its counter by `free` leads to. */
  function PutBitmap(s: Snapshot, g: nat, blk: Block, free: nat, total: nat): Snapshot
    requires g < |s.gd| && s.gd[g].bitmap < |s.disk|
  {
    s.(disk := s.disk[s.gd[g].bitmap := blk], gd := s.gd[g := s.gd[g].(free := free)], total := total)
  }

  lemma PutBitmapShape(s: Snapshot, g: nat, blk: Block, free: nat, total: nat)
    requires s.Shape() && g < |s.gd| && |blk| == s.words
    ensures PutBitmap(s, g, blk, free, total).Shape()
    ensures PutBitmap(s, g, blk, free, total).SameLayout(s)
    ensures forall h :: 0 <= h < |s.gd| ==>
      PutBitmap(s, g, blk, free, total).Bitmap(h) == if h == g then blk else s.Bitmap(h)
  {
  }

  /** Handing out bit `i` of group `g`. */
  function Take(s: Snapshot, g: nat, i: nat): Snapshot
    requires g < |s.gd| && s.gd[g].bitmap < |s.disk| && i < 32 * |s.disk[s.gd[g].bitmap]|
    requires s.gd[g].free > 0 && s.total > 0
  {
    PutBitmap(s, g, SetBlockBit(s.disk[s.gd[g].bitmap], i), s.gd[g].free - 1, s.total - 1)
  }

  /** Taking bit `i` of group `g` back. */
  function Give(s: Snapshot, g: nat, i: nat): Snapshot
    requires g < |s.gd| && s.gd[g].bitmap < |s.disk| && i < 32 * |s.disk[s.gd[g].bitmap]|
  {
    PutBitmap(s, g, ClearBlockBit(s.disk[s.gd[g].bitmap], i), s.gd[g].free + 1, s.total + 1)
  }

  lemma {:induction false} SumFreeBound(gd: seq<Group>, g: nat)
    requires g < |gd|
    ensures gd[g].free <= SumFree(gd)
  {
    if g > 0 {
      SumFreeBound(gd[1..], g - 1);
    }
  }

  lemma ZeroBitCounted(s: Snapshot, g: nat, i: nat)
    requires s.Valid() && g < |s.gd| && i < 32 * s.words && !s.Used(g, i)
    ensures s.gd[g].free > 0 && s.total > 0
  {
    assert i in ZeroBits(s.Bitmap(g));
    SumFreeBound(s.gd, g);
  }

  lemma FreeBits(s: Snapshot, b: nat)
    requires s.Valid() && b in s.Free()
    ensures 0 < b < |s.disk|
    ensures GroupOf(s.bpg, b) < |s.gd| && IndexOf(s.bpg, b) < s.bpg
    ensures !s.Used(GroupOf(s.bpg, b), IndexOf(s.bpg, b))
  {
  }

  /** The bits of a snapshot after one bit of one bitmap is given the value `v`. */
  ghost predicate OneBitChanged(s: Snapshot, t: Snapshot, g: nat, i: nat, v: bool)
    requires s.Shape() && t.Shape() && t.SameLayout(s)
  {
    forall h: nat, j: nat :: h < |s.gd| && j < 32 * s.words ==>
      t.Used(h, j) == if h == g && j == i then v else s.Used(h, j)
  }

  lemma FreeAfterOneBit(s: Snapshot, t: Snapshot, g: nat, i: nat, v: bool)
    requires s.Shape() && t.Shape() && t.SameLayout(s)
    requires OneBitChanged(s, t, g, i, v)
    requires g < |s.gd| && i < s.bpg && BlockNo(s.bpg, g, i) < |s.disk|
    ensures t.Free() == if v then s.Free() - {BlockNo(s.bpg, g, i)} else s.Free() + {BlockNo(s.bpg, g, i)}
  {
    var b0 := BlockNo(s.bpg, g, i);
    NumberingInverse(s.bpg, g, i);
    forall b: nat | 0 < b < |s.disk|
      ensures t.IsFree(b) == if b == b0 then !v else s.IsFree(b)
    {
      NumberingOnto(s.bpg, b);
    }
  }

  /** Changing one bit together with both counters keeps the volume valid. */
  lemma OneBitValid(s: Snapshot, g: nat, i: nat, blk: Block, free: nat, total: nat, v: bool)
    requires s.Valid() && g < |s.gd| && i < s.bpg && |blk| == s.words
    requires BlockNo(s.bpg, g, i) < |s.disk| && !s.IsBitmap(BlockNo(s.bpg, g, i))
    requires forall j: nat :: j < 32 * s.words ==> BlockBit(blk, j) == if j == i then v else s.Used(g, j)
    requires free == |ZeroBits(blk)| && total == s.total - s.gd[g].free + free
    ensures PutBitmap(s, g, blk, free, total).Valid()
    ensures PutBitmap(s, g, blk, free, total).Free()
         == if v then s.Free() - {BlockNo(s.bpg, g, i)} else s.Free() + {BlockNo(s.bpg, g, i)}
  {
    hide Bit, SumFree, BlockNo, GroupOf, IndexOf;
    var t := PutBitmap(s, g, blk, free, total);
    PutBitmapShape(s, g, blk, free, total);
    assert OneBitChanged(s, t, g, i, v);
    FreeAfterOneBit(s, t, g, i, v);
    SumFreeUpdate(s.gd, g, t.gd[g]);
    assert t.CountsExact();
  }

  lemma BitmapsNotFree(s: Snapshot, b: nat)
    requires s.Valid() && s.IsBitmap(b)
    ensures b !in s.Free()
  {
  }

  lemma ZeroBitIsFree(s: Snapshot, g: nat, i: nat)
    requires s.Valid() && g < |s.gd| && i < 32 * s.words && !s.Used(g, i)
    ensures i < s.bpg && BlockNo(s.bpg, g, i) < |s.disk| && !s.IsBitmap(BlockNo(s.bpg, g, i))
    ensures BlockNo(s.bpg, g, i) in s.Free()
  {
    NumberingInverse(s.bpg, g, i);
    var b := BlockNo(s.bpg, g, i);
    assert b in s.Free();
  }

  lemma ZeroBitIn(blk: Block, i: nat)
    requires i < 32 * |blk|
    ensures i in ZeroBits(blk) <==> !BlockBit(blk, i)
  {
    hide BlockBit;
  }

  lemma TakeValid(s: Snapshot, g: nat, i: nat)
    requires s.Valid() && g < |s.gd| && i < 32 * s.words && !s.Used(g, i)
    ensures s.gd[g].free > 0 && s.total > 0
    ensures BlockNo(s.bpg, g, i) in s.Free()
    ensures Take(s, g, i).Valid() && Take(s, g, i).SameLayout(s)
    ensures Take(s, g, i).Free() == s.Free() - {BlockNo(s.bpg, g, i)}
  {
    hide Bit, SetBit, SumFree, BlockNo, GroupOf, IndexOf, SetBlockBit, ZeroBits, Snapshot.SameLayout, PutBitmap;
    ZeroBitCounted(s, g, i);
    ZeroBitIsFree(s, g, i);
    var blk := SetBlockBit(s.Bitmap(g), i);
    forall j: nat | j < 32 * s.words
      ensures BlockBit(blk, j) == if j == i then true else s.Used(g, j)
    {
      BitOfSetBlockBit(s.Bitmap(g), i, j);
    }
    ZeroBitsAfterSet(s.Bitmap(g), i);
    ZeroBitIn(s.Bitmap(g), i);
    PutBitmapShape(s, g, blk, s.gd[g].free - 1, s.total - 1);
    OneBitValid(s, g, i, blk, s.gd[g].free - 1, s.total - 1, true);
  }

  lemma GiveValid(s: Snapshot, g: nat, i: nat)
    requires s.Valid() && g < |s.gd| && i < s.bpg && s.Used(g, i)
    requires BlockNo(s.bpg, g, i) < |s.disk| && !s.IsBitmap(BlockNo(s.bpg, g, i))
    ensures Give(s, g, i).Valid() && Give(s, g, i).SameLayout(s)
    ensures Give(s, g, i).Free() == s.Free() + {BlockNo(s.bpg, g, i)}
  {
    hide Bit, ClearBit, SumFree, BlockNo, GroupOf, IndexOf, ClearBlockBit, ZeroBits, Snapshot.SameLayout, PutBitmap;
    var blk := ClearBlockBit(s.Bitmap(g), i);
    forall j: nat | j < 32 * s.words
      ensures BlockBit(blk, j) == if j == i then false else s.Used(g, j)
    {
      BitOfClearBlockBit(s.Bitmap(g), i, j);
    }
    ZeroBitsAfterClear(s.Bitmap(g), i);
    ZeroBitIn(s.Bitmap(g), i);
    PutBitmapShape(s, g, blk, s.gd[g].free + 1, s.total + 1);
    OneBitValid(s, g, i, blk, s.gd[g].free + 1, s.total + 1, false);
  }
}
