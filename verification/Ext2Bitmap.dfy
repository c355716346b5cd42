/** The block bitmaps in memory: bit by bit, byte by byte, and what an allocation stores. */
module Ext2Bitmap {
  import opened Bytes
  import opened Division
  import opened Words
  import opened Ext2Volume
  import opened Ext2Bytes
  import opened Ext2OnDisk

  // ----- bits of a number

  lemma HalfOf(w: nat, p: nat)
    requires p > 0
    ensures w / (2 * p) == w / 2 / p && w % (2 * p) == w / 2 % p * 2 + w % 2
  {
    var q, r := w / 2 / p, w / 2 % p;
    assert w / 2 == q * p + r;
    assert (2 * p) * q == 2 * (p * q);
    QuotientIs(w, 2 * p, q, r * 2 + w % 2);
  }

  /** Bit `k` of a number is worth 2^k. */
  lemma {:induction false} BitIs(w: nat, k: nat)
    ensures Bit(w, k) <==> w / Pow2(k) % 2 == 1
  {
    if k > 0 {
      BitIs(w / 2, k - 1);
      HalfOf(w, Pow2(k - 1));
    }
  }

  /** Setting a bit adds its worth, clearing it takes it away; where nothing is to be done nothing is. */
  lemma {:induction false} BitWorth(w: nat, k: nat)
    ensures SetBit(w, k) == w + if Bit(w, k) then 0 else Pow2(k)
    ensures ClearBit(w, k) == w - if Bit(w, k) then Pow2(k) else 0
  {
    if k > 0 {
      BitWorth(w / 2, k - 1);
    }
  }

  lemma {:induction false} LowBits(w: nat, n: nat, m: nat)
    requires m < n
    ensures Bit(w % Pow2(n), m) == Bit(w, m)
  {
    HalfOf(w, Pow2(n - 1));
    if m > 0 {
      LowBits(w / 2, n - 1, m - 1);
      assert w % Pow2(n) / 2 == w / 2 % Pow2(n - 1);
    } else {
      assert w % Pow2(n) % 2 == w % 2;
    }
  }

  lemma EightBits(w: nat, k: nat)
    ensures Bit(w, k + 8) == Bit(w / 0x100, k)
  {
    assert Bit(w, k + 8) == Bit(w / 2, k + 7) == Bit(w / 2 / 2, k + 6) == Bit(w / 2 / 2 / 2, k + 5);
    var v := w / 2 / 2 / 2;
    assert Bit(v, k + 5) == Bit(v / 2, k + 4) == Bit(v / 2 / 2, k + 3) == Bit(v / 2 / 2 / 2, k + 2);
    var u := v / 2 / 2 / 2;
    assert Bit(u, k + 2) == Bit(u / 2, k + 1) == Bit(u / 2 / 2, k);
  }

  lemma {:induction false} BitInByte(w: nat, j: nat, m: nat)
    requires m < 8
    ensures Bit(BytePart(w, j), m) == Bit(w, 8 * j + m)
  {
    hide Bit;
    if j == 0 {
      assert Pow2(8) == 0x100;
      LowBits(w, 8, m);
    } else {
      BitInByte(w / 0x100, j - 1, m);
      EightBits(w, 8 * (j - 1) + m);
    }
  }

  // ----- bitmap blocks

  /** Bit `i` of a bitmap block is bit i % 8 of byte i / 8 of its memory. */
  lemma BitInMemory(blk: Block, i: nat)
    requires i < 32 * |blk|
    ensures i / 8 < |BytesOf(blk)|
    ensures BlockBit(blk, i) <==> BytesOf(blk)[i / 8] as int / Pow2(i % 8) % 2 == 1
  {
    hide BytesOf, Bit, BytePart, Pow2;
    var word, byte := i / 32, i % 32 / 8;
    assert i / 8 == 4 * word + byte && i % 8 == i % 32 % 8 && i % 32 == 8 * byte + i % 8;
    WordInMemory(blk, word);
    ByteInMemory(blk, word, byte);
    BitInByte(blk[word], byte, i % 8);
    BitIs(BytesOf(blk)[i / 8], i % 8);
  }

  /** Handing a block out adds its bit to one word of one bitmap and takes one from both counters. */
  lemma TakenOnDisk(s: Snapshot, g: nat, i: nat)
    requires s.Valid() && g < |s.gd| && i < 32 * s.words && !s.Used(g, i)
    ensures s.gd[g].free > 0 && s.total > 0
    ensures var t, b := Take(s, g, i), s.gd[g].bitmap;
      && |t.disk| == |s.disk| && b < |s.disk| && |t.disk[b]| == |s.disk[b]| && i / 32 < |s.disk[b]|
      && t.disk[b][i / 32] == s.disk[b][i / 32] + Pow2(i % 32)
      && (forall j :: 0 <= j < |s.disk[b]| && j != i / 32 ==> t.disk[b][j] == s.disk[b][j])
      && (forall c :: 0 <= c < |s.disk| && c != b ==> t.disk[c] == s.disk[c])
      && t.total == s.total - 1 && t.gd == s.gd[g := Group(b, s.gd[g].free - 1)]
  {
    ZeroBitCounted(s, g, i);
    hide Bit, SetBit, Snapshot.Valid, Pow2;
    ShapeOf(s);
    BitWorth(s.disk[s.gd[g].bitmap][i / 32], i % 32);
  }

  /** Taking a block back takes its bit from that word and gives one to both counters. */
  lemma GivenOnDisk(s: Snapshot, g: nat, i: nat)
    requires s.Valid() && g < |s.gd| && i < 32 * s.words && s.Used(g, i)
    ensures var t, b := Give(s, g, i), s.gd[g].bitmap;
      && |t.disk| == |s.disk| && b < |s.disk| && |t.disk[b]| == |s.disk[b]| && i / 32 < |s.disk[b]|
      && t.disk[b][i / 32] == s.disk[b][i / 32] - Pow2(i % 32)
      && (forall j :: 0 <= j < |s.disk[b]| && j != i / 32 ==> t.disk[b][j] == s.disk[b][j])
      && (forall c :: 0 <= c < |s.disk| && c != b ==> t.disk[c] == s.disk[c])
      && t.total == s.total + 1 && t.gd == s.gd[g := Group(b, s.gd[g].free + 1)]
  {
    hide Bit, ClearBit, Snapshot.Valid, Pow2;
    ShapeOf(s);
    BitWorth(s.disk[s.gd[g].bitmap][i / 32], i % 32);
  }
}
