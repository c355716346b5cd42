/** Little-endian words in byte buffers. */
module Bytes {

  type Byte = b: int | 0 <= b < 256
  type Word16 = w: int | 0 <= w < 0x1_0000
  type Word32 = w: int | 0 <= w < 0x1_0000_0000

  /** Byte `j` of a number, the least significant one first. */
  function BytePart(w: nat, j: nat): (b: Byte) {
    if j == 0 then w % 0x100 else BytePart(w / 0x100, j - 1)
  }

  function Load32(s: seq<Byte>, at: nat): (w: Word32)
    requires at + 4 <= |s|
  {
    var b0: int, b1: int, b2: int, b3: int := s[at], s[at + 1], s[at + 2], s[at + 3];
    b0 + 0x100 * b1 + 0x1_0000 * b2 + 0x100_0000 * b3
  }

  /** The bytes of a loaded word are the bytes of the buffer, in their order. */
  lemma Load32Bytes(s: seq<Byte>, at: nat, j: nat)
    requires at + 4 <= |s| && j < 4
    ensures BytePart(Load32(s, at), j) == s[at + j]
  {
    FourDigits(s[at], s[at + 1], s[at + 2], s[at + 3]);
  }

  lemma FourDigits(b0: Byte, b1: Byte, b2: Byte, b3: Byte)
    ensures var w := b0 as int + 0x100 * b1 as int + 0x1_0000 * b2 as int + 0x100_0000 * b3 as int;
      BytePart(w, 0) == b0 && BytePart(w, 1) == b1 && BytePart(w, 2) == b2 && BytePart(w, 3) == b3
  {
    var w2 := b2 as int + 0x100 * b3 as int;
    var w1 := b1 as int + 0x100 * w2;
    var w := b0 as int + 0x100 * w1;
    assert w / 0x100 == w1 && w1 / 0x100 == w2 && w2 / 0x100 == b3 as int;
    Parts(w);
  }

  lemma Parts(w: nat)
    ensures BytePart(w, 0) == w % 0x100 && BytePart(w, 1) == w / 0x100 % 0x100
    ensures BytePart(w, 2) == w / 0x100 / 0x100 % 0x100 && BytePart(w, 3) == w / 0x100 / 0x100 / 0x100 % 0x100
  {
    assert BytePart(w / 0x100, 1) == BytePart(w / 0x100 / 0x100, 0);
    assert BytePart(w / 0x100, 2) == BytePart(w / 0x100 / 0x100, 1) == BytePart(w / 0x100 / 0x100 / 0x100, 0);
  }

  function Stored32(s: seq<Byte>, at: nat, w: Word32): (r: seq<Byte>)
    requires at + 4 <= |s|
    ensures |r| == |s|
  {
    s[at := w % 0x100][at + 1 := w / 0x100 % 0x100][at + 2 := w / 0x1_0000 % 0x100][at + 3 := w / 0x100_0000]
  }

  lemma Load32Back(s: seq<Byte>, at: nat, w: Word32)
    requires at + 4 <= |s|
    ensures Load32(Stored32(s, at, w), at) == w
  {
    var a, b, c := w / 0x100, w / 0x1_0000, w / 0x100_0000;
    assert b == a / 0x100 && c == b / 0x100;
    assert w == w % 0x100 + 0x100 * a && a == a % 0x100 + 0x100 * b && b == b % 0x100 + 0x100 * c;
  }

  lemma Load32Elsewhere(s: seq<Byte>, at: nat, w: Word32, other: nat)
    requires at + 4 <= |s| && other + 4 <= |s| && (other + 4 <= at || at + 4 <= other)
    ensures Load32(Stored32(s, at, w), other) == Load32(s, other)
  {
  }

  function Load16(s: seq<Byte>, at: nat): (w: Word16)
    requires at + 2 <= |s|
  {
    var b0: int, b1: int := s[at], s[at + 1];
    b0 + 0x100 * b1
  }

  lemma Load16Bytes(s: seq<Byte>, at: nat, j: nat)
    requires at + 2 <= |s| && j < 2
    ensures BytePart(Load16(s, at), j) == s[at + j]
  {
    var b0: int, b1: int := s[at], s[at + 1];
    assert (b0 + 0x100 * b1) / 0x100 == b1;
  }

  function Stored16(s: seq<Byte>, at: nat, w: Word16): (r: seq<Byte>)
    requires at + 2 <= |s|
    ensures |r| == |s|
  {
    s[at := w % 0x100][at + 1 := w / 0x100]
  }

  lemma Load16Back(s: seq<Byte>, at: nat, w: Word16)
    requires at + 2 <= |s|
    ensures Load16(Stored16(s, at, w), at) == w
  {
  }
}
