/** The free-block bitmap: one bit per disk block, BPB bits to a bitmap block, eight to a byte. */
module Bitmap {
  import opened Blocks

  const BPB := 4096       // BSIZE * 8

  /** x & (1 << k) */
  predicate TestBit(x: nat, k: nat) {
    if k == 0 then x % 2 == 1 else TestBit(x / 2, k - 1)
  }

  /** x | (1 << k), or x & ~(1 << k) */
  function PutBit(x: nat, k: nat, on: bool): nat {
    if k == 0 then x - x % 2 + (if on then 1 else 0) else 2 * PutBit(x / 2, k - 1, on) + x % 2
  }

  lemma {:induction false} PutBitTests(x: nat, k: nat, on: bool, j: nat)
    ensures TestBit(PutBit(x, k, on), j) == if j == k then on else TestBit(x, j)
  {
    if k == 0 {
      if j > 0 {
        assert PutBit(x, k, on) / 2 == x / 2;
      }
    } else {
      assert PutBit(x, k, on) / 2 == PutBit(x / 2, k - 1, on);
      if j > 0 {
        PutBitTests(x / 2, k - 1, on, j - 1);
      }
    }
  }

  lemma {:induction false} TestBitOfZero(k: nat)
    ensures !TestBit(0, k)
  {
    if k > 0 {
      TestBitOfZero(k - 1);
    }
  }

  function Power2(n: nat): nat {
    if n == 0 then 1 else 2 * Power2(n - 1)
  }

  lemma {:induction false} PutBitFits(x: nat, k: nat, on: bool, n: nat)
    requires x < Power2(n) && k < n
    ensures PutBit(x, k, on) < Power2(n)
  {
    HalfFits(x, Power2(n - 1));
    if k > 0 {
      PutBitFits(x / 2, k - 1, on, n - 1);
    }
  }

  lemma HalfFits(x: nat, h: nat)
    requires x < 2 * h
    ensures x / 2 < h && x - x % 2 == 2 * (x / 2) && x % 2 <= 1
  {
  }

  // ---------------------------------------------------------------- bits on the disk

  function BitmapBlock(bmapstart: nat, b: nat): nat {
    bmapstart + b / BPB
  }

  /** The bit of block b. */
  predicate Bit(disk: Image, bmapstart: nat, b: nat)
    requires BitmapBlock(bmapstart, b) < |disk|
  {
    TestBit(disk[BitmapBlock(bmapstart, b)][b % BPB / 8], b % 8)
  }

  /** A bitmap block with the bit at index bi changed. */
  function PutBitInBlock(data: Block, bi: nat, on: bool): (r: Block)
    requires bi < BPB
  {
    assert Power2(8) == 256;
    PutBitFits(data[bi / 8], bi % 8, on, 8);
    data[bi / 8 := PutBit(data[bi / 8], bi % 8, on)]
  }

  /** Changing one bit on the disk changes that bit only. */
  lemma BitAfterPut(disk: Image, bmapstart: nat, b: nat, on: bool, c: nat)
    requires BitmapBlock(bmapstart, b) < |disk| && BitmapBlock(bmapstart, c) < |disk|
    ensures var k := BitmapBlock(bmapstart, b);
            Bit(disk[k := PutBitInBlock(disk[k], b % BPB, on)], bmapstart, c) == if c == b then on else Bit(disk, bmapstart, c)
  {
    var k := BitmapBlock(bmapstart, b);
    if c / BPB == b / BPB && c % BPB / 8 == b % BPB / 8 {
      PutBitTests(disk[k][b % BPB / 8], b % 8, on, c % 8);
      SameByte(b, c);
    }
  }

  lemma SameByte(b: nat, c: nat)
    requires c / BPB == b / BPB && c % BPB / 8 == b % BPB / 8
    ensures b % BPB % 8 == b % 8 && c % BPB % 8 == c % 8
    ensures c % 8 == b % 8 <==> c == b
  {
    WithinByte(b);
    WithinByte(c);
  }

  lemma WithinByte(b: nat)
    ensures b % BPB % 8 == b % 8
    ensures b == BPB * (b / BPB) + 8 * (b % BPB / 8) + b % 8
  {
    var q, r := b / BPB, b % BPB;
    assert b == BPB * q + r;
    RestOfEight(b, 512 * q + r / 8, r % 8);
  }

  lemma RestOfEight(x: nat, k: nat, y: nat)
    requires x == 8 * k + y && y < 8
    ensures x % 8 == y
  {
  }
}
