/** Disk blocks: BSIZE bytes, also read as an array of little-endian 32-bit words
    (the log header and the indirect blocks are such arrays). */
module Blocks {

  const BSIZE := 512
  const WORDS := 128          // BSIZE / sizeof(uint)
  const WORD_LIMIT := 0x1_0000_0000

  type Byte = x: int | 0 <= x < 256

  type Block = b: seq<Byte> | |b| == BSIZE witness seq(BSIZE, i => 0)

  /** The contents of a whole disk, block by block. */
  type Image = seq<Block>

  function ZeroBlock(): (b: Block)
    ensures forall i :: 0 <= i < BSIZE ==> b[i] == 0
  {
    seq(BSIZE, i => 0)
  }

  // ---------------------------------------------------------------- little-endian numbers

  /** How many values n bytes have. */
  function Values256(n: nat): (v: nat)
    ensures 0 < v
  {
    if n == 0 then 1 else 0x100 * Values256(n - 1)
  }

  /** The number in the n bytes from `at` on. */
  function GetBytes(b: seq<Byte>, at: nat, n: nat): (w: nat)
    requires at + n <= |b|
    ensures w < Values256(n)
    decreases n, at
  {
    if n == 0 then 0 else b[at] as int + 0x100 * GetBytes(b, at + 1, n - 1)
  }

  function PutBytes(b: seq<Byte>, at: nat, n: nat, w: nat): (r: seq<Byte>)
    requires at + n <= |b|
    ensures |r| == |b|
    decreases n, at
  {
    if n == 0 then b else PutBytes(b[at := w % 0x100], at + 1, n - 1, w / 0x100)
  }

  lemma {:induction false} PutBytesOnly(b: seq<Byte>, at: nat, n: nat, w: nat)
    requires at + n <= |b|
    ensures forall k :: 0 <= k < |b| && !(at <= k < at + n) ==> PutBytes(b, at, n, w)[k] == b[k]
    decreases n
  {
    if n > 0 {
      PutBytesOnly(b[at := w % 0x100], at + 1, n - 1, w / 0x100);
    }
  }

  lemma {:induction false} GetBytesSame(b: seq<Byte>, c: seq<Byte>, at: nat, n: nat)
    requires at + n <= |b| && at + n <= |c| && forall k :: at <= k < at + n ==> b[k] == c[k]
    ensures GetBytes(b, at, n) == GetBytes(c, at, n)
    decreases n
  {
    if n > 0 {
      GetBytesSame(b, c, at + 1, n - 1);
    }
  }

  lemma {:induction false} GetBytesPut(b: seq<Byte>, at: nat, n: nat, w: nat)
    requires at + n <= |b| && w < Values256(n)
    ensures GetBytes(PutBytes(b, at, n, w), at, n) == w
    decreases n
  {
    if n > 0 {
      var c := b[at := w % 0x100];
      GetBytesPut(c, at + 1, n - 1, w / 0x100);
      PutBytesOnly(c, at + 1, n - 1, w / 0x100);
    }
  }

  lemma FourBytes()
    ensures Values256(4) == WORD_LIMIT
  {
    assert Values256(1) == 0x100 && Values256(2) == 0x1_0000 && Values256(3) == 0x100_0000;
  }

  /** The i-th word of a block. */
  function GetWord(b: Block, i: nat): (w: nat)
    requires i < WORDS
    ensures w < WORD_LIMIT
  {
    FourBytes();
    GetBytes(b, 4 * i, 4)
  }

  /** The block with its i-th word replaced by w. */
  function PutWord(b: Block, i: nat, w: nat): (r: Block)
    requires i < WORDS && w < WORD_LIMIT
    ensures GetWord(r, i) == w
    ensures forall j: nat :: j < WORDS && j != i ==> GetWord(r, j) == GetWord(b, j)
  {
    PutWordOnly(b, i, w);
    PutBytes(b, 4 * i, 4, w)
  }

  lemma PutWordOnly(b: Block, i: nat, w: nat)
    requires i < WORDS && w < WORD_LIMIT
    ensures GetBytes(PutBytes(b, 4 * i, 4, w), 4 * i, 4) == w
    ensures forall j: nat {:trigger GetBytes(b, 4 * j, 4)} :: j < WORDS && j != i ==>
              GetBytes(PutBytes(b, 4 * i, 4, w), 4 * j, 4) == GetBytes(b, 4 * j, 4)
  {
    FourBytes();
    GetBytesPut(b, 4 * i, 4, w);
    PutBytesOnly(b, 4 * i, 4, w);
    forall j: nat | j < WORDS && j != i
      ensures GetBytes(PutBytes(b, 4 * i, 4, w), 4 * j, 4) == GetBytes(b, 4 * j, 4)
    {
      GetBytesSame(b, PutBytes(b, 4 * i, 4, w), 4 * j, 4);
    }
  }

  /** Every word of the zero block is 0, which is how a fresh indirect block comes to hold no addresses. */
  lemma ZeroBlockWords(i: nat)
    requires i < WORDS
    ensures GetWord(ZeroBlock(), i) == 0
  {
    ZeroBytes(ZeroBlock(), 4 * i, 4);
  }

  lemma {:induction false} ZeroBytes(b: seq<Byte>, at: nat, n: nat)
    requires at + n <= |b| && forall k :: 0 <= k < |b| ==> b[k] == 0
    ensures GetBytes(b, at, n) == 0
    decreases n
  {
    if n > 0 {
      ZeroBytes(b, at + 1, n - 1);
    }
  }
}
