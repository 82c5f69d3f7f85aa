/** The bitmap as bytes: most significant bit first, one bit a block. */
module BitmapBytes {
  import opened Disk
  import opened Allocator

  const BYTES := 1024

  /** 0x80 >> j. */
  function Mask(j: nat): bv8
    requires j < 8
  {
    (0x80 as bv8) >> (j as bv3)
  }

  predicate BitSet(x: bv8, j: nat)
    requires j < 8
  {
    x & Mask(j) != 0
  }

  /** One bit per block. */
  function BitsOf(bytes: seq<bv8>): Bitmap
    requires |bytes| == BYTES
  {
    seq(BITMAP_BITS, b requires 0 <= b < BITMAP_BITS => BitSet(bytes[b / 8], b % 8))
  }

  lemma OrMask(x: bv8, j: nat, k: nat)
    requires j < 8 && k < 8
    ensures BitSet(x | Mask(j), k) == (k == j || BitSet(x, k))
  {
  }

  lemma AndNotMask(x: bv8, j: nat, k: nat)
    requires j < 8 && k < 8
    ensures BitSet(x & !Mask(j), k) == (k != j && BitSet(x, k))
  {
  }

  lemma FirstBitOnly(bytes: seq<bv8>)
    requires |bytes| == BYTES && bytes[0] == 0x80 && forall k :: 1 <= k < BYTES ==> bytes[k] == 0
    ensures BitsOf(bytes) == Repeat(false, BITMAP_BITS)[0 := true]
  {
    forall j | 0 <= j < 8 ensures BitSet(0x80, j) == (j == 0) && !BitSet(0, j) {}
  }

  /** Changing one bit of one byte changes one bit of the bitmap. */
  lemma {:induction false} SetBitOf(bytes: seq<bv8>, x: bv8, b: nat, v: bool)
    requires |bytes| == BYTES && b < BITMAP_BITS
    requires forall k :: 0 <= k < 8 ==> BitSet(x, k) == if k == b % 8 then v else BitSet(bytes[b / 8], k)
    ensures BitsOf(bytes[b / 8 := x]) == BitsOf(bytes)[b := v]
  {
    hide BitSet;
    var bits, bits1 := BitsOf(bytes), BitsOf(bytes[b / 8 := x]);
    forall c | 0 <= c < BITMAP_BITS ensures bits1[c] == bits[b := v][c] {
      if c / 8 == b / 8 {
        assert c == b <==> c % 8 == b % 8;
      }
    }
  }

  /** The bitmap part of allocate_bitmap, with the scan's bit test repaired: set bit
      `newBlock` and return the next free index, scanning from the byte just changed. */
  method MarkAndScan(index: array<bv8>, newBlock: nat) returns (next: int)
    requires index.Length == BYTES && newBlock < BITMAP_BITS
    modifies index
    ensures BitsOf(index[..]) == BitsOf(old(index[..]))[newBlock := true]
    ensures next == NextFree(BitsOf(index[..]), newBlock)
  {
    SetBit(index, newBlock);
    ghost var bits := BitsOf(index[..]);
    hide BitSet, LeastClear;
    var indexNum := newBlock / 8;
    var i, j := indexNum, 8;
    while i < BYTES && j == 8
      invariant indexNum <= i <= BYTES && 0 <= j <= 8
      invariant i == indexNum ==> j == 8
      invariant if i == indexNum then true else Scanned(bits, 8 * indexNum, 8 * (i - 1) + j)
      invariant j < 8 ==> !bits[8 * (i - 1) + j]
      decreases BYTES - i
    {
      j := 0;
      while j < 8
        invariant 0 <= j <= 8
        invariant Scanned(bits, 8 * indexNum, 8 * i + j)
      {
        assert bits[8 * i + j] == BitSet(index[i], j);
        if !BitSet(index[i], j) { break; }
        j := j + 1;
      }
      i := i + 1;
    }
    i := i - 1;
    next := i * 8 + j;
    LeastClearUnique(bits, 8 * indexNum, next);
    if next > SPACE { next := NO_BLOCK; }
  }

  ghost predicate Scanned(bits: Bitmap, lo: nat, hi: int) {
    lo <= hi <= BITMAP_BITS && forall b :: lo <= b < hi ==> bits[b]
  }

  method SetBit(index: array<bv8>, b: nat)
    requires index.Length == BYTES && b < BITMAP_BITS
    modifies index
    ensures BitsOf(index[..]) == BitsOf(old(index[..]))[b := true]
  {
    ghost var bytes := index[..];
    index[b / 8] := index[b / 8] | Mask(b % 8);
    forall k | 0 <= k < 8 ensures BitSet(index[b / 8], k) == (k == b % 8 || BitSet(bytes[b / 8], k)) {
      OrMask(bytes[b / 8], b % 8, k);
    }
    assert index[..] == bytes[b / 8 := index[b / 8]];
    SetBitOf(bytes, index[b / 8], b, true);
  }

  method ClearBit(index: array<bv8>, b: nat)
    requires index.Length == BYTES && b < BITMAP_BITS
    modifies index
    ensures BitsOf(index[..]) == BitsOf(old(index[..]))[b := false]
  {
    ghost var bytes := index[..];
    index[b / 8] := index[b / 8] & !Mask(b % 8);
    forall k | 0 <= k < 8 ensures BitSet(index[b / 8], k) == (k != b % 8 && BitSet(bytes[b / 8], k)) {
      AndNotMask(bytes[b / 8], b % 8, k);
    }
    assert index[..] == bytes[b / 8 := index[b / 8]];
    SetBitOf(bytes, index[b / 8], b, false);
  }

  /** The bitmap part of allocate_bitmap as written: the scan tests `index[i] && mask`, so
      the byte just set ends it at once and the next index is always the byte's first bit. */
  method MarkAndScanAsWritten(index: array<bv8>, newBlock: nat) returns (next: int)
    requires index.Length == BYTES && newBlock < BITMAP_BITS
    modifies index
    ensures BitsOf(index[..]) == BitsOf(old(index[..]))[newBlock := true]
    ensures next == NextFreeAsWritten(newBlock)
  {
    hide BitSet, BitsOf;
    SetBit(index, newBlock);
    var indexNum := newBlock / 8;
    var i, j := indexNum, 8;
    while i < BYTES && j == 8
      invariant indexNum <= i <= BYTES && 0 <= j <= 8
      invariant index[indexNum] != 0 ==> (i == indexNum && j == 8) || (i == indexNum + 1 && j == 0)
    {
      j := 0;
      while j < 8
        invariant 0 <= j <= 8
        invariant index[indexNum] != 0 && i == indexNum ==> j == 0
      {
        if index[i] != 0 && Mask(j) != 0 { break; }
        j := j + 1;
      }
      i := i + 1;
    }
    i := i - 1;
    next := i * 8 + j;
    if next > SPACE { next := NO_BLOCK; }
    SetByteNonzero(index[..], newBlock);
  }

  lemma SetByteNonzero(bytes: seq<bv8>, b: nat)
    requires |bytes| == BYTES && b < BITMAP_BITS && BitsOf(bytes)[b]
    ensures bytes[b / 8] != 0
  {
  }

  function NextFreeAsWritten(b: nat): int {
    var r := 8 * (b / 8);
    if r > SPACE then NO_BLOCK else r
  }

  /** As written, the cached index names a clear bit just when the block taken was not the
      first of its byte and that first one is clear. */
  lemma NextFreeAsWrittenIsFreeIff(bits: Bitmap, b: nat)
    requires b < SPACE
    ensures !bits[b := true][NextFreeAsWritten(b)] <==> b % 8 != 0 && !bits[8 * (b / 8)]
  {
    assert b % 8 == 0 <==> 8 * (b / 8) == b;
  }

  /** So it never does when the block taken was the least free one: the next allocation
      hands out a block that is in use. After init_datastructure the second allocation gets
      block 0, the root's. */
  lemma NextFreeAsWrittenInUse(st: State)
    requires AllocInv(st) && st.freeBlocks >= 1
    ensures st.bits[st.firstBlock := true][NextFreeAsWritten(st.firstBlock)]
    ensures st.firstBlock == 1 ==> NextFreeAsWritten(1) == 0 && st.bits[0]
  {
    FirstBlockUsable(st);
    NextFreeAsWrittenIsFreeIff(st.bits, st.firstBlock);
  }

  /** 0x08 ^ (0xff >> j), the mask that free_bitmap ORs in. */
  function WrongMask(j: nat): bv8
    requires j < 8
  {
    0x08 ^ ((0xff as bv8) >> (j as bv3))
  }

  lemma WrongMaskBits(x: bv8, j: nat, k: nat)
    requires j < 8 && k < 8
    ensures BitSet(x | WrongMask(j), k) == (BitSet(x, k) || (k != 4 && k >= j) || (k == 4 && j > 4))
  {
  }

  /** free_bitmap as written. */
  method FreeBitAsWritten(index: array<bv8>, b: nat)
    requires index.Length == BYTES && b < BITMAP_BITS
    modifies index
    ensures BitsOf(index[..]) == FreedAsWritten(BitsOf(old(index[..])), b)
  {
    ghost var bytes := index[..];
    index[b / 8] := index[b / 8] | WrongMask(b % 8);
    ghost var bits, bits1, bits2 := BitsOf(bytes), BitsOf(index[..]), FreedAsWritten(BitsOf(bytes), b);
    forall c | 0 <= c < BITMAP_BITS ensures bits1[c] == bits2[c] {
      if c / 8 == b / 8 { WrongMaskBits(bytes[b / 8], b % 8, c % 8); }
    }
  }

  function FreedAsWritten(bits: Bitmap, b: nat): Bitmap
    requires b < BITMAP_BITS
  {
    seq(BITMAP_BITS, c requires 0 <= c < BITMAP_BITS =>
      bits[c] || (c / 8 == b / 8 && ((c % 8 != 4 && c % 8 >= b % 8) || (c % 8 == 4 && b % 8 > 4))))
  }

  /** As written, the block is free afterwards just when it was free before and is the
      fifth of its byte: a block in use is never released. */
  lemma FreedAsWrittenIff(bits: Bitmap, b: nat)
    requires b < BITMAP_BITS
    ensures !FreedAsWritten(bits, b)[b] <==> !bits[b] && b % 8 == 4
    ensures bits[b] ==> FreedAsWritten(bits, b)[b]
  {
  }
}
