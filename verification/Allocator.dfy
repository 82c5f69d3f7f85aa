/** The block allocator over the bits of the bitmap: the cached first free block and
    the free count of the superblock, and what every call keeps of them. */
module Allocator {
  import opened Disk

  /** Free blocks among the first `n`. */
  function FreeCount(bits: seq<bool>, n: nat): (c: nat)
    requires n <= |bits|
    ensures c <= n
  {
    if n == 0 then 0 else FreeCount(bits, n - 1) + if bits[n - 1] then 0 else 1
  }

  /** The least clear bit at or after `from`, |bits| when there is none. */
  function LeastClear(bits: seq<bool>, from: nat): (r: nat)
    requires from <= |bits|
    ensures from <= r <= |bits|
    ensures forall b :: from <= b < r ==> bits[b]
    ensures r < |bits| ==> !bits[r]
    decreases |bits| - from
  {
    if from == |bits| || !bits[from] then from else LeastClear(bits, from + 1)
  }

  /** The cached index after scanning from the byte that holds bit `b`. */
  function NextFree(bits: Bitmap, b: nat): int
    requires b < BITMAP_BITS
  {
    var r := LeastClear(bits, 8 * (b / 8));
    if r > SPACE then NO_BLOCK else r
  }

  /** allocate_bitmap of block `b`, with the scan's bit test repaired. */
  function MarkBlock(st: State, b: nat): State
    requires b < BITMAP_BITS
  {
    var bits := st.bits[b := true];
    st.(bits := bits, freeBlocks := st.freeBlocks - 1, firstBlock := NextFree(bits, b))
  }

  function TakeBlock(st: State): State
    requires 0 <= st.firstBlock < BITMAP_BITS
  {
    MarkBlock(st, st.firstBlock)
  }

  /** free_bitmap of block `b`, with the bit cleared, after the block was zeroed. */
  function ReleaseBlock(st: State, b: nat): State
    requires b < SPACE
  {
    st.(bits := st.bits[b := false], freeBlocks := st.freeBlocks + 1,
        firstBlock := if st.firstBlock > b then b else st.firstBlock,
        disk := st.disk[b := Zero])
  }

  /** The cached index is the least clear bit, the count is the number of clear bits,
      and the bits past the space are clear. */
  ghost predicate AllocInv(st: State) {
    && 0 <= st.firstBlock <= SPACE
    && (forall b :: 0 <= b < st.firstBlock ==> st.bits[b])
    && !st.bits[st.firstBlock]
    && (forall b :: SPACE <= b < BITMAP_BITS ==> !st.bits[b])
    && st.freeBlocks == FreeCount(st.bits, SPACE)
  }

  lemma {:induction false} LeastClearUnique(bits: seq<bool>, from: nat, r: nat)
    requires from <= r <= |bits| && (forall b :: from <= b < r ==> bits[b]) && (r < |bits| ==> !bits[r])
    ensures LeastClear(bits, from) == r
    decreases r - from
  {
    if from < r { LeastClearUnique(bits, from + 1, r); }
  }

  lemma {:induction false} FreeCountUpdate(bits: seq<bool>, n: nat, b: nat, v: bool)
    requires n <= |bits| && b < |bits|
    ensures FreeCount(bits[b := v], n) ==
            FreeCount(bits, n) + if b >= n || bits[b] == v then 0 else if v then -1 else 1
  {
    if n > 0 {
      FreeCountUpdate(bits, n - 1, b, v);
    }
  }

  lemma {:induction false} FreeCountZero(bits: seq<bool>, n: nat)
    requires n <= |bits|
    ensures FreeCount(bits, n) == 0 <==> forall b :: 0 <= b < n ==> bits[b]
  {
    if n > 0 {
      FreeCountZero(bits, n - 1);
    }
  }

  /** The count of the superblock says exactly whether the cached index can be taken. */
  lemma {:induction false} FirstBlockUsable(st: State)
    requires AllocInv(st)
    ensures st.freeBlocks >= 1 <==> st.firstBlock < SPACE
  {
    FreeCountZero(st.bits, SPACE);
    assert st.firstBlock < SPACE ==> !st.bits[st.firstBlock];
  }

  /** Taking a block keeps the cache exact although only bytes from the taken one on are
      scanned, and marks exactly one more block. */
  lemma {:induction false} TakeBlockKeepsInv(st: State)
    requires AllocInv(st) && st.freeBlocks >= 1
    ensures st.firstBlock < SPACE && !st.bits[st.firstBlock]
    ensures AllocInv(TakeBlock(st))
    ensures TakeBlock(st).firstBlock > st.firstBlock
  {
    FirstBlockUsable(st);
    var b := st.firstBlock;
    var st1 := TakeBlock(st);
    FreeCountUpdate(st.bits, SPACE, b, true);
    assert !st1.bits[SPACE];
    var r := LeastClear(st1.bits, 8 * (b / 8));
    assert r <= SPACE;
  }

  lemma {:induction false} ReleaseBlockKeepsInv(st: State, b: nat)
    requires AllocInv(st) && b < SPACE && st.bits[b]
    ensures AllocInv(ReleaseBlock(st, b))
  {
    FreeCountUpdate(st.bits, SPACE, b, false);
  }
}
