/** How much write_file writes, and what that costs, from the numbers of blocks alone. */
module WriteLength {
  import opened Disk
  import opened BlockIndex
  import opened FileData
  import opened Runs

  /** The refusals of allocate_block say just that the next block costs more than there is. */
  lemma RefusedIffCost(n: nat, free: int)
    ensures n >= MAX_BLOCKS || free < Cost(n + 1) - Cost(n) <==> Refused(n, free)
  {
  }

  /** What a file of n blocks can grow to with `free` free blocks. */
  function Room(n: nat, free: int): (m: nat)
    requires n <= MAX_BLOCKS
    ensures n <= m <= MAX_BLOCKS
    decreases MAX_BLOCKS - n
  {
    if Refused(n, free) then n else Room(n + 1, free - (Cost(n + 1) - Cost(n)))
  }

  lemma {:induction false} CostGrows(m: nat, n: nat)
    requires m <= n
    ensures Cost(m) <= Cost(n)
  {
  }

  /** It is the largest number of blocks, up to that of the largest file, that can be paid for. */
  lemma {:induction false} RoomIsLargest(n: nat, free: nat, m: nat)
    requires n <= m <= MAX_BLOCKS
    ensures Cost(m) - Cost(n) <= free <==> m <= Room(n, free)
    decreases MAX_BLOCKS - n
  {
    RefusedIffCost(n, free);
    if Refused(n, free) {
      if m > n { CostGrows(n + 1, m); }
    } else {
      if m > n { RoomIsLargest(n + 1, free - (Cost(n + 1) - Cost(n)), m); }
    }
  }

  lemma {:induction false} NeededCost(st: State, owner: Owners, i: nat)
    requires FsInv(st, owner) && i < INODES && st.inodes[i].Live() && st.inodes[i].BlockCount() < MAX_BLOCKS
    ensures var n := st.inodes[i].BlockCount(); 0 <= n && |RolesNeeded(st, i, n)| == Cost(n + 1) - Cost(n)
  {
    assert Shape(st, i);
    var n := st.inodes[i].BlockCount();
    assert At(st.inodes, st.disk, SingleOf(i)) == st.inodes[i].loc[8];
    assert At(st.inodes, st.disk, DoubleOf(i)) == st.inodes[i].loc[9];
    if n >= 72 {
      assert At(st.inodes, st.disk, SecondOf(i, (n - 72) / 64)) == Second(st.inodes[i].loc, st.disk, (n - 72) / 64);
    }
  }

  /** The blocks that positions below q take up. */
  function Covering(q: nat): nat {
    (q + BLOCK_SIZE - 1) / BLOCK_SIZE
  }

  /** From st to d inode i has got as many blocks as n1, and they are paid for. */
  predicate GrownTo(st: State, d: State, i: nat, n1: nat)
    requires i < INODES
  {
    && st.inodes[i].BlockCount() >= 0 && d.inodes[i].BlockCount() == n1
    && d.freeBlocks == st.freeBlocks - (Cost(n1) - Cost(st.inodes[i].BlockCount()))
  }

  /** One EnsureBlock at p. */
  lemma {:induction false} EnsureGrows(st: State, owner: Owners, i: nat, p: nat) returns (owner1: Owners)
    requires FsInv(st, owner) && i < INODES && st.inodes[i].Live() && p <= BLOCK_SIZE * st.inodes[i].BlockCount()
    ensures var n := st.inodes[i].BlockCount();
            && n <= MAX_BLOCKS
            && match EnsureBlock(st, i, p / BLOCK_SIZE)
               case None => p == BLOCK_SIZE * n && Refused(n, st.freeBlocks)
               case Some(st1) =>
                 && FsInv(st1, owner1) && st1.inodes[i].Live() && !(p == BLOCK_SIZE * n && Refused(n, st.freeBlocks))
                 && GrownTo(st, st1, i, if p < BLOCK_SIZE * n then n else n + 1)
  {
    hide FsInv, EnsureBlock, AllocateBlock, RolesNeeded, At, KeepsData;
    assert st.inodes[i].BlockCount() <= MAX_BLOCKS by { InvShape(st, owner); assert Shape(st, i); }
    owner1 := owner;
    var n := st.inodes[i].BlockCount();
    if p < BLOCK_SIZE * n {
      EnsureBlockPresent(st, owner, i, p);
    } else {
      NextBlock(st, owner, i);
      if AllocateBlock(st, i).Some? {
        owner1 := AllocateBlockGrows(st, owner, i);
        NeededCost(st, owner, i);
      }
    }
  }

  lemma {:induction false} NextBlock(st: State, owner: Owners, i: nat)
    requires FsInv(st, owner) && i < INODES && st.inodes[i].Live()
    ensures var n := st.inodes[i].BlockCount();
            && n >= 0 && EnsureBlock(st, i, n) == AllocateBlock(st, i)
            && (AllocateBlock(st, i).None? <==> Refused(n, st.freeBlocks)) && (AllocateBlock(st, i).Some? ==> n < MAX_BLOCKS)
  {
    assert Shape(st, i);
    var n := st.inodes[i].BlockCount();
    if n < MAX_BLOCKS { assert !At(st.inodes, st.disk, DataOf(i, n)).Blk?; }
  }

  lemma CoveredAfter(n: nat, p: nat, q: nat)
    requires p <= BLOCK_SIZE * n && p <= q
    ensures Covering(p) <= n
    ensures var n1 := if p < BLOCK_SIZE * n then n else n + 1;
            && Max(n1, Covering(q)) == Max(n, Max(p / BLOCK_SIZE + 1, Covering(q)))
            && (p < q ==> Max(n1, Covering(q)) == Max(n, Covering(q)))
  {
  }

  lemma RoomSteps(n: nat, free: int, p: nat)
    requires n <= MAX_BLOCKS && p <= BLOCK_SIZE * n
    ensures p == BLOCK_SIZE * Room(n, free) <==> p == BLOCK_SIZE * n && Refused(n, free)
    ensures !Refused(n, free) ==> n < MAX_BLOCKS && Room(n, free) == Room(n + 1, free - (Cost(n + 1) - Cost(n)))
    ensures Refused(n, free) ==> Room(n, free) == n
  {
  }

  /** The byte loop writes what the file has room for, and takes just the blocks that this fills. */
  lemma {:induction false} LoopLength(st: State, owner: Owners, i: nat, p: nat, s: seq<Byte>)
    requires FsInv(st, owner) && i < INODES && st.inodes[i].Live() && p <= BLOCK_SIZE * st.inodes[i].BlockCount()
    ensures var n, (d, w) := st.inodes[i].BlockCount(), PutBytes(st, i, p, s);
            && n <= MAX_BLOCKS && w == Min(|s|, BLOCK_SIZE * Room(n, st.freeBlocks) - p)
            && GrownTo(st, d, i, Max(n, Covering(p + w)))
    decreases |s|
  {
    hide FsInv, EnsureBlock, PokeByte, Cost, Refused, Room, Covering;
    var n := st.inodes[i].BlockCount();
    var owner1 := EnsureGrows(st, owner, i, p);
    RoomSteps(n, st.freeBlocks, p);
    CoveredAfter(n, p, p + PutBytes(st, i, p, s).1);
    if s != [] && EnsureBlock(st, i, p / BLOCK_SIZE).Some? {
      var st1 := EnsureBlock(st, i, p / BLOCK_SIZE).value;
      SameInodes(st1, owner1, i, p, s[0]);
      LoopLength(PokeByte(st1, i, p, s[0]), owner1, i, p + 1, s[1..]);
    }
  }

  lemma SameInodes(st: State, owner: Owners, i: nat, p: nat, v: Byte)
    requires FsInv(st, owner) && i < INODES && p < BLOCK_SIZE * st.inodes[i].BlockCount()
    ensures var st1 := PokeByte(st, i, p, v);
            FsInv(st1, owner) && st1.inodes == st.inodes && st1.freeBlocks == st.freeBlocks
  {
    hide FsInv, PokeByte, At;
    PokeByteKeepsInv(st, owner, i, p, v);
  }

  /**
   * What write_file returns, and the blocks it takes: with m the largest number of blocks that can be paid for, it
   * writes as much of s as fits below 256 * m; ERROR exactly when it starts at the end of the last block and the
   * next is refused; and it takes the blocks that the written bytes fill, and one at least.
   */
  lemma {:induction false} WriteLengthExact(st: State, owner: Owners, i: nat, p: nat, s: seq<Byte>, byUser: bool)
    requires FsInv(st, owner) && i < INODES && st.inodes[i].Live() && p <= st.inodes[i].size
    ensures var n, (d, w) := st.inodes[i].BlockCount(), WriteFile(st, i, p, s, byUser);
            && 0 <= n <= MAX_BLOCKS && p <= BLOCK_SIZE * n
            && (if (byUser && st.inodes[i].kind.Dir?) || BLOCK_SIZE * Room(n, st.freeBlocks) == p then w == -1 && d == st
                else
                  && w == Min(|s|, BLOCK_SIZE * Room(n, st.freeBlocks) - p)
                  && GrownTo(st, d, i, Max(n, Max(p / BLOCK_SIZE + 1, Covering(p + w)))))
  {
    hide FsInv, EnsureBlock, AllocateBlock, PutBytes, Cost, Refused, Room, Covering;
    assert p <= BLOCK_SIZE * st.inodes[i].BlockCount() by { InvShape(st, owner); assert Shape(st, i); }
    FirstBlockTest(st, owner, i, p);
    var owner1 := EnsureGrows(st, owner, i, p);
    RoomSteps(st.inodes[i].BlockCount(), st.freeBlocks, p);
    if !(byUser && st.inodes[i].kind.Dir?) && EnsureBlock(st, i, p / BLOCK_SIZE).Some? {
      var st1, n := EnsureBlock(st, i, p / BLOCK_SIZE).value, st.inodes[i].BlockCount();
      LoopLength(st1, owner1, i, p, s);
      var w := PutBytes(st1, i, p, s).1;
      CoveredAfter(n, p, p + w);
    }
  }
}
