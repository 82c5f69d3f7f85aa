/** The ramdisk in memory: the bitmap bytes, the inode table, the blocks and the superblock
    counters, updated in place. Every method is tied to the state function it implements. */
module RamdiskMemory {
  import opened Disk
  import opened Allocator
  import opened BitmapBytes
  import opened BlockIndex
  import opened FileData
  import opened FreeBlocks
  import opened Directory
  import opened Inodes
  import opened Namespace
  import opened Runs
  import opened Effects

  ghost predicate Sound(st: State) {
    exists owner :: FsInv(st, owner)
  }

  class Ramdisk {
    var freeBlockNumber: int
    var freeInodeNumber: int
    var firstFreeBlock: int
    var firstFreeInode: int
    const index: array<bv8>
    const inodeList: array<Inode>
    const space: array<Block>

    ghost predicate Sized() {
      && index.Length == BYTES && inodeList.Length == INODES && space.Length == SPACE
      && index as object != inodeList && index as object != space && inodeList as object != space
    }

    /** The state the memory holds. */
    ghost function St(): State
      requires Sized()
      reads this, index, inodeList, space
    {
      State(BitsOf(index[..]), freeBlockNumber, firstFreeBlock, inodeList[..], freeInodeNumber, firstFreeInode, space[..])
    }

    /** init_datastructure: zeroed memory, block 0 and inode 0 for the root directory. */
    constructor ()
      ensures Sized() && St() == Init()
    {
      freeBlockNumber := SPACE - 1;
      freeInodeNumber := INODES - 1;
      firstFreeBlock := 1;
      firstFreeInode := 1;
      index := new bv8[BYTES](_ => 0);
      inodeList := new Inode[INODES](_ => ZERO_INODE);
      space := new Block[SPACE](_ => Zero);
      new;
      index[0] := index[0] | 0x80;
      inodeList[0] := Inode(Dir, 0, NO_LOCS[0 := Blk(0)], IN_USE, -2, 0, 0, 0);
      for i := 1 to BYTES
        invariant index[0] == 0x80 && forall k :: 1 <= k < BYTES ==> index[k] == 0
        invariant space[..] == Repeat(Zero, SPACE) && inodeList[..] == Init().inodes
        invariant freeBlockNumber == SPACE - 1 && freeInodeNumber == INODES - 1 && firstFreeBlock == firstFreeInode == 1
      {
        index[i] := index[i] & 0;
      }
      FirstBitOnly(index[..]);
    }

    /** allocate_bitmap, with the scan's bit test repaired. */
    method AllocateBitmap(newBlock: nat)
      requires Sized() && newBlock < BITMAP_BITS
      modifies index, this`freeBlockNumber, this`firstFreeBlock
      ensures St() == MarkBlock(old(St()), newBlock)
    {
      var next := MarkAndScan(index, newBlock);
      freeBlockNumber := freeBlockNumber - 1;
      firstFreeBlock := next;
    }

    /** free_bitmap, with the bit cleared; the caller zeroes the block first. */
    method FreeBitmap(b: nat)
      requires Sized() && b < SPACE && space[b].Zero?
      modifies index, this`freeBlockNumber, this`firstFreeBlock
      ensures St() == ReleaseBlock(old(St()), b)
    {
      ClearBit(index, b);
      freeBlockNumber := freeBlockNumber + 1;
      if firstFreeBlock > b {
        firstFreeBlock := b;
      }
      assert space[..] == space[..][b := Zero];
    }

    /** Read the first free block and mark it. */
    method TakeFirst() returns (nb: nat)
      requires Sized() && 0 <= firstFreeBlock < SPACE
      modifies index, this`freeBlockNumber, this`firstFreeBlock
      ensures Taken(old(St()), nb)
    {
      nb := firstFreeBlock;
      AllocateBitmap(nb);
    }

    /** Store block `nb`, just taken in state `t`, in inode `i`'s location[k]. */
    method SetLocation(i: nat, k: nat, nb: nat, ghost t: State, ghost r: Role)
      requires Sized() && i < INODES && k < 10 && Taken(t, nb)
      requires InRange(r) && r.i == i && InInode(r) && SlotIndex(r) == k
      modifies inodeList
      ensures St() == Attach(t, r)
    {
      inodeList[i] := inodeList[i].(loc := inodeList[i].loc[k := Blk(nb)]);
    }

    /** Store block `nb`, just taken in state `t`, in slot `j` of index block `c`. */
    method StorePtr(c: nat, j: nat, nb: nat, ghost t: State, ghost r: Role)
      requires Sized() && c < SPACE && j < 64 && Taken(t, nb)
      requires InRange(r) && !InInode(r) && Container(t.inodes, t.disk, r) == Blk(c) && SlotIndex(r) == j
      modifies space
      ensures St() == Attach(t, r)
    {
      space[c] := Index(PtrsOf(space[c])[j := Blk(nb)]);
    }

    /** Count block number `b` in inode `i`. */
    method CountBlock(i: nat, nb: nat, ghost t: State)
      requires Sized() && i < INODES && Taken(t, nb)
      modifies inodeList
      ensures Taken(Bump(t, i), nb)
    {
      inodeList[i] := inodeList[i].(blockNumber := inodeList[i].blockNumber + 1, lastOffset := 0);
    }

    ghost predicate Taken(t: State, nb: nat)
      requires Sized()
      reads this, index, inodeList, space
    {
      && 0 <= t.firstBlock < SPACE && nb == t.firstBlock && St() == TakeBlock(t)
      && inodeList[..] == t.inodes && space[..] == t.disk
    }

    /** Take one more block and store it in slot 0 of index block `nb`, the block taken last. */
    method TakeInto(nb: nat, ghost s: State, ghost owner: Owners, ghost i: nat, ghost b: nat, ghost m: nat)
      returns (nb2: nat)
      requires Sized() && i < INODES && b < MAX_BLOCKS && AttachPlan(s, owner, i, b) && 0 < m < |RolesNeeded(s, i, b)|
      requires var rs := RolesNeeded(s, i, b);
               && (forall r :: r in rs[..m - 1] ==> InRange(r)) && (forall r :: r in rs[..m] ==> InRange(r))
               && nb == AttachAll(s, rs[..m - 1]).firstBlock && St() == AttachAll(s, rs[..m])
      modifies index, space, this`freeBlockNumber, this`firstFreeBlock
      ensures var rs := RolesNeeded(s, i, b);
              && (forall r :: r in rs[..m + 1] ==> InRange(r)) && (m + 1 == |rs| ==> rs[..m + 1] == rs)
              && nb2 == AttachAll(s, rs[..m]).firstBlock && St() == AttachAll(s, rs[..m + 1])
    {
      hide AttachPlan, TakeBlock, Attach, AttachAll;
      AttachStep(s, owner, i, b, m - 1);
      AttachStep(s, owner, i, b, m);
      ghost var t := St();
      nb2 := TakeFirst();
      StorePtr(nb, 0, nb2, t, RolesNeeded(s, i, b)[m]);
    }

    /** The single-indirect level of allocate_block. */
    method AttachSingle(i: nat, b: nat, nb: nat, ghost s: State, ghost owner: Owners) returns (p: Ptr)
      requires Sized() && i < INODES && 8 <= b < 72 && AttachPlan(s, owner, i, b) && Taken(s, nb)
      modifies index, inodeList, space, this`freeBlockNumber, this`firstFreeBlock
      ensures St() == AttachAll(s, RolesNeeded(s, i, b)) && p.Blk? && p.n == LastTaken(s, RolesNeeded(s, i, b))
    {
      ghost var rs := RolesNeeded(s, i, b);
      hide AttachPlan, TakeBlock, Attach, AttachAll;
      AttachStep(s, owner, i, b, 0);
      var loc := inodeList[i].loc;
      if loc[8].Null? {
        SetLocation(i, 8, nb, s, rs[0]);
        var nb2 := TakeInto(nb, s, owner, i, b, 1);
        p := Blk(nb2);
      } else {
        StorePtr(loc[8].n, b - 8, nb, s, rs[0]);
        p := Blk(nb);
      }
    }

    /** The double-indirect level of allocate_block: its first block. */
    method AttachFirstDouble(i: nat, b: nat, nb: nat, ghost s: State, ghost owner: Owners) returns (p: Ptr)
      requires Sized() && i < INODES && 72 <= b < MAX_BLOCKS && AttachPlan(s, owner, i, b) && Taken(s, nb)
      requires s.inodes[i].loc[9].Null?
      modifies index, inodeList, space, this`freeBlockNumber, this`firstFreeBlock
      ensures St() == AttachAll(s, RolesNeeded(s, i, b)) && p.Blk? && p.n == LastTaken(s, RolesNeeded(s, i, b))
    {
      hide AttachPlan, TakeBlock, Attach, AttachAll;
      AttachStep(s, owner, i, b, 0);
      SetLocation(i, 9, nb, s, RolesNeeded(s, i, b)[0]);
      var nb2 := TakeInto(nb, s, owner, i, b, 1);
      var nb3 := TakeInto(nb2, s, owner, i, b, 2);
      p := Blk(nb3);
    }

    /** The double-indirect level of allocate_block: the later blocks. */
    method AttachDouble(i: nat, b: nat, nb: nat, ghost s: State, ghost owner: Owners) returns (p: Ptr)
      requires Sized() && i < INODES && 72 <= b < MAX_BLOCKS && AttachPlan(s, owner, i, b) && Taken(s, nb)
      requires s.inodes[i].loc[9].Blk?
      modifies index, inodeList, space, this`freeBlockNumber, this`firstFreeBlock
      ensures St() == AttachAll(s, RolesNeeded(s, i, b)) && p.Blk? && p.n == LastTaken(s, RolesNeeded(s, i, b))
    {
      hide AttachPlan, TakeBlock, Attach, AttachAll;
      AttachStep(s, owner, i, b, 0);
      var dbl, j, k := inodeList[i].loc[9].n, (b - 72) / 64, (b - 72) % 64;
      var second := PtrsOf(space[dbl])[j];
      if second.Null? {
        StorePtr(dbl, j, nb, s, RolesNeeded(s, i, b)[0]);
        var nb2 := TakeInto(nb, s, owner, i, b, 1);
        p := Blk(nb2);
      } else {
        StorePtr(second.n, k, nb, s, RolesNeeded(s, i, b)[0]);
        p := Blk(nb);
      }
    }

    /** allocate_block. */
    method AllocateBlock(i: nat) returns (p: Ptr)
      requires Sized() && i < INODES && Sound(St()) && inodeList[i].Live()
      modifies index, inodeList, space, this`freeBlockNumber, this`firstFreeBlock
      ensures match BlockIndex.AllocateBlock(old(St()), i)
              case None => p == Null && St() == old(St())
              case Some(s) =>
                var b := old(inodeList[i].blockNumber) + 1;
                St() == s && b < MAX_BLOCKS && p == Lookup(s.inodes[i].loc, s.disk, b) && p.Blk?
    {
      hide FsInv, RolesNeeded, AttachPlan, AttachAll, TakeBlock, Attach, Lookup, LastTaken;
      var b := inodeList[i].blockNumber + 1;
      if b >= MAX_BLOCKS || freeBlockNumber < 1 { return Null; }
      if b == 8 && freeBlockNumber < 2 { return Null; }
      if b == 72 && freeBlockNumber < 3 { return Null; }
      if b > 72 && (b - 72) % 64 == 0 && freeBlockNumber < 2 { return Null; }

      ghost var st, s := St(), Bump(St(), i);
      ghost var owner :| FsInv(st, owner);
      PlanHolds(st, owner, i);
      hide BlockIndex.AllocateBlock;
      AttachStep(s, owner, i, b, 0);
      var nb := TakeFirst();
      CountBlock(i, nb, st);
      if b < 8 {
        SetLocation(i, b, nb, s, DataOf(i, b));
        p := Blk(nb);
      } else if b < 72 {
        p := AttachSingle(i, b, nb, s, owner);
      } else if inodeList[i].loc[9].Null? {
        p := AttachFirstDouble(i, b, nb, s, owner);
      } else {
        p := AttachDouble(i, b, nb, s, owner);
      }
    }

    /** The address of an offset in block blockNum, NULL when there is no such block: switchAddress and
        get_blockpointer, with no offset added to a NULL pointer and no NULL index followed. */
    method SwitchAddress(i: nat, blockNum: nat, blockOffset: nat) returns (p: Ptr, offset: nat)
      requires Sized() && i < INODES && blockNum < MAX_BLOCKS && Sound(St())
      ensures p == Lookup(inodeList[i].loc, space[..], blockNum)
      ensures if p.Blk? then p.n < SPACE && offset == blockOffset else offset == 0
    {
      var loc := inodeList[i].loc;
      offset := 0;
      SoundPointers(St(), i, blockNum);
      if blockNum < 8 {
        p := loc[blockNum];
      } else if blockNum < 72 {
        if loc[8].Null? { return Null, 0; }
        p := PtrsOf(space[loc[8].n])[blockNum - 8];
      } else {
        if loc[9].Null? { return Null, 0; }
        var second := PtrsOf(space[loc[9].n])[(blockNum - 72) / 64];
        if second.Null? { return Null, 0; }
        p := PtrsOf(space[second.n])[(blockNum - 72) % 64];
      }
      if p.Blk? { offset := blockOffset; }
    }

    /** Look block `blockNum` up, and allocate it when it is the next one. */
    method EnsureBlock(i: nat, blockNum: nat) returns (p: Ptr)
      requires Sized() && i < INODES && Sound(St()) && inodeList[i].Live()
      requires blockNum <= inodeList[i].BlockCount()
      modifies index, inodeList, space, this`freeBlockNumber, this`firstFreeBlock
      ensures match FileData.EnsureBlock(old(St()), i, blockNum)
              case None => p == Null && St() == old(St())
              case Some(s) => St() == s && blockNum < MAX_BLOCKS && p == Lookup(s.inodes[i].loc, s.disk, blockNum) && p.Blk?
    {
      hide FsInv, Lookup, BlockIndex.AllocateBlock;
      p := Null;
      NextBlockAbsent(St(), i);
      if blockNum < MAX_BLOCKS {
        var offset;
        p, offset := SwitchAddress(i, blockNum, 0);
      }
      if p.Null? {
        p := AllocateBlock(i);
      }
    }

    /** Byte q of inode i goes to `offset` of block `p`. */
    ghost predicate Placed(i: nat, q: nat, p: Ptr, offset: nat)
      requires Sized()
      reads this, index, inodeList, space
    {
      && i < INODES && q / BLOCK_SIZE < MAX_BLOCKS && offset == q % BLOCK_SIZE
      && p.Blk? && p == Lookup(inodeList[i].loc, space[..], q / BLOCK_SIZE)
      && q < BLOCK_SIZE * inodeList[i].BlockCount()
    }

    /** Byte q goes to `offset` of block `p`, or to the next block when `offset` is past its end. */
    ghost predicate AtByte(i: nat, q: nat, p: Ptr, offset: nat)
      requires Sized()
      reads this, index, inodeList, space
    {
      && i < INODES
      && if offset < BLOCK_SIZE then Placed(i, q, p, offset)
         else offset == BLOCK_SIZE && q % BLOCK_SIZE == 0 && q <= BLOCK_SIZE * inodeList[i].BlockCount()
    }

    /** Write the first byte of `rest`; the following one goes next to it or to the next block. */
    method StoreByte(i: nat, q: nat, p: Ptr, offset: nat, v: Byte, ghost rest: seq<Byte>, ghost owner: Owners)
      requires Sized() && i < INODES && AtByte(i, q, p, offset) && offset < BLOCK_SIZE && FsInv(St(), owner) && inodeList[i].Live()
      requires rest != [] && rest[0] == v
      modifies space
      ensures FsInv(St(), owner)
      ensures AtByte(i, q + 1, p, offset + 1)
      ensures FileData.PutBytes(old(St()), i, q, rest) == AfterBytes(FileData.PutBytes(St(), i, q + 1, rest[1..]), 1)
    {
      hide FsInv, FileData.PutBytes, Lookup;
      PokeByteFrame(St(), owner, i, q, v);
      PutBytesInBlock(St(), owner, i, q, rest);
      SoundPointers(St(), i, q / BLOCK_SIZE);
      space[p.n] := Data(BytesOf(space[p.n])[offset := v]);
      assert St() == PokeByte(old(St()), i, q, v);
    }

    /** At the end of a block: look the next one up, and allocate it only when there is none. */
    method NextBlock(i: nat, q: nat, ghost p0: Ptr, ghost rest: seq<Byte>, ghost owner: Owners) returns (p: Ptr, ghost owner1: Owners)
      requires Sized() && i < INODES && FsInv(St(), owner) && inodeList[i].Live() && rest != []
      requires AtByte(i, q, p0, BLOCK_SIZE)
      modifies index, inodeList, space, this`freeBlockNumber, this`firstFreeBlock
      ensures inodeList[i].Live() && FsInv(St(), owner1)
      ensures if p.Null? then FileData.PutBytes(old(St()), i, q, rest) == (St(), 0)
              else AtByte(i, q, p, 0) && FileData.PutBytes(St(), i, q, rest) == FileData.PutBytes(old(St()), i, q, rest)
    {
      hide FileData.PutBytes, FileData.EnsureBlock, Lookup, FsInv;
      ghost var s := St();
      owner1 := EnsureBlockFrame(s, owner, i, q);
      PutBytesBoundary(s, owner1, i, q, rest);
      p := EnsureBlock(i, q / BLOCK_SIZE);
      if p.Null? { owner1 := owner; }
    }

    /** The byte loop of write_file: `p`, `offset` is where byte `position` + w goes. */
    method PutBytes(i: nat, position: nat, p0: Ptr, input: seq<Byte>) returns (w: nat)
      requires Sized() && i < INODES && Sound(St()) && AtByte(i, position, p0, position % BLOCK_SIZE) && inodeList[i].Live()
      modifies index, inodeList, space, this`freeBlockNumber, this`firstFreeBlock
      ensures (St(), w) == FileData.PutBytes(old(St()), i, position, input)
    {
      hide FsInv, FileData.PutBytes, Lookup, AtByte;
      ghost var st := St();
      ghost var owner :| FsInv(st, owner);
      var p, offset := p0, position % BLOCK_SIZE;
      w := 0;
      assert input[0..] == input;
      while w < |input|
        invariant w <= |input| && 0 <= offset <= BLOCK_SIZE
        invariant FsInv(St(), owner) && inodeList[i].Live()
        invariant AtByte(i, position + w, p, offset)
        invariant FileData.PutBytes(st, i, position, input)
                  == AfterBytes(FileData.PutBytes(St(), i, position + w, input[w..]), w)
        decreases |input| - w, offset
      {
        if offset == BLOCK_SIZE {
          p, owner := NextBlock(i, position + w, p, input[w..], owner);
          if p.Null? { return; }
          offset := 0;
        } else {
          assert input[w..][1..] == input[w + 1..];
          StoreByte(i, position + w, p, offset, input[w], input[w..], owner);
          w := w + 1;
          offset := offset + 1;
        }
      }
      assert input[w..] == [];
      PutNothing(St(), i, position + w);
    }

    /** write_file. `position1` is the descriptor's position afterwards. */
    method WriteFile(i: nat, position: nat, input: seq<Byte>, byUser: bool) returns (w: int, position1: nat)
      requires Sized() && i < INODES && Sound(St()) && inodeList[i].Live() && position <= inodeList[i].size
      modifies index, inodeList, space, this`freeBlockNumber, this`firstFreeBlock
      ensures (St(), w) == FileData.WriteFile(old(St()), i, position, input, byUser)
      ensures position1 == position + Max(w, 0)
    {
      hide FsInv, Lookup, FileData.EnsureBlock, BlockIndex.AllocateBlock, FileData.PutBytes;
      w, position1 := -1, position;
      if byUser && inodeList[i].kind.Dir? { return; }
      ghost var owner :| FsInv(St(), owner);
      WriteStart(St(), owner, i, position);
      if inodeList[i].loc[0].Null? {
        var p := AllocateBlock(i);
        if p.Null? { return; }
      }
      var p := EnsureBlock(i, position / BLOCK_SIZE);
      if p.Null? { return; }
      w := PutBytes(i, position, p, input);
      position1 := position + w;
      var size := Max(inodeList[i].size, position + w);
      inodeList[i] := inodeList[i].(size := size, lastOffset := size % BLOCK_SIZE);
    }

    /** One round of rd_read's loop: copy what is wanted of the rest of p's block. */
    method CopyChunk(i: nat, p: nat, output: array<Byte>, at: nat, left: nat, ghost start: seq<Byte>)
      returns (chunk: nat, remain: nat)
      requires Sized() && i < INODES && Sound(St()) && inodeList[i].Live() && Apart(output)
      requires 0 < left && p + left <= inodeList[i].size && at <= p && at + left <= output.Length
      requires |start| == output.Length && ReadSoFar(Content(St(), i), start, output[..], p - at, at)
      modifies output
      ensures St() == old(St()) && 0 < chunk <= left && (chunk < left ==> chunk == remain)
      ensures ReadSoFar(Content(old(St()), i), start, output[..], p - at, at + chunk)
    {
      hide Sound, Lookup, Content, ReadSoFar;
      ReadChunk(St(), i, p, 1);
      var block, offset := SwitchAddress(i, p / BLOCK_SIZE, p % BLOCK_SIZE);
      remain := BLOCK_SIZE - offset;
      chunk := Min(left, remain);
      ReadChunk(St(), i, p, chunk);
      ghost var before := output[..];
      Memcpy(output, at, BytesOf(space[block.n])[offset..offset + chunk]);
      ReadMore(Content(old(St()), i), start, before, output[..], p - at, p, at, chunk);
    }

    /** `output` is none of the ramdisk's own arrays. */
    ghost predicate Apart(output: array<Byte>) {
      output as object != index && output as object != inodeList && output as object != space
    }

    /** The loop of rd_read: `n` bytes from position p on, chunk by chunk. */
    method CopyOut(i: nat, p0: nat, output: array<Byte>, n: nat)
      requires Sized() && i < INODES && Sound(St()) && inodeList[i].Live() && Apart(output)
      requires p0 + n <= inodeList[i].size && n < output.Length
      modifies output
      ensures St() == old(St()) && ReadSoFar(Content(St(), i), old(output[..]), output[..], p0, n)
    {
      hide Sound, Content, ReadSoFar, BitsOf;
      ghost var c, start := Content(St(), i), output[..];
      ReadNone(c, start, p0);
      var p, left, done := p0, n, 0;
      while left > 0
        invariant done + left == n && (left > 0 ==> p == p0 + done)
        invariant St() == old(St()) && ReadSoFar(c, start, output[..], p0, done)
      {
        var chunk, remain := CopyChunk(i, p, output, done, left, start);
        done := done + chunk;
        left := left - chunk;
        p := p + remain;
      }
    }

    /** rd_read at the descriptor's position: copies into `output`, NUL-terminated. */
    method Read(i: nat, position: int, output: array<Byte>, numBytes: int) returns (n: int)
      requires Sized() && i < INODES && Sound(St()) && inodeList[i].Live() && Apart(output)
      requires inodeList[i].size > 0 ==> output.Length > ReadCount(inodeList[i].size, position, numBytes)
      modifies output
      ensures inodeList[i].size == 0 ==> n == -1 && output[..] == old(output[..])
      ensures inodeList[i].size > 0 ==>
                var size := inodeList[i].size;
                var p := if 0 <= position < size then position else 0;
                && n == (if 0 <= numBytes < size - p then numBytes else size - p)
                && 0 <= n < output.Length && output[..n] == Content(St(), i)[p..p + n] && output[n] == 0
                && output[n + 1..] == old(output[..])[n + 1..]
    {
      hide Sound, Content, ReadSoFar, BitsOf, ReadFrom, ReadCount;
      ghost var before := output[..];
      if inodeList[i].size == 0 { return -1; }
      ghost var c := Content(St(), i);
      ReadStart(St(), i);
      if inodeList[i].loc[0].Null? { return -1; }
      var p := ReadFrom(inodeList[i].size, position);
      var left: nat := ReadCount(inodeList[i].size, position, numBytes);
      n := left;
      output[n] := 0;
      assert output[..] == before[n := 0];
      CopyOut(i, p, output, left);
      ReadPlace(inodeList[i].size, position, numBytes);
      ReadDone(c, before, output[..], p, n);
    }

    /** The inner loop of search: the up to 16 entries of block `b` of directory d. */
    method SearchBlock(ghost d: nat, ghost b: nat, p: nat, times: int, name: Name, di: int)
      returns (ans: int, times1: int, di1: int)
      requires Sized() && d < INODES && Sound(St()) && inodeList[d].Live() && b < MAX_BLOCKS && p < SPACE
      requires Lookup(inodeList[d].loc, space[..], b) == Blk(p)
      requires SearchedTo(St(), d, name, 16 * b, times)
      ensures if ans != -1 then Hit(List(St(), d), name, di1 - di + 16 * b - 1, ans)
              else SearchedTo(St(), d, name, 16 * b + (di1 - di), times1)
                   && di1 - di == Min(|List(St(), d)|, 16 * (b + 1)) - 16 * b
    {
      hide Sound, List, Lookup;
      ans, times1, di1 := -1, times, di;
      var j := 0;
      while j < 16 && times1 > 0
        invariant j <= 16 && di1 - di == j
        invariant SearchedTo(St(), d, name, 16 * b + j, times1)
      {
        EntryBytes(St(), d, b, j);
        var entry := Decode(BytesOf(space[p])[ENTRY * j..ENTRY * j + ENTRY]);
        di1 := di1 + 1;
        if entry.name == name {
          ans := entry.inode;
          return;
        }
        times1 := times1 - 1;
        j := j + 1;
      }
    }

    /** search: compare the entries of up to |location| blocks, which are the blocks base,
        base + 1, ... of directory d, as long as the shared countdown lasts. */
    method Search(ghost d: nat, ghost base: nat, location: seq<Ptr>, times: int, name: Name, di: int)
      returns (ans: int, times1: int, di1: int)
      requires Sized() && d < INODES && Sound(St()) && inodeList[d].Live()
      requires base + |location| <= MAX_BLOCKS
      requires forall k :: 0 <= k < |location| ==> location[k] == Lookup(inodeList[d].loc, space[..], base + k)
      requires SearchedTo(St(), d, name, 16 * base, times) && |name| <= 13
      ensures var l, e := List(St(), d), di1 - di + 16 * base - 1;
              if ans != -1 then Hit(l, name, e, ans)
              else SearchedTo(St(), d, name, Min(|l|, 16 * (base + |location|)), times1)
                   && di1 - di == Min(|l|, 16 * (base + |location|)) - 16 * base
    {
      hide Sound, List, Lookup, Hit;
      ans, times1, di1 := -1, times, di;
      var i := 0;
      while i < |location| && times1 > 0
        invariant i <= |location| && ans == -1 && (times1 > 0 ==> di1 - di == 16 * i)
        invariant SearchedTo(St(), d, name, di1 - di + 16 * base, times1)
        invariant di1 - di == Min(|List(St(), d)|, 16 * (base + i)) - 16 * base
      {
        EntryBlock(St(), d, base + i, name, times1);
        var p := location[i];
        if p.Null? { return; }
        ans, times1, di1 := SearchBlock(d, base + i, p.n, times1, name, di1);
        if ans != -1 { return; }
        i := i + 1;
      }
    }

    /** isExist: the direct, single-indirect and double-indirect passes share one countdown;
        on a hit the index moves by the place of the entry plus one. */
    method IsExist(d: nat, name: Name, di0: int) returns (ans: int, di: int)
      requires Sized() && d < INODES && Sound(St()) && inodeList[d].Live()
      ensures match Namespace.IsExist(St(), d, name)
              case None => ans == -1
              case Some(j) => ans == j && di == di0 + 1 + Find(List(St(), d), name).value
    {
      hide Sound, List, Lookup, Find;
      ans, di := -1, di0;
      if |name| > 13 { return; }
      var times := inodeList[d].size / ENTRY;
      assert |List(St(), d)| == times;
      SearchOutcome(St(), d, name);
      if times <= 0 { return; }
      var loc := inodeList[d].loc;
      SoundPointers(St(), d, 0);
      DirectPointers(St(), d);
      ans, times, di := Search(d, 0, loc[..8], times, name, di);
      if ans != -1 || times <= 0 { return; }
      EntryIndex(St(), d, 8, name, times);
      if loc[8].Null? { return; }
      ans, times, di := Search(d, 8, PtrsOf(space[loc[8].n]), times, name, di);
      if ans != -1 || times <= 0 { return; }
      EntryIndex(St(), d, 72, name, times);
      if loc[9].Null? { return; }
      ans, di := SearchDouble(d, loc[9].n, times, name, di);
    }

    /** The double-indirect pass of isExist, when 72 blocks were searched without a hit. */
    method SearchDouble(d: nat, dbl: nat, times0: int, name: Name, di0: int) returns (ans: int, di: int)
      requires Sized() && d < INODES && Sound(St()) && inodeList[d].Live() && |name| <= 13
      requires inodeList[d].loc[9] == Blk(dbl) && dbl < SPACE
      requires SearchedTo(St(), d, name, 16 * 72, times0) && times0 > 0
      ensures var l, e := List(St(), d), di - di0 + 16 * 72 - 1;
              ans != -1 ==> Hit(l, name, e, ans)
      ensures ans == -1 ==> SearchedTo(St(), d, name, |List(St(), d)|, 0)
    {
      hide Sound, List, Lookup;
      var times := times0;
      ans, di := -1, di0;
      ReadStart(St(), d);
      var i := 0;
      while i < 64
        invariant i <= 64 && ans == -1 && times > 0 && di - di0 == 16 * 64 * i
        invariant SearchedTo(St(), d, name, 16 * (72 + 64 * i), times)
      {
        var single := PtrsOf(space[dbl])[i];
        SecondPointers(St(), d, i);
        EntryIndex(St(), d, 72 + 64 * i, name, times);
        if single.Null? { return; }
        ans, times, di := Search(d, 72 + 64 * i, PtrsOf(space[single.n]), times, name, di);
        if ans != -1 || times <= 0 { return; }
        i := i + 1;
      }
    }

    /** Zero block `b` and release it. */
    method ReleaseOne(b: nat, ghost st: State, ghost owner: Owners, ghost done: seq<Role>, ghost r: Role)
      requires Sized() && ReleasedTo(st, owner, done, St()) && Unreleased(st, done, r) && At(st.inodes, st.disk, r) == Blk(b)
      modifies index, space, this`freeBlockNumber, this`firstFreeBlock
      ensures ReleasedTo(st, owner, done + [r], St())
    {
      hide ReleasedTo, Unreleased, At;
      ReleaseMore(st, owner, done, r, St());
      space[b] := Zero;
      FreeBitmap(b);
    }

    /** Release the blocks an index block lists, up to its first NULL, and the index block. */
    method FreeIndexBlock(c: nat, ghost st: State, ghost owner: Owners, ghost i: nat, ghost lo: nat,
                          ghost done: seq<Role>, ghost r: Role)
      requires Sized() && ReleasedTo(st, owner, done, St()) && IndexOf(st, i, lo, done, r)
      requires At(st.inodes, st.disk, r) == Blk(c)
      modifies index, space, this`freeBlockNumber, this`firstFreeBlock
      ensures ReleasedTo(st, owner, done + DataRange(i, lo, Min(st.inodes[i].BlockCount(), lo + 64)) + [r], St())
    {
      hide ReleasedTo, Unreleased, At;
      var k := 0;
      ghost var n := st.inodes[i].BlockCount();
      assert done + DataRange(i, lo, lo) == done;
      while k < 64
        invariant k <= 64 && lo + k <= n
        invariant ReleasedTo(st, owner, done + DataRange(i, lo, lo + k), St())
      {
        hide DataRange, IndexOf;
        IndexStep(st, owner, i, lo, done, r, k, St());
        var p := PtrsOf(space[c])[k];
        if p.Null? { break; }
        ReleaseOne(p.n, st, owner, done + DataRange(i, lo, lo + k), DataOf(i, lo + k));
        k := k + 1;
      }
      IndexEnd(st, owner, i, lo, done, r, lo + k, St());
      ReleaseOne(c, st, owner, done + DataRange(i, lo, lo + k), r);
    }

    /** The direct pointers of free_block. */
    method FreeDirect(i: nat, ghost st: State, ghost owner: Owners)
      requires Sized() && i < INODES && St() == st && FsInv(st, owner) && st.inodes[i].BlockCount() >= 1
      modifies index, space, this`freeBlockNumber, this`firstFreeBlock
      ensures ReleasedTo(st, owner, DataRange(i, 0, Min(st.inodes[i].BlockCount(), 8)), St())
    {
      ghost var n := st.inodes[i].BlockCount();
      var loc := inodeList[i].loc;
      var k := 0;
      NothingReleased(st, owner, i);
      hide ReleasedTo, FsInv;
      while k < 8
        invariant k <= 8 && k <= n
        invariant ReleasedTo(st, owner, DataRange(i, 0, k), St())
      {
        DirectStep(st, owner, i, k, St());
        if loc[k].Null? { break; }
        ReleaseOne(loc[k].n, st, owner, DataRange(i, 0, k), DataOf(i, k));
        k := k + 1;
      }
    }

    /** The double-indirect level of free_block: each second-level index with its blocks,
        then the double-indirect index itself. */
    method FreeDouble(dbl: nat, ghost st: State, ghost owner: Owners, ghost i: nat, ghost done: seq<Role>)
      requires Sized() && i < INODES && st.inodes[i].BlockCount() > 72 && ReleasedTo(st, owner, done, St())
      requires st.inodes[i].loc[9] == Blk(dbl) && BelowDouble(i, done)
      modifies index, space, this`freeBlockNumber, this`firstFreeBlock
      ensures ReleasedTo(st, owner, done + (DoubleRoles(i, st.inodes[i].BlockCount(), 0) + [DoubleOf(i)]), St())
    {
      hide ReleasedTo, Unreleased, At, DoubleRoles, SecondPrefix, IndexOf, BelowDouble, Second;
      var j := 0;
      ghost var prefix := [];
      NoSeconds(i, st.inodes[i].BlockCount());
      assert done + [] == done;
      while j < 64
        invariant j <= 64 && SecondPrefix(i, st.inodes[i].BlockCount(), j, prefix)
        invariant ReleasedTo(st, owner, done + prefix, St())
      {
        SecondStep(st, owner, i, j, done, prefix, St());
        var second := PtrsOf(space[dbl])[j];
        if second.Null? { break; }
        FreeIndexBlock(second.n, st, owner, i, 72 + 64 * j, done + prefix, SecondOf(i, j));
        prefix := NextPrefix(i, st.inodes[i].BlockCount(), j, prefix);
        j := j + 1;
      }
      SecondEnd(st, owner, i, j, done, prefix, St());
      ReleaseOne(dbl, st, owner, done + prefix, DoubleOf(i));
    }

    /** free_block. */
    method FreeBlock(i: nat)
      requires Sized() && i < INODES && Sound(St()) && inodeList[i].Live()
      modifies index, inodeList, space, this`freeBlockNumber, this`firstFreeBlock
      ensures St() == FreeBlocks.FreeBlock(old(St()), i)
    {
      if inodeList[i].blockNumber < 0 { return; }
      hide FsInv, ReleasedTo, IndexOf, DoubleRoles, BelowDouble, BlocksOf, At;
      ghost var st, n := St(), inodeList[i].BlockCount();
      ghost var owner :| FsInv(st, owner);
      LevelsOf(st, owner, i);
      FreeDirect(i, st, owner);
      ghost var done := DataRange(i, 0, Min(n, 8));
      var loc := inodeList[i].loc;
      if inodeList[i].blockNumber >= 8 {
        FreeIndexBlock(loc[8].n, st, owner, i, 8, done, SingleOf(i));
        done := done + DataRange(i, 8, Min(n, 72)) + [SingleOf(i)];
      }
      if inodeList[i].blockNumber >= 72 {
        FreeDouble(loc[9].n, st, owner, i, done);
      }
      AllReleased(st, owner, i, St());
      inodeList[i] := inodeList[i].(loc := NO_LOCS, size := 0, blockNumber := -1, lastOffset := 0);
    }

    /** Overwrite bytes inside the file. */
    method Overwrite(i: nat, position: nat, input: seq<Byte>)
      requires Sized() && i < INODES && Sound(St()) && inodeList[i].Live()
      requires input != [] && position + |input| <= inodeList[i].size
      modifies index, inodeList, space, this`freeBlockNumber, this`firstFreeBlock
      ensures St() == FileData.PutBytes(old(St()), i, position, input).0
      ensures Sound(St()) && inodeList[..] == old(inodeList[..])
      ensures Content(St(), i) == Splice(Content(old(St()), i), position, input)
    {
      hide FsInv, FileData.PutBytes, Content, Splice, Lookup;
      ghost var st := St();
      ghost var owner :| FsInv(st, owner);
      SpliceInside(st, owner, i, position, input);
      ByteIsPlaced(st, i, position);
      var p, offset := SwitchAddress(i, position / BLOCK_SIZE, position % BLOCK_SIZE);
      var w := PutBytes(i, position, p, input);
    }

    /** free_parent_directory_entry, with the last entry located from the directory's size:
        the last entry's name and number are copied over the entry, and the size shrinks. */
    method FreeParentDirectoryEntry(d: nat, name: Name) returns (ret: int)
      requires Sized() && d < INODES && Sound(St()) && IsDir(St(), d) && inodeList[d].size % ENTRY == 0 && |name| <= 13
      modifies index, inodeList, space, this`freeBlockNumber, this`firstFreeBlock
      ensures St() == RemoveEntry(old(St()), d, name)
      ensures ret == if Find(List(old(St()), d), name).Some? then 0 else -1
    {
      hide Sound, FileData.PutBytes, Content, Splice, Lookup, Find, CString, EntryList;
      ghost var st := St();
      SearchOutcome(st, d, name);
      FindSome(List(st, d), name);
      var ans, e := IsExist(d, name, -1);
      if ans == -1 { return -1; }
      var last := LastEntry(d);
      Overwrite(d, ENTRY * e, CString(last[..14]) + [0]);
      Overwrite(d, ENTRY * e + 14, last[14..]);
      var size := inodeList[d].size;
      inodeList[d] := inodeList[d].(size := size - ENTRY, lastOffset := (size - ENTRY) % BLOCK_SIZE);
      ret := 0;
    }

    /** The bytes of a directory's last entry. */
    method LastEntry(d: nat) returns (last: seq<Byte>)
      requires Sized() && d < INODES && Sound(St()) && inodeList[d].Live()
      requires inodeList[d].size >= ENTRY && inodeList[d].size % ENTRY == 0
      ensures last == Raw(Content(St(), d), |Content(St(), d)| / ENTRY - 1)
    {
      hide Sound, Content, Lookup;
      var size := inodeList[d].size;
      LastPlace(size);
      ReadChunk(St(), d, size - ENTRY, ENTRY);
      var p, offset := SwitchAddress(d, (size - ENTRY) / BLOCK_SIZE, (size - ENTRY) % BLOCK_SIZE);
      last := BytesOf(space[p.n])[offset..offset + ENTRY];
    }

    /** allocate_inode. */
    method AllocateInode(parent: nat, mode: int, kind: Kind)
      requires Sized() && 0 <= firstFreeInode < INODES
      modifies inodeList, this`firstFreeInode, this`freeInodeNumber
      ensures St() == Inodes.AllocateInode(old(St()), parent, mode, kind)
    {
      var f := firstFreeInode;
      inodeList[f] := Inode(kind, 0, inodeList[f].loc, IN_USE, parent, -1, 0, mode);
      var i := f + 1;
      while i < INODES
        invariant f + 1 <= i <= INODES
        invariant NextFreeInode(inodeList[..], f + 1) == NextFreeInode(inodeList[..], i)
      {
        if inodeList[i].operation == 0 { break; }
        i := i + 1;
      }
      firstFreeInode := i;
      freeInodeNumber := freeInodeNumber - 1;
    }

    /** free_inode of inode `i`, named `name` in its parent. */
    method FreeInode(name: Name, i: nat)
      requires Sized() && i < INODES && Sound(St()) && inodeList[i].Live() && |name| <= 13
      requires var d := inodeList[i].parent;
               0 <= d < INODES && d != i && IsDir(St(), d) && inodeList[d].size % ENTRY == 0
      modifies this, index, inodeList, space
      ensures St() == Namespace.FreeInode(old(St()), name, i)
    {
      hide FsInv, FreeBlocks.FreeBlock, RemoveEntry;
      var d := inodeList[i].parent;
      ghost var st := St();
      ghost var owner :| FsInv(st, owner);
      FreeBlockExact(st, owner, i);
      FreeBlock(i);
      var _ := FreeParentDirectoryEntry(d, name);
      inodeList[i] := Inode(Nul, 0, inodeList[i].loc, 0, 0, 0, 0, -1);
      freeInodeNumber := freeInodeNumber + 1;
      if firstFreeInode > i {
        firstFreeInode := i;
      }
    }

    /** create in directory `d`; `pad` is what the fresh entry's name field holds before strcpy. */
    method Create(d: nat, name: Name, isDir: bool, mode: int, pad: Pad) returns (ok: bool)
      requires Sized() && Consistent(St()) && IsDir(St(), d) && freeInodeNumber >= 1
      modifies this, index, inodeList, space
      ensures (St(), ok) == CreateIn(old(St()), d, name, isDir, mode, pad)
    {
      hide FsInv, TreeInv, FileData.WriteFile, Namespace.IsExist, Encode;
      ghost var owner, slot, depth :| Inv(St(), owner, slot, depth);
      FirstInodeUsable(St());
      if |name| > 13 { return false; }
      var ans, di := IsExist(d, name, -1);
      if ans != -1 { return false; }
      var entry := Encode(name, firstFreeInode, pad);
      var w, _ := WriteFile(d, inodeList[d].size, entry, false);
      if w == -1 { return false; }
      AllocateInode(d, mode, if isDir then Dir else Reg);
      ok := true;
    }

    /** rd_unlink of `name` in directory `d`. */
    method Unlink(d: nat, name: Name, open: set<nat>) returns (ok: bool)
      requires Sized() && Consistent(St()) && IsDir(St(), d)
      modifies this, index, inodeList, space
      ensures (St(), ok) == UnlinkIn(old(St()), d, name, open)
    {
      hide FsInv, Namespace.IsExist, Namespace.FreeInode, List;
      ghost var owner, slot, depth :| Inv(St(), owner, slot, depth);
      FoundInode(St(), owner, slot, depth, d, name);
      var i, di := IsExist(d, name, -1);
      if i == -1 { return false; }
      if inodeList[i].kind.Dir? && inodeList[i].size > 0 { return false; }
      if i in open { return false; }
      FreeInode(name, i);
      ok := true;
    }

    /** The lookup of the path components, each in the directory found before it. */
    method Resolve(start: nat, comps: seq<Name>) returns (d: int)
      requires Sized() && Sound(St())
      ensures match Namespace.Resolve(St(), start, comps)
              case None => d == -1
              case Some(j) => d == j
    {
      hide Sound, Namespace.IsExist, Namespace.Resolve;
      d := start;
      var k := 0;
      assert comps[0..] == comps;
      while k < |comps|
        invariant k <= |comps| && 0 <= d
        invariant Namespace.Resolve(St(), start, comps) == Namespace.Resolve(St(), d, comps[k..])
      {
        ResolveUnfolds(St(), d, comps[k..]);
        assert comps[k..][0] == comps[k] && comps[k..][1..] == comps[k + 1..];
        if !(d < INODES && inodeList[d].operation != 0 && inodeList[d].kind.Dir?) { return -1; }
        var ans, di := IsExist(d, comps[k], -1);
        if ans == -1 { return -1; }
        d := ans;
        k := k + 1;
      }
      ResolveUnfolds(St(), d, comps[k..]);
      if !(d < INODES && inodeList[d].operation != 0 && inodeList[d].kind.Dir?) { return -1; }
    }

    /** One call of the module's interface. */
    method Call(op: Op) returns (ok: bool)
      requires Sized() && Consistent(St())
      modifies this, index, inodeList, space
      ensures (St(), ok) == Step(old(St()), op) && Consistent(St())
      ensures Effect(old(St()), op, St(), ok)
    {
      hide Consistent, Sound, CreateIn, UnlinkIn, FileData.WriteFile, Namespace.Resolve, Effect;
      StepKeepsConsistent(St(), op);
      StepExact(St(), op);
      ConsistentSound(St());
      ok := false;
      match op
      case Create(start, comps, name, isDir, mode, pad) =>
        if freeBlockNumber < 1 || freeInodeNumber < 1 { return; }
        var d := Resolve(start, comps);
        if d == -1 { return; }
        ok := Create(d, name, isDir, mode, pad);
      case Write(i, p, s) =>
        if i < INODES && inodeList[i].operation != 0 && p <= inodeList[i].size {
          var w, _ := WriteFile(i, p, s, true);
          ok := w >= 0;
        }
      case Unlink(start, comps, name, open) =>
        var d := Resolve(start, comps);
        if d == -1 { return; }
        ok := Unlink(d, name, open);
    }
  }

  lemma SoundPointers(st: State, i: nat, k: nat)
    requires Sound(st) && i < INODES && k < MAX_BLOCKS
    ensures var loc := st.inodes[i].loc;
            && (loc[8].Blk? ==> loc[8].n < SPACE) && (loc[9].Blk? ==> loc[9].n < SPACE)
            && (k >= 72 && Second(loc, st.disk, (k - 72) / 64).Blk? ==> Second(loc, st.disk, (k - 72) / 64).n < SPACE)
            && (Lookup(loc, st.disk, k).Blk? ==> Lookup(loc, st.disk, k).n < SPACE)
  {
    assert At(st.inodes, st.disk, SingleOf(i)) == st.inodes[i].loc[8];
    assert At(st.inodes, st.disk, DoubleOf(i)) == st.inodes[i].loc[9];
    assert At(st.inodes, st.disk, DataOf(i, k)) == Lookup(st.inodes[i].loc, st.disk, k);
    if k >= 72 {
      assert At(st.inodes, st.disk, SecondOf(i, (k - 72) / 64)) == Second(st.inodes[i].loc, st.disk, (k - 72) / 64);
    }
  }

  lemma NextBlockAbsent(st: State, i: nat)
    requires Sound(st) && i < INODES && st.inodes[i].Live()
    ensures var n := st.inodes[i].BlockCount();
            && 0 <= n <= MAX_BLOCKS
            && (forall k :: 0 <= k < MAX_BLOCKS ==> (Lookup(st.inodes[i].loc, st.disk, k).Blk? <==> k < n))
  {
    var owner :| FsInv(st, owner);
    assert Shape(st, i);
    forall k | 0 <= k < MAX_BLOCKS ensures Lookup(st.inodes[i].loc, st.disk, k).Blk? <==> k < st.inodes[i].BlockCount() {
      assert At(st.inodes, st.disk, DataOf(i, k)) == Lookup(st.inodes[i].loc, st.disk, k);
    }
  }

  /** The roles to fill can be filled in their order. */
  ghost predicate AttachPlan(s: State, owner: Owners, i: nat, b: nat) {
    i < INODES && b < MAX_BLOCKS && OwnInv(s, owner) && Attachable(s, RolesNeeded(s, i, b))
  }

  ghost function LastTaken(s: State, rs: seq<Role>): int
    requires rs != [] && forall r :: r in rs ==> InRange(r)
  {
    AttachAll(s, rs[..|rs| - 1]).firstBlock
  }

  /** Where allocate_block stands when it fills role m of its list: the block it took for
      the role before is the index block that holds this role's slot. */
  lemma {:induction false} AttachStep(s: State, owner: Owners, i: nat, b: nat, m: nat)
    requires AttachPlan(s, owner, i, b) && m < |RolesNeeded(s, i, b)|
    ensures var rs := RolesNeeded(s, i, b);
            && (forall r :: r in rs[..m] ==> InRange(r)) && (forall r :: r in rs[..m + 1] ==> InRange(r)) && InRange(rs[m])
            && var t := AttachAll(s, rs[..m]);
            && (m == 0 ==> t == s)
            && 0 <= t.firstBlock < SPACE && HasSlot(t, rs[m])
            && AttachAll(s, rs[..m + 1]) == Attach(t, rs[m])
            && At(AttachAll(s, rs[..m + 1]).inodes, AttachAll(s, rs[..m + 1]).disk, rs[m]) == Blk(t.firstBlock)
            && (m + 1 < |rs| ==> InRange(rs[m + 1]) && !InInode(rs[m + 1]))
            && (m + 1 < |rs| ==>
                  Container(AttachAll(s, rs[..m + 1]).inodes, AttachAll(s, rs[..m + 1]).disk, rs[m + 1]) == Blk(t.firstBlock))
            && rs[..|rs|] == rs
  {
    var rs := RolesNeeded(s, i, b);
    AttachReady(s, owner, rs, m);
    if m == 0 { assert rs[..0] == []; }
    hide OwnInv, Attachable, AttachAll;
    if m + 1 < |rs| {
      assert ContainerRole(rs[m + 1]) == rs[m];
      var s1 := AttachAll(s, rs[..m + 1]);
      ContainerIsRole(s1.inodes, s1.disk, rs[m + 1]);
    }
  }

  /** allocate_block's plan can be carried out, and its last block is the new data block. */
  lemma {:induction false} PlanHolds(st: State, owner: Owners, i: nat)
    requires FsInv(st, owner) && i < INODES && st.inodes[i].Live()
    requires !Refused(st.inodes[i].blockNumber + 1, st.freeBlocks)
    ensures var b, s := st.inodes[i].blockNumber + 1, Bump(st, i);
            var rs := RolesNeeded(s, i, b);
            var s1 := AttachAll(s, rs);
            && AttachPlan(s, owner, i, b)
            && BlockIndex.AllocateBlock(st, i) == Some(s1)
            && (b < 8 ==> rs == [DataOf(i, b)])
            && LastTaken(s, rs) >= 0 && Lookup(s1.inodes[i].loc, s1.disk, b) == Blk(LastTaken(s, rs))
            && (b < 8 ==> LastTaken(s, rs) == st.firstBlock)
  {
    var b, s := st.inodes[i].blockNumber + 1, Bump(st, i);
    BumpKeepsOwners(st, owner, i);
    RolesNeededAttachable(st, i);
    BumpKeepsAttachable(st, i, RolesNeeded(st, i, b));
    var rs := RolesNeeded(s, i, b);
    assert rs == RolesNeeded(st, i, b);
    AttachStep(s, owner, i, b, |rs| - 1);
    AttachStep(s, owner, i, b, 0);
    hide OwnInv, Attachable, AttachAll, Lookup;
    assert At(AttachAll(s, rs).inodes, AttachAll(s, rs).disk, DataOf(i, b)) == Blk(LastTaken(s, rs));
  }

  ghost function AfterBytes(r: (State, nat), w: nat): (State, nat) {
    (r.0, r.1 + w)
  }

  lemma PutNothing(st: State, i: nat, q: nat)
    requires i < INODES
    ensures FileData.PutBytes(st, i, q, []) == (st, 0)
  {
  }

  /** Looking up or allocating the next block first does not change what the loop does. */
  lemma {:induction false} PutBytesBoundary(st: State, owner1: Owners, i: nat, q: nat, s: seq<Byte>)
    requires i < INODES && s != []
    requires var e := FileData.EnsureBlock(st, i, q / BLOCK_SIZE);
             e.Some? ==> FsInv(e.value, owner1) && q < BLOCK_SIZE * e.value.inodes[i].BlockCount()
    ensures match FileData.EnsureBlock(st, i, q / BLOCK_SIZE)
            case None => FileData.PutBytes(st, i, q, s) == (st, 0)
            case Some(st1) => FileData.PutBytes(st1, i, q, s) == FileData.PutBytes(st, i, q, s)
  {
    hide FsInv, FileData.EnsureBlock, PokeByte;
    match FileData.EnsureBlock(st, i, q / BLOCK_SIZE)
    case None =>
    case Some(st1) => EnsureBlockPresent(st1, owner1, i, q);
  }

  /** One byte inside a block that is there. */
  lemma {:induction false} PutBytesInBlock(st: State, owner: Owners, i: nat, q: nat, s: seq<Byte>)
    requires FsInv(st, owner) && i < INODES && s != [] && q < BLOCK_SIZE * st.inodes[i].BlockCount()
    ensures var st1 := PokeByte(st, i, q, s[0]);
            && FileData.PutBytes(st, i, q, s)
               == (FileData.PutBytes(st1, i, q + 1, s[1..]).0, FileData.PutBytes(st1, i, q + 1, s[1..]).1 + 1)
            && (q % BLOCK_SIZE != BLOCK_SIZE - 1 && q / BLOCK_SIZE < MAX_BLOCKS ==>
                  Lookup(st1.inodes[i].loc, st1.disk, (q + 1) / BLOCK_SIZE) == Lookup(st.inodes[i].loc, st.disk, q / BLOCK_SIZE)
                  && q + 1 < BLOCK_SIZE * st.inodes[i].BlockCount())
  {
    EnsureBlockPresent(st, owner, i, q);
    PokeByteKeepsInv(st, owner, i, q, s[0]);
    assert Shape(st, i);
    var st1 := PokeByte(st, i, q, s[0]);
    var r := DataOf(i, q / BLOCK_SIZE);
    assert At(st1.inodes, st1.disk, r) == At(st.inodes, st.disk, r);
    if q % BLOCK_SIZE != BLOCK_SIZE - 1 {
      assert (q + 1) / BLOCK_SIZE == q / BLOCK_SIZE;
    }
  }

  /** The first block of a write is there, or is the file's next one; the test of
      location[0] only brings its allocation forward. */
  lemma {:induction false} WriteStart(st: State, owner: Owners, i: nat, p: nat)
    requires FsInv(st, owner) && i < INODES && st.inodes[i].Live() && p <= st.inodes[i].size
    ensures p / BLOCK_SIZE <= st.inodes[i].BlockCount()
    ensures match (if st.inodes[i].loc[0].Null? then BlockIndex.AllocateBlock(st, i) else Some(st))
            case None => true
            case Some(st0) =>
              && Sound(st0) && st0.inodes[i].Live() && p / BLOCK_SIZE <= st0.inodes[i].BlockCount()
              && st0.inodes[i].size == st.inodes[i].size
              && match FileData.EnsureBlock(st0, i, p / BLOCK_SIZE)
                 case None => true
                 case Some(st1) => Sound(st1) && st1.inodes[i].Live() && st1.inodes[i].size == st.inodes[i].size
                                   && p < BLOCK_SIZE * st1.inodes[i].BlockCount()
  {
    InvShape(st, owner);
    assert p <= BLOCK_SIZE * st.inodes[i].BlockCount() by { assert Shape(st, i); }
    hide FsInv, FileData.EnsureBlock, BlockIndex.AllocateBlock, Shape;
    if st.inodes[i].loc[0].Null? {
      if BlockIndex.AllocateBlock(st, i).Some? {
        var o := AllocateBlockGrows(st, owner, i);
        var o1 := EnsureBlockFrame(BlockIndex.AllocateBlock(st, i).value, o, i, p);
      }
    } else {
      var o1 := EnsureBlockFrame(st, owner, i, p);
    }
  }

  lemma ReadStart(st: State, i: nat)
    requires Sound(st) && i < INODES && st.inodes[i].Live() && st.inodes[i].size > 0
    ensures st.inodes[i].loc[0].Blk? && st.inodes[i].size <= BLOCK_SIZE * MAX_BLOCKS
  {
    var owner :| FsInv(st, owner);
    assert Shape(st, i);
    assert At(st.inodes, st.disk, DataOf(i, 0)).Blk?;
  }

  method Memcpy(dst: array<Byte>, at: nat, src: seq<Byte>)
    requires at + |src| <= dst.Length
    modifies dst
    ensures dst[..] == old(dst[..])[..at] + src + old(dst[..])[at + |src|..]
  {
    forall k | 0 <= k < |src| {
      dst[at + k] := src[k];
    }
  }

  ghost predicate ReadSoFar(c: seq<Byte>, start: seq<Byte>, out: seq<Byte>, p0: nat, done: nat) {
    p0 + done <= |c| && done <= |start| && out == c[p0..p0 + done] + start[done..]
  }

  /** A negative number compared with the unsigned size of a file counts as larger. */
  predicate Below(x: int, size: nat) {
    0 <= x < size
  }

  /** Where rd_read starts: at the descriptor's position, or at 0 when that is not in the file. */
  function ReadFrom(size: nat, position: int): nat {
    if Below(position, size) then position else 0
  }

  /** How much it reads: a negative number asks for all there is. */
  function ReadCount(size: nat, position: int, numBytes: int): (n: nat)
    ensures ReadFrom(size, position) + n <= size
  {
    var rest := size - ReadFrom(size, position);
    if Below(numBytes, rest) then numBytes else rest
  }

  lemma ReadNone(c: seq<Byte>, start: seq<Byte>, p0: nat)
    requires p0 <= |c|
    ensures ReadSoFar(c, start, start, p0, 0)
  {
  }

  lemma LastPlace(size: nat)
    requires size >= ENTRY && size % ENTRY == 0
    ensures (size - ENTRY) % BLOCK_SIZE + ENTRY <= BLOCK_SIZE && ENTRY * (size / ENTRY - 1) == size - ENTRY
  {
    var n := size / ENTRY - 1;
    assert size - ENTRY == ENTRY * n && (ENTRY * n) % BLOCK_SIZE == ENTRY * (n % 16);
  }

  lemma ReadDone(c: seq<Byte>, before: seq<Byte>, out: seq<Byte>, p0: nat, n: nat)
    requires n < |before| && ReadSoFar(c, before[n := 0], out, p0, n)
    ensures n < |out| == |before| && out[..n] == c[p0..p0 + n] && out[n] == 0 && out[n + 1..] == before[n + 1..]
  {
  }

  lemma ReadPlace(size: nat, position: int, numBytes: int)
    ensures ReadFrom(size, position) == if 0 <= position < size then position else 0
    ensures var rest := size - ReadFrom(size, position);
            ReadCount(size, position, numBytes) == if 0 <= numBytes < rest then numBytes else rest
  {
  }

  lemma ReadMore(c: seq<Byte>, start: seq<Byte>, before: seq<Byte>, after: seq<Byte>, p0: nat, p: nat, done: nat, n: nat)
    requires p == p0 + done && p + n <= |c| && done + n <= |start| && |before| == |start|
    requires ReadSoFar(c, start, before, p0, done)
    requires after == before[..done] + c[p..p + n] + before[done + n..]
    ensures ReadSoFar(c, start, after, p0, done + n)
  {
    assert c[p0..p0 + (done + n)] == c[p0..p0 + done] + c[p..p + n];
    assert before[..done] == c[p0..p0 + done];
    assert before[done + n..] == start[done + n..];
  }

  /** n bytes of a position's block from there on are a piece of the content. */
  lemma {:induction false} ReadChunk(st: State, i: nat, p: nat, n: nat)
    requires Sound(st) && i < INODES && st.inodes[i].Live() && 0 < n && p + n <= st.inodes[i].size
    requires p % BLOCK_SIZE + n <= BLOCK_SIZE
    ensures p / BLOCK_SIZE < MAX_BLOCKS
    ensures var b, c := Lookup(st.inodes[i].loc, st.disk, p / BLOCK_SIZE), Content(st, i);
            b.Blk? && b.n < SPACE
            && c[p..p + n] == BytesOf(st.disk[b.n])[p % BLOCK_SIZE..p % BLOCK_SIZE + n]
  {
    var owner :| FsInv(st, owner);
    assert Shape(st, i);
    assert At(st.inodes, st.disk, DataOf(i, p / BLOCK_SIZE)).Blk?;
    SoundPointers(st, i, p / BLOCK_SIZE);
    var b, c := Lookup(st.inodes[i].loc, st.disk, p / BLOCK_SIZE), Content(st, i);
    var s, t := c[p..p + n], BytesOf(st.disk[b.n])[p % BLOCK_SIZE..p % BLOCK_SIZE + n];
    forall k | 0 <= k < n ensures s[k] == t[k] {
      SameBlock(p, k);
      assert s[k] == ByteAt(st, i, p + k);
    }
  }

  lemma SameBlock(p: nat, k: nat)
    requires p % BLOCK_SIZE + k < BLOCK_SIZE
    ensures (p + k) / BLOCK_SIZE == p / BLOCK_SIZE && (p + k) % BLOCK_SIZE == p % BLOCK_SIZE + k
  {
  }

  /** The first `e` entries of d do not have this name, and `times` entries are left. */
  ghost predicate SearchedTo(st: State, d: nat, name: Name, e: int, times: int)
    requires d < INODES
  {
    var l := List(st, d);
    0 <= e <= |l| && times == |l| - e && forall k :: 0 <= k < e ==> l[k].name != name
  }

  /** Entry `e` is the first one with this name, and `ans` is its inode number. */
  ghost predicate Hit(l: seq<Entry>, name: Name, e: int, ans: int) {
    0 <= e < |l| && l[e].name == name && l[e].inode == ans && forall k :: 0 <= k < e ==> l[k].name != name
  }

  /** A block that holds entries still to be searched is there. */
  lemma {:induction false} EntryBlock(st: State, d: nat, b: nat, name: Name, times: int)
    requires Sound(st) && d < INODES && st.inodes[d].Live() && b < MAX_BLOCKS
    requires SearchedTo(st, d, name, 16 * b, times) && times > 0
    ensures var p := Lookup(st.inodes[d].loc, st.disk, b); p.Blk? && p.n < SPACE
  {
    hide Sound, Lookup, Content, EntryList;
    assert 256 * b / BLOCK_SIZE == b && 256 * b % BLOCK_SIZE == 0;
    ReadChunk(st, d, 256 * b, 1);
  }

  /** So are the index blocks it is found through. */
  lemma {:induction false} EntryIndex(st: State, d: nat, b: nat, name: Name, times: int)
    requires Sound(st) && d < INODES && st.inodes[d].Live() && b < MAX_BLOCKS
    requires SearchedTo(st, d, name, 16 * b, times) && times > 0
    ensures 8 <= b < 72 ==> st.inodes[d].loc[8].Blk? && st.inodes[d].loc[8].n < SPACE
    ensures b >= 72 ==> st.inodes[d].loc[9].Blk? && st.inodes[d].loc[9].n < SPACE
    ensures b >= 72 ==> Second(st.inodes[d].loc, st.disk, (b - 72) / 64).Blk?
  {
    EntryBlock(st, d, b, name, times);
    SoundPointers(st, d, b);
  }

  /** Entry j of block b, read in place. */
  lemma {:induction false} EntryBytes(st: State, d: nat, b: nat, j: nat)
    requires Sound(st) && d < INODES && st.inodes[d].Live() && b < MAX_BLOCKS && j < 16 && 16 * b + j < |List(st, d)|
    ensures var p := Lookup(st.inodes[d].loc, st.disk, b);
            p.Blk? && p.n < SPACE
            && List(st, d)[16 * b + j] == Decode(BytesOf(st.disk[p.n])[ENTRY * j..ENTRY * j + ENTRY])
  {
    hide Sound, Decode, Lookup;
    var q := 256 * b + 16 * j;
    assert q / BLOCK_SIZE == b && q % BLOCK_SIZE == 16 * j;
    ReadChunk(st, d, q, ENTRY);
    assert Raw(Content(st, d), 16 * b + j) == Content(st, d)[q..q + ENTRY];
  }

  /** What the end of a search says about the first entry with this name. */
  lemma SearchOutcome(st: State, d: nat, name: Name)
    requires d < INODES && |name| <= 13
    ensures forall e, ans :: Hit(List(st, d), name, e, ans) ==>
              Find(List(st, d), name) == Some(e) && Namespace.IsExist(st, d, name) == Some(ans)
    ensures forall times :: SearchedTo(st, d, name, |List(st, d)|, times) ==> Namespace.IsExist(st, d, name) == None
    ensures SearchedTo(st, d, name, 0, |List(st, d)|)
    ensures Namespace.IsExist(st, d, name).Some? ==> Find(List(st, d), name).Some?
  {
    hide List, Find;
  }

  lemma ResolveUnfolds(st: State, d: nat, comps: seq<Name>)
    ensures Namespace.Resolve(st, d, comps)
            == if !IsDir(st, d) then None
               else if comps == [] then Some(d)
               else match Namespace.IsExist(st, d, comps[0])
                 case None => None
                 case Some(j) => Namespace.Resolve(st, j, comps[1..])
  {
  }

  lemma DirectPointers(st: State, d: nat)
    requires d < INODES
    ensures forall k :: 0 <= k < 8 ==> st.inodes[d].loc[k] == Lookup(st.inodes[d].loc, st.disk, k)
    ensures st.inodes[d].loc[8].Blk? && st.inodes[d].loc[8].n < SPACE ==>
              forall k :: 0 <= k < 64 ==> PtrsOf(st.disk[st.inodes[d].loc[8].n])[k] == Lookup(st.inodes[d].loc, st.disk, 8 + k)
  {
  }

  lemma SecondPointers(st: State, d: nat, j: nat)
    requires d < INODES && j < 64 && Sound(st)
    requires st.inodes[d].loc[9].Blk? && st.inodes[d].loc[9].n < SPACE
    ensures var p := PtrsOf(st.disk[st.inodes[d].loc[9].n])[j];
            p.Blk? ==>
              (p.n < SPACE && forall k :: 0 <= k < 64 ==>
                 PtrsOf(st.disk[p.n])[k] == Lookup(st.inodes[d].loc, st.disk, 72 + 64 * j + k))
  {
    hide Sound;
    SoundPointers(st, d, 72 + 64 * j);
    forall k | 0 <= k < 64
      ensures PtrsOf(st.disk[st.inodes[d].loc[9].n])[j].Blk? ==>
                Lookup(st.inodes[d].loc, st.disk, 72 + 64 * j + k) == PtrsOf(st.disk[PtrsOf(st.disk[st.inodes[d].loc[9].n])[j].n])[k] {
      assert (64 * j + k) / 64 == j && (64 * j + k) % 64 == k;
    }
  }

  lemma ByteIsPlaced(st: State, i: nat, p: nat)
    requires Sound(st) && i < INODES && st.inodes[i].Live() && p < st.inodes[i].size
    ensures p / BLOCK_SIZE < MAX_BLOCKS && p < BLOCK_SIZE * st.inodes[i].BlockCount()
    ensures Lookup(st.inodes[i].loc, st.disk, p / BLOCK_SIZE).Blk?
  {
    var owner :| FsInv(st, owner);
    assert Shape(st, i);
    assert At(st.inodes, st.disk, DataOf(i, p / BLOCK_SIZE)).Blk?;
  }

  lemma ConsistentSound(st: State)
    requires Consistent(st)
    ensures Sound(st)
  {
    var owner, slot, depth :| Inv(st, owner, slot, depth);
    assert FsInv(st, owner);
  }

  /** A name found in a directory names a live inode below it. */
  lemma FoundInode(st: State, owner: Owners, slot: PerInode, depth: PerInode, d: nat, name: Name)
    requires Inv(st, owner, slot, depth) && IsDir(st, d)
    ensures Sound(st) && st.inodes[d].size % ENTRY == 0
    ensures var found := Namespace.IsExist(st, d, name);
            found.Some? ==> found.value < INODES && st.inodes[found.value].Live() && st.inodes[found.value].parent == d
                            && found.value != d && |name| <= 13
  {
    assert DirInv(st, d, slot);
    FindSome(List(st, d), name);
    var found := Namespace.IsExist(st, d, name);
    if found.Some? {
      var e := Find(List(st, d), name).value;
      assert List(st, d)[e].inode == found.value;
      assert NamedInv(st, found.value, slot, depth);
    }
  }
}
