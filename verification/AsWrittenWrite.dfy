/** write_file as the source writes it, on a working block allocator: exactly which writes
    still splice their bytes into the file. */
module AsWrittenWrite {
  import opened Disk
  import opened BlockIndex
  import opened FileData
  import opened Directory
  import opened Inodes
  import opened Namespace
  import opened Tree
  import opened Runs
  import opened WriteLength
  import opened AsWritten

  /** allocate_block as written: a use of memory outside the ramdisk, NULL, or a new block. */
  datatype Grown = Bad | NoBlock | Fresh(st: State, n: nat)

  function AllocateAsWritten(st: State, i: nat): Grown
    requires i < INODES
  {
    var b := st.inodes[i].blockNumber + 1;
    if RefusedAsWritten(b, st.freeBlocks) then NoBlock
    else if b >= MAX_BLOCKS then Bad
    else
      var rs := RolesNeeded(st, i, b);
      if st.freeBlocks < |rs| then Bad
      else
        var st1 := AttachAll(Bump(st, i), rs);
        match At(st1.inodes, st1.disk, rs[|rs| - 1])
        case Null => Bad
        case Blk(n) => Fresh(st1, n)
  }

  datatype Written = Crash | Error | Returned(st: State, w: nat)

  /** The byte loop as written: bytes go to block `blk` from `off` on, and every end of a
      block takes a new one. */
  function LoopAsWritten(st: State, i: nat, blk: nat, off: nat, s: seq<Byte>): Written
    requires i < INODES && off <= BLOCK_SIZE
    decreases |s|, off
  {
    if s == [] then Returned(st, 0)
    else if off == BLOCK_SIZE then
      match AllocateAsWritten(st, i)
      case Bad => Crash
      case NoBlock => Returned(st, 0)
      case Fresh(st1, n) => LoopAsWritten(st1, i, n, 0, s)
    else if blk >= SPACE then Crash
    else
      var st1 := st.(disk := st.disk[blk := Data(BytesOf(st.disk[blk])[off := s[0]])]);
      match LoopAsWritten(st1, i, blk, off + 1, s[1..])
      case Returned(st2, w) => Returned(st2, w + 1)
      case r => r
  }

  /** write_file as written. */
  function WriteAsWritten(st: State, i: nat, p: nat, s: seq<Byte>, byUser: bool): Written
    requires i < INODES
  {
    if byUser && st.inodes[i].kind.Dir? then Error
    else if st.inodes[i].loc[0].Null? then
      match AllocateAsWritten(st, i)
      case Bad => Crash
      case NoBlock => Error
      case Fresh(st0, _) => WriteFrom(st0, i, p, s)
    else WriteFrom(st, i, p, s)
  }

  /** From the lookup of the first block on: a failed allocation there is not noticed, and
      the size grows by what was written wherever it was written. */
  function WriteFrom(st: State, i: nat, p: nat, s: seq<Byte>): Written
    requires i < INODES
  {
    match SwitchAt(st.inodes[i].loc, st.disk, p)
    case Addr(Blk(n), _) => Finish(LoopAsWritten(st, i, n, p % BLOCK_SIZE, s), i)
    case Addr(Null, offset) =>
      if offset != 0 then (if s == [] then Finish(Returned(st, 0), i) else Crash)
      else (match AllocateAsWritten(st, i)
        case Bad => Crash
        case NoBlock => if s == [] then Finish(Returned(st, 0), i) else Crash
        case Fresh(st1, n) => Finish(LoopAsWritten(st1, i, n, 0, s), i))
    case _ => Crash
  }

  function Finish(r: Written, i: nat): Written
    requires i < INODES
  {
    if !r.Returned? then r
    else
      var size := r.st.inodes[i].size + r.w;
      Returned(r.st.(inodes := r.st.inodes[i := r.st.inodes[i].(size := size, blockNumber := size / BLOCK_SIZE,
                                                              lastOffset := size % BLOCK_SIZE)]), r.w)
  }

  /** The state with block_number as the source leaves it after a write. */
  function AsLeft(st: State, i: nat): State
    requires i < INODES
  {
    WithLast(st, i, NumberLeft(st.inodes[i]))
  }

  function WithLast(st: State, i: nat, b: LastBlock): State
    requires i < INODES
  {
    st.(inodes := st.inodes[i := st.inodes[i].(blockNumber := b)])
  }

  /** The answer of the designed write, and on success its content, with a block for every position. */
  ghost predicate Right(st: State, i: nat, p: nat, s: seq<Byte>, r: Written)
    requires i < INODES && p <= st.inodes[i].size
  {
    var w := WriteFile(st, i, p, s, false).1;
    if !(0 <= w <= |s|) then r.Error?
    else
      && r.Returned? && r.w == w
      && (forall q: nat :: q < r.st.inodes[i].size ==>
            q / BLOCK_SIZE < MAX_BLOCKS && Lookup(r.st.inodes[i].loc, r.st.disk, q / BLOCK_SIZE).Blk?)
      && Content(r.st, i) == Splice(Content(st, i), p, s[..w])
  }

  /** The file has at most one block more than its size fills, as a file that is only written to has. */
  predicate Tight(st: State, i: nat)
    requires i < INODES
  {
    BLOCK_SIZE * (st.inodes[i].BlockCount() - 1) <= st.inodes[i].size
  }

  /** The last block is not full, or there is none: block_number as left is then right. */
  predicate Ready(st: State, i: nat)
    requires i < INODES
  {
    st.inodes[i].BlockCount() == 0 || st.inodes[i].size < BLOCK_SIZE * st.inodes[i].BlockCount()
  }

  // ----- a write before the end -----

  lemma {:induction false} LoopKeepsSize(st: State, i: nat, blk: nat, off: nat, s: seq<Byte>)
    requires i < INODES && off <= BLOCK_SIZE
    ensures var r := LoopAsWritten(st, i, blk, off, s);
            r.Returned? ==> r.st.inodes[i].size == st.inodes[i].size && r.w <= |s|
    decreases |s|, off
  {
    if s != [] {
      if off == BLOCK_SIZE {
        match AllocateAsWritten(st, i)
        case Fresh(st1, n) =>
          AllocateKeepsSize(st, i);
          LoopKeepsSize(st1, i, n, 0, s);
        case _ =>
      } else if blk < SPACE {
        LoopKeepsSize(st.(disk := st.disk[blk := Data(BytesOf(st.disk[blk])[off := s[0]])]), i, blk, off + 1, s[1..]);
      }
    }
  }

  lemma AllocateKeepsSize(st: State, i: nat)
    requires i < INODES && AllocateAsWritten(st, i).Fresh?
    ensures AllocateAsWritten(st, i).st.inodes[i].size == st.inodes[i].size
    ensures AllocateAsWritten(st, i).st.inodes[i].blockNumber == st.inodes[i].blockNumber + 1
  {
    AttachAllOnlyGrows(Bump(st, i), i, RolesNeeded(st, i, st.inodes[i].blockNumber + 1));
  }

  lemma {:induction false} WriteFromSize(st: State, i: nat, p: nat, s: seq<Byte>)
    requires i < INODES
    ensures var r := WriteFrom(st, i, p, s);
            !r.Error? && (r.Returned? ==> r.st.inodes[i].size == st.inodes[i].size + r.w)
  {
    hide AllocateAsWritten, LoopAsWritten;
    match SwitchAt(st.inodes[i].loc, st.disk, p)
    case Addr(Blk(n), _) => LoopKeepsSize(st, i, n, p % BLOCK_SIZE, s); LoopNoError(st, i, n, p % BLOCK_SIZE, s);
    case Addr(Null, _) =>
      if AllocateAsWritten(st, i).Fresh? {
        var g := AllocateAsWritten(st, i);
        AllocateKeepsSize(st, i);
        LoopKeepsSize(g.st, i, g.n, 0, s);
        LoopNoError(g.st, i, g.n, 0, s);
      }
    case _ =>
  }

  lemma {:induction false} LoopNoError(st: State, i: nat, blk: nat, off: nat, s: seq<Byte>)
    requires i < INODES && off <= BLOCK_SIZE
    ensures !LoopAsWritten(st, i, blk, off, s).Error?
    decreases |s|, off
  {
    if s != [] {
      if off == BLOCK_SIZE {
        match AllocateAsWritten(st, i)
        case Fresh(st1, n) => LoopNoError(st1, i, n, 0, s);
        case _ =>
      } else if blk < SPACE {
        LoopNoError(st.(disk := st.disk[blk := Data(BytesOf(st.disk[blk])[off := s[0]])]), i, blk, off + 1, s[1..]);
      }
    }
  }

  /** A nonempty write that succeeds writes something. */
  lemma {:induction false} WritesSome(st: State, owner: Owners, i: nat, p: nat, s: seq<Byte>)
    requires FsInv(st, owner) && i < INODES && st.inodes[i].Live() && p <= st.inodes[i].size
    ensures var (d, w) := WriteFile(st, i, p, s, false);
            && -1 <= w <= |s| && (s != [] && w >= 0 ==> w >= 1)
            && (p < BLOCK_SIZE * st.inodes[i].BlockCount() ==> w >= 0)
  {
    hide FsInv, WriteFile, Content, Splice;
    var owner1 := WriteFileSplices(st, owner, i, p, s, false);
  }

  /** A nonempty write before the end makes the file longer than the splice. */
  lemma {:induction false} OverwriteWrong(st: State, owner: Owners, i: nat, p: nat, s: seq<Byte>)
    requires FsInv(st, owner) && i < INODES && st.inodes[i].Live()
    requires p < st.inodes[i].size && s != [] && st.inodes[i].loc[0].Blk?
    ensures !Right(st, i, p, s, WriteAsWritten(AsLeft(st, i), i, p, s, false))
  {
    assert Shape(st, i);
    WritesSome(st, owner, i, p, s);
    hide FsInv, WriteFrom, WriteFile, Content;
    WriteFromSize(AsLeft(st, i), i, p, s);
  }

  /** The loop inside one block puts its bytes where the designed one does. */
  lemma {:induction false} LoopInBlock(st: State, owner: Owners, i: nat, p: nat, s: seq<Byte>)
    requires FsInv(st, owner) && i < INODES && p < BLOCK_SIZE * st.inodes[i].BlockCount() && p % BLOCK_SIZE + |s| <= BLOCK_SIZE
    ensures p / BLOCK_SIZE < MAX_BLOCKS && Lookup(st.inodes[i].loc, st.disk, p / BLOCK_SIZE).Blk?
    ensures LoopAsWritten(st, i, Lookup(st.inodes[i].loc, st.disk, p / BLOCK_SIZE).n, p % BLOCK_SIZE, s)
            == Returned(PutBytes(st, i, p, s).0, |s|)
    decreases |s|
  {
    hide FsInv, Lookup, AllocateAsWritten, At;
    PokeByteKeepsInv(st, owner, i, p, if s == [] then 0 else s[0]);
    SameLookup(st, i, p);
    OwnBlock(st, owner, i, p / BLOCK_SIZE);
    if s != [] {
      EnsureBlockPresent(st, owner, i, p);
      var st1 := PokeByte(st, i, p, s[0]);
      SameLookup(st1, i, p);
      if |s| == 1 {
        assert s[1..] == [];
      } else {
        assert (p + 1) / BLOCK_SIZE == p / BLOCK_SIZE && (p + 1) % BLOCK_SIZE == p % BLOCK_SIZE + 1;
        LoopInBlock(st1, owner, i, p + 1, s[1..]);
      }
    }
  }

  lemma SameLookup(st: State, i: nat, p: nat)
    requires i < INODES && p / BLOCK_SIZE < MAX_BLOCKS
    ensures At(st.inodes, st.disk, DataOf(i, p / BLOCK_SIZE)) == Lookup(st.inodes[i].loc, st.disk, p / BLOCK_SIZE)
  {
  }

  lemma OwnBlock(st: State, owner: Owners, i: nat, k: nat)
    requires FsInv(st, owner) && i < INODES && k < MAX_BLOCKS && Lookup(st.inodes[i].loc, st.disk, k).Blk?
    ensures Lookup(st.inodes[i].loc, st.disk, k).n < SPACE
  {
    assert At(st.inodes, st.disk, DataOf(i, k)) == Lookup(st.inodes[i].loc, st.disk, k);
  }

  /** An overwrite that stays in one block: its bytes are in their place and no other byte of any file has changed, but
      the size has grown by all of them. */
  lemma {:induction false} OverwriteGrows(st: State, owner: Owners, i: nat, p: nat, s: seq<Byte>)
    requires FsInv(st, owner) && i < INODES && st.inodes[i].Live()
    requires p < BLOCK_SIZE * st.inodes[i].BlockCount() && p % BLOCK_SIZE + |s| <= BLOCK_SIZE
    ensures var r := WriteAsWritten(AsLeft(st, i), i, p, s, false);
            && r.Returned? && r.w == |s| && r.st.inodes[i].size == st.inodes[i].size + |s|
            && r.st.inodes[i].loc == st.inodes[i].loc && r.st.disk == PutBytes(st, i, p, s).0.disk
    ensures Wrote(st, PutBytes(st, i, p, s).0, i, p, s)
  {
    hide FsInv, Lookup, AllocateAsWritten, PutBytes, LoopAsWritten, Wrote, ByteAt;
    PutBytesInside(st, owner, i, p, s);
    LoopInBlock(st, owner, i, p, s);
    AddressesAgree(st, owner, i, p);
    FirstPointerThere(st, owner, i);
    LoopWithLast(st, i, NumberLeft(st.inodes[i]), Lookup(st.inodes[i].loc, st.disk, p / BLOCK_SIZE).n, p % BLOCK_SIZE, s);
  }

  lemma FirstPointerThere(st: State, owner: Owners, i: nat)
    requires FsInv(st, owner) && i < INODES && st.inodes[i].BlockCount() >= 1
    ensures st.inodes[i].loc[0].Blk?
  {
    assert Shape(st, i);
    assert At(st.inodes, st.disk, DataOf(i, 0)) == st.inodes[i].loc[0];
  }

  /** An empty one does nothing, as it should. */
  lemma {:induction false} EmptyInsideRight(st: State, owner: Owners, i: nat, p: nat)
    requires FsInv(st, owner) && i < INODES && st.inodes[i].Live() && p < st.inodes[i].size && st.inodes[i].loc[0].Blk?
    ensures Right(st, i, p, [], WriteAsWritten(AsLeft(st, i), i, p, [], false))
  {
    assert Shape(st, i);
    EnsureBlockPresent(st, owner, i, p);
    AddressesAgree(st, owner, i, p);
    NothingWritten(st, owner, i, p, AsLeft(st, i));
    hide FsInv, Lookup, SwitchAt, Right, Content;
    assert WriteAsWritten(AsLeft(st, i), i, p, [], false) == Finish(Returned(AsLeft(st, i), 0), i);
  }

  /** A state with the same bytes in the file is right for an empty write that succeeds. */
  lemma NothingWritten(st: State, owner: Owners, i: nat, p: nat, st1: State)
    requires FsInv(st, owner) && i < INODES && st.inodes[i].Live() && p <= st.inodes[i].size
    requires WriteFile(st, i, p, [], false).1 == 0 && st1.inodes[i].size == st.inodes[i].size
    requires forall k :: 0 <= k < MAX_BLOCKS && k < st.inodes[i].BlockCount() ==>
               Lookup(st1.inodes[i].loc, st1.disk, k) == Lookup(st.inodes[i].loc, st.disk, k)
               && BlockBytes(st1.disk, Lookup(st.inodes[i].loc, st.disk, k)) == BlockBytes(st.disk, Lookup(st.inodes[i].loc, st.disk, k))
    ensures Right(st, i, p, [], Finish(Returned(st1, 0), i))
  {
    assert Shape(st, i);
    hide WriteFile;
    var r := Finish(Returned(st1, 0), i);
    forall q: nat | q < st.inodes[i].size
      ensures q / BLOCK_SIZE < MAX_BLOCKS && Lookup(r.st.inodes[i].loc, r.st.disk, q / BLOCK_SIZE).Blk?
      ensures ByteAt(r.st, i, q) == ByteAt(st, i, q)
    {
      assert At(st.inodes, st.disk, DataOf(i, q / BLOCK_SIZE)).Blk?;
    }
    SpliceNone(Content(st, i), p);
    assert Content(r.st, i) == Content(st, i);
  }

  // ----- a write at the end of a partly filled last block -----

  lemma {:induction false} AllocateAgrees(st: State, owner: Owners, i: nat)
    requires FsInv(st, owner) && i < INODES && st.inodes[i].Live() && AllocateBlock(st, i).Some?
    ensures var st1, b := AllocateBlock(st, i).value, st.inodes[i].blockNumber + 1;
            && b < MAX_BLOCKS && Lookup(st1.inodes[i].loc, st1.disk, b).Blk?
            && AllocateAsWritten(st, i) == Fresh(st1, Lookup(st1.inodes[i].loc, st1.disk, b).n)
  {
    RolesNeededAttachable(st, i);
    var owner1 := AllocateBlockGrows(st, owner, i);
    var st1, b := AllocateBlock(st, i).value, st.inodes[i].blockNumber + 1;
    assert At(st1.inodes, st1.disk, DataOf(i, b)) == Lookup(st1.inodes[i].loc, st1.disk, b);
  }

  /** The loop's place: byte q of the file goes to `off` of its last block `blk`. */
  ghost predicate AtEnd(st: State, i: nat, q: nat, blk: nat, off: nat)
    requires i < INODES
  {
    var n := st.inodes[i].BlockCount();
    && 1 <= n <= MAX_BLOCKS && off <= BLOCK_SIZE && q == BLOCK_SIZE * (n - 1) + off
    && Lookup(st.inodes[i].loc, st.disk, n - 1) == Blk(blk)
  }

  /** Where only the design refuses, the source goes past its index array or past the space. */
  lemma RefusedIsBad(st: State, owner: Owners, i: nat)
    requires FsInv(st, owner) && i < INODES && st.inodes[i].Live()
    requires var b := st.inodes[i].blockNumber + 1; Refused(b, st.freeBlocks) && !RefusedAsWritten(b, st.freeBlocks)
    ensures AllocateAsWritten(st, i) == Bad
  {
    assert Shape(st, i);
    var b := st.inodes[i].blockNumber + 1;
    RefusalsDiffer(b, st.freeBlocks);
    if b < MAX_BLOCKS {
      var j := (b - 72) / 64;
      assert b == 72 + 64 * j;
      assert At(st.inodes, st.disk, SecondOf(i, j)) == Null && At(st.inodes, st.disk, DoubleOf(i)).Blk?;
    }
  }

  /** The loop as written does what the designed one does until that is refused a block; there it
      returns just if it is refused as well. */
  function Agreed(i: nat, d: (State, nat), s: seq<Byte>): Written
    requires i < INODES
  {
    if d.1 == |s| || RefusedAsWritten(d.0.inodes[i].BlockCount(), d.0.freeBlocks) then Returned(d.0, d.1) else Crash
  }

  lemma {:induction false} LoopAgrees(st: State, owner: Owners, i: nat, q: nat, blk: nat, off: nat, s: seq<Byte>)
    requires FsInv(st, owner) && i < INODES && st.inodes[i].Live() && AtEnd(st, i, q, blk, off)
    ensures LoopAsWritten(st, i, blk, off, s) == Agreed(i, PutBytes(st, i, q, s), s)
    decreases |s|, off
  {
    hide FsInv, AllocateBlock, AllocateAsWritten, Lookup, RefusedAsWritten;
    if s != [] {
      if off == BLOCK_SIZE {
        NextIsAllocated(st, owner, i, q);
        if AllocateBlock(st, i).None? {
          LoopRefused(st, owner, i);
        } else {
          AllocateAgrees(st, owner, i);
          var st1 := AllocateBlock(st, i).value;
          var owner1 := AllocateBlockGrows(st, owner, i);
          assert PutBytes(st1, i, q, s) == PutBytes(st, i, q, s) by { EnsureBlockPresent(st1, owner1, i, q); }
          LoopAgrees(st1, owner1, i, q, Lookup(st1.inodes[i].loc, st1.disk, st1.inodes[i].blockNumber).n, 0, s);
        }
      } else {
        EnsureBlockPresent(st, owner, i, q);
        PokeAtEnd(st, owner, i, q, blk, off, s[0]);
        LoopAgrees(PokeByte(st, i, q, s[0]), owner, i, q + 1, blk, off + 1, s[1..]);
      }
    }
  }

  lemma LoopRefused(st: State, owner: Owners, i: nat)
    requires FsInv(st, owner) && i < INODES && st.inodes[i].Live() && AllocateBlock(st, i).None?
    ensures AllocateAsWritten(st, i)
            == if RefusedAsWritten(st.inodes[i].BlockCount(), st.freeBlocks) then NoBlock else Bad
  {
    if !RefusedAsWritten(st.inodes[i].BlockCount(), st.freeBlocks) { RefusedIsBad(st, owner, i); }
  }

  lemma {:induction false} NextIsAllocated(st: State, owner: Owners, i: nat, q: nat)
    requires FsInv(st, owner) && i < INODES && st.inodes[i].Live() && q == BLOCK_SIZE * st.inodes[i].BlockCount()
    ensures EnsureBlock(st, i, q / BLOCK_SIZE) == AllocateBlock(st, i)
  {
    assert Shape(st, i);
    var n := st.inodes[i].BlockCount();
    if n < MAX_BLOCKS { assert !At(st.inodes, st.disk, DataOf(i, n)).Blk?; }
  }

  lemma {:induction false} PokeAtEnd(st: State, owner: Owners, i: nat, q: nat, blk: nat, off: nat, v: Byte)
    requires FsInv(st, owner) && i < INODES && st.inodes[i].Live() && AtEnd(st, i, q, blk, off) && off < BLOCK_SIZE
    ensures blk < SPACE
    ensures PokeByte(st, i, q, v) == st.(disk := st.disk[blk := Data(BytesOf(st.disk[blk])[off := v])])
    ensures FsInv(PokeByte(st, i, q, v), owner) && AtEnd(PokeByte(st, i, q, v), i, q + 1, blk, off + 1)
  {
    var r := DataOf(i, st.inodes[i].BlockCount() - 1);
    assert q / BLOCK_SIZE == r.k && q % BLOCK_SIZE == off;
    assert At(st.inodes, st.disk, r) == Blk(blk);
    PokeByteKeepsInv(st, owner, i, q, v);
    var st1 := PokeByte(st, i, q, v);
    assert At(st1.inodes, st1.disk, r) == Blk(blk);
  }

  lemma SameContent(st: State, st1: State, i: nat)
    requires i < INODES && st1.inodes[i].loc == st.inodes[i].loc && st1.inodes[i].size == st.inodes[i].size && st1.disk == st.disk
    ensures Content(st1, i) == Content(st, i)
  {
    forall q: nat ensures ByteAt(st1, i, q) == ByteAt(st, i, q) {}
  }

  /** When the designed write succeeds and the one as written ends with the same pointers and
      blocks after as many bytes, it is right. */
  lemma {:induction false} SameBlocksRight(st: State, owner: Owners, i: nat, p: nat, s: seq<Byte>, st1: State)
    requires FsInv(st, owner) && i < INODES && st.inodes[i].Live() && p == st.inodes[i].size
    requires var (d, w) := WriteFile(st, i, p, s, false);
             w >= 0 && st1.inodes[i].loc == d.inodes[i].loc && st1.disk == d.disk && st1.inodes[i].size == st.inodes[i].size
    ensures Right(st, i, p, s, Finish(Returned(st1, WriteFile(st, i, p, s, false).1), i))
  {
    hide WriteFile, Content, Splice;
    var owner1 := WriteFileSplices(st, owner, i, p, s, false);
    var (d, w) := WriteFile(st, i, p, s, false);
    var r := Finish(Returned(st1, w), i);
    assert |Splice(Content(st, i), p, s[..w])| == p + w by { SpliceLength(Content(st, i), p, s[..w]); }
    assert r.st.inodes[i].size == |Content(d, i)|;
    SameContent(d, r.st, i);
    assert Shape(d, i);
    forall q: nat | q < d.inodes[i].size
      ensures q / BLOCK_SIZE < MAX_BLOCKS && Lookup(d.inodes[i].loc, d.disk, q / BLOCK_SIZE).Blk? {
      assert At(d.inodes, d.disk, DataOf(i, q / BLOCK_SIZE)).Blk?;
    }
  }

  lemma SpliceLength(c: seq<Byte>, p: nat, s: seq<Byte>)
    requires p == |c|
    ensures |Splice(c, p, s)| == p + |s|
  {
  }

  /** An append to a file without blocks or with room in its last one is right, unless it runs into a
      refusal that only the design has. */
  predicate StopsAlike(d: State, w: int, i: nat, s: seq<Byte>)
    requires i < INODES
  {
    w == -1 || w == |s| || RefusedAsWritten(d.inodes[i].BlockCount(), d.freeBlocks)
  }

  lemma {:induction false} AppendIff(st: State, owner: Owners, i: nat, s: seq<Byte>)
    requires FsInv(st, owner) && i < INODES && st.inodes[i].Live() && Tight(st, i) && Ready(st, i)
    ensures var p := st.inodes[i].size;
            var (d, w) := WriteFile(st, i, p, s, false);
            Right(st, i, p, s, WriteAsWritten(AsLeft(st, i), i, p, s, false)) <==> StopsAlike(d, w, i, s)
  {
    hide FsInv, PutBytes, WriteFrom, AllocateBlock, AllocateAsWritten, EnsureBlock, AsLeft, Lookup, Content, Splice, RefusedAsWritten;
    var p := st.inodes[i].size;
    FirstPointer(st, owner, i);
    if st.inodes[i].loc[0].Null? {
      if AllocateBlock(st, i).None? {
        FirstRefused(st, owner, i);
      } else {
        AllocateAgrees(st, owner, i);
        var st0 := AllocateBlock(st, i).value;
        var owner0 := AllocateBlockGrows(st, owner, i);
        AppendFrom(st, owner, st0, owner0, i, s);
      }
    } else {
      AppendFrom(st, owner, st, owner, i, s);
    }
  }

  lemma FirstRefused(st: State, owner: Owners, i: nat)
    requires FsInv(st, owner) && i < INODES && st.inodes[i].Live() && st.inodes[i].BlockCount() == 0
    requires AllocateBlock(st, i).None?
    ensures AllocateAsWritten(st, i) == NoBlock
  {
  }

  /** From a state st0 with room in the last block on, in which the write of st goes on. */
  lemma {:induction false} AppendFrom(st: State, owner: Owners, st0: State, owner0: Owners, i: nat, s: seq<Byte>)
    requires FsInv(st, owner) && FsInv(st0, owner0) && i < INODES && st.inodes[i].Live() && st0.inodes[i].Live()
    requires st0.inodes[i].size == st.inodes[i].size && st0.inodes[i].BlockCount() >= 1 && Tight(st0, i) && Ready(st0, i)
    requires st.inodes[i].loc[0].Null? ==> AllocateBlock(st, i).Some?
    requires st0 == if st.inodes[i].loc[0].Null? then AllocateBlock(st, i).value else st
    ensures var p := st.inodes[i].size;
            var (d, w) := WriteFile(st, i, p, s, false);
            Right(st, i, p, s, WriteFrom(st0, i, p, s)) <==> StopsAlike(d, w, i, s)
  {
    hide PutBytes, WriteFrom, EnsureBlock, AllocateBlock, Lookup, RefusedAsWritten, WriteFile, Content, Splice, FsInv, Tight, Ready;
    var p := st.inodes[i].size;
    LastBlockPresent(st0, owner0, i);
    AppendInBlock(st0, owner0, i, s);
    var g := PutBytes(st0, i, p, s);
    WrittenFrom(st, st0, i, p, s);
    if StopsAlike(g.0, g.1, i, s) {
      hide Right;
      SameBlocksRight(st, owner, i, p, s, g.0);
    }
  }

  /** The designed write, once its first block is there. */
  lemma WrittenFrom(st: State, st0: State, i: nat, p: nat, s: seq<Byte>)
    requires i < INODES && EnsureBlock(st0, i, p / BLOCK_SIZE) == Some(st0)
    requires st.inodes[i].loc[0].Null? ==> AllocateBlock(st, i) == Some(st0)
    requires st.inodes[i].loc[0].Blk? ==> st0 == st
    ensures var (d, w) := PutBytes(st0, i, p, s);
            WriteFile(st, i, p, s, false) == (SetSize(d, i, Max(d.inodes[i].size, p + w)), w)
  {
    hide PutBytes, AllocateBlock, EnsureBlock;
  }

  lemma FirstPointer(st: State, owner: Owners, i: nat)
    requires FsInv(st, owner) && i < INODES && st.inodes[i].Live() && Tight(st, i)
    ensures st.inodes[i].loc[0].Null? <==> st.inodes[i].BlockCount() == 0
    ensures st.inodes[i].BlockCount() == 0 ==> st.inodes[i].size == 0
    ensures Ready(st, i) ==> AsLeft(st, i) == st
  {
    assert Shape(st, i);
    assert At(st.inodes, st.disk, DataOf(i, 0)) == st.inodes[i].loc[0];
  }

  lemma LastBlockPresent(st: State, owner: Owners, i: nat)
    requires FsInv(st, owner) && i < INODES && st.inodes[i].Live() && st.inodes[i].BlockCount() >= 1 && Ready(st, i)
    ensures EnsureBlock(st, i, st.inodes[i].size / BLOCK_SIZE) == Some(st)
  {
    assert Shape(st, i);
    EnsureBlockPresent(st, owner, i, st.inodes[i].size);
  }

  lemma {:induction false} AppendInBlock(st: State, owner: Owners, i: nat, s: seq<Byte>)
    requires FsInv(st, owner) && i < INODES && st.inodes[i].Live() && Tight(st, i) && Ready(st, i)
    requires st.inodes[i].BlockCount() >= 1
    ensures var p := st.inodes[i].size;
            && WriteFrom(st, i, p, s) == Finish(Agreed(i, PutBytes(st, i, p, s), s), i)
            && (Agreed(i, PutBytes(st, i, p, s), s).Returned? ==> PutBytes(st, i, p, s).0.inodes[i].size == p)
  {
    assert Shape(st, i);
    var p, n := st.inodes[i].size, st.inodes[i].BlockCount();
    assert p / BLOCK_SIZE == n - 1;
    AddressesAgree(st, owner, i, p);
    var blk := Lookup(st.inodes[i].loc, st.disk, n - 1).n;
    LoopAgrees(st, owner, i, p, blk, p % BLOCK_SIZE, s);
    LoopKeepsSize(st, i, blk, p % BLOCK_SIZE, s);
  }

  // ----- a write at the end of a full last block -----

  /** Block m of inode i is missing although later ones are or will be there, and no first
      slot of an index block stands in for it. */
  ghost predicate Missing(st: State, owner: Owners, i: nat, m: nat) {
    && OwnInv(st, owner) && i < INODES && m < MAX_BLOCKS && m <= st.inodes[i].blockNumber
    && At(st.inodes, st.disk, DataOf(i, m)) == Null
    && m != 8 && !(m >= 72 && (m - 72) % 64 == 0)
    && (forall k :: st.inodes[i].blockNumber < k < MAX_BLOCKS ==> At(st.inodes, st.disk, DataOf(i, k)) == Null)
  }

  /** A block in use for data. */
  ghost predicate DataBlock(owner: Owners, n: nat) {
    n < SPACE && owner[n].Some? && owner[n].value.DataOf?
  }

  /** Roles that are each the container of the next can be filled in their order. */
  lemma AttachableChain(st: State, rs: seq<Role>)
    requires 1 <= |rs| <= 3 && st.freeBlocks >= |rs|
    requires forall m :: 0 <= m < |rs| ==> InRange(rs[m]) && At(st.inodes, st.disk, rs[m]) == Null
    requires forall m, m' :: 0 <= m < m' < |rs| ==> rs[m] != rs[m']
    requires InInode(rs[0]) || At(st.inodes, st.disk, ContainerRole(rs[0])).Blk?
    requires forall m :: 0 < m < |rs| ==> !InInode(rs[m]) && ContainerRole(rs[m]) == rs[m - 1]
    ensures Attachable(st, rs)
  {
    hide At, ContainerRole;
    forall m | 0 <= m < |rs| && !InInode(rs[m])
      ensures ContainerRole(rs[m]) in rs[..m] || At(st.inodes, st.disk, ContainerRole(rs[m])).Blk? {
      if m > 0 { assert rs[..m][m - 1] == ContainerRole(rs[m]); }
    }
  }

  /** The list of roles is a chain of containers that ends in a data block. */
  lemma NeededChain(st: State, i: nat, b: nat)
    requires i < INODES && b < MAX_BLOCKS
    ensures var rs := RolesNeeded(st, i, b);
            && (forall m, m' :: 0 <= m < m' < |rs| ==> rs[m] != rs[m'])
            && (forall m :: 0 < m < |rs| ==> !InInode(rs[m]) && ContainerRole(rs[m]) == rs[m - 1])
            && rs[|rs| - 1].DataOf?
            && (forall m :: 0 <= m < |rs| - 1 ==> !rs[m].DataOf?)
            && (rs[|rs| - 1].k == b || (rs[|rs| - 1].k == 8 < b) || (72 <= rs[|rs| - 1].k < b && (rs[|rs| - 1].k - 72) % 64 == 0))
  {
    hide At;
  }

  lemma NeededFree(st: State, i: nat, b: nat)
    requires i < INODES && b < MAX_BLOCKS && At(st.inodes, st.disk, DataOf(i, b)) == Null
    ensures var rs := RolesNeeded(st, i, b);
            && (forall m :: 0 <= m < |rs| ==> At(st.inodes, st.disk, rs[m]) == Null)
            && (InInode(rs[0]) || At(st.inodes, st.disk, ContainerRole(rs[0])).Blk?)
  {
  }

  lemma {:induction false} NeededAttachable(st: State, i: nat)
    requires i < INODES && 0 <= st.inodes[i].blockNumber + 1 < MAX_BLOCKS
    requires At(st.inodes, st.disk, DataOf(i, st.inodes[i].blockNumber + 1)) == Null
    requires st.freeBlocks >= |RolesNeeded(st, i, st.inodes[i].blockNumber + 1)|
    ensures var b := st.inodes[i].blockNumber + 1;
            var rs := RolesNeeded(st, i, b);
            && Attachable(st, rs) && rs[|rs| - 1].DataOf?
            && (forall k :: 0 <= k < MAX_BLOCKS && DataOf(i, k) in rs ==>
                  k == b || (k == 8 && 8 < b) || (72 <= k < b && (k - 72) % 64 == 0))
  {
    hide Attachable, RolesNeeded, At;
    var b := st.inodes[i].blockNumber + 1;
    NeededChain(st, i, b);
    NeededFree(st, i, b);
    AttachableChain(st, RolesNeeded(st, i, b));
  }

  lemma {:induction false} AllocateKeepsMissing(st: State, owner: Owners, i: nat, m: nat) returns (owner1: Owners)
    requires Missing(st, owner, i, m) && AllocateAsWritten(st, i).Fresh?
    ensures Missing(AllocateAsWritten(st, i).st, owner1, i, m) && DataBlock(owner1, AllocateAsWritten(st, i).n)
  {
    hide OwnInv, At, RolesNeeded, Attachable, AttachAll;
    var b := st.inodes[i].blockNumber + 1;
    var rs := RolesNeeded(st, i, b);
    NeededAttachable(st, i);
    BumpKeepsOwners(st, owner, i);
    BumpKeepsAttachable(st, i, rs);
    owner1 := AttachAllKeepsOwners(Bump(st, i), owner, rs);
    AllocateKeepsSize(st, i);
    var g := AllocateAsWritten(st, i);
    OwnerOf(g.st, owner1, rs[|rs| - 1]);
  }

  lemma OwnerOf(st: State, owner: Owners, r: Role)
    requires OwnInv(st, owner) && InRange(r) && At(st.inodes, st.disk, r).Blk?
    ensures At(st.inodes, st.disk, r).n < SPACE && owner[At(st.inodes, st.disk, r).n] == Some(r)
  {
  }

  lemma {:induction false} PokeKeepsMissing(st: State, owner: Owners, i: nat, m: nat, blk: nat, bytes: Bytes)
    requires Missing(st, owner, i, m) && DataBlock(owner, blk)
    ensures Missing(st.(disk := st.disk[blk := Data(bytes)]), owner, i, m)
  {
    var st1 := st.(disk := st.disk[blk := Data(bytes)]);
    forall r | InRange(r) ensures At(st1.inodes, st1.disk, r) == At(st.inodes, st.disk, r) {
      forall p: Ptr ensures Entries(st1.disk, p) == Entries(st.disk, p) {}
    }
  }

  lemma {:induction false} LoopKeepsMissing(st: State, owner: Owners, i: nat, m: nat, blk: nat, off: nat, s: seq<Byte>)
    requires Missing(st, owner, i, m) && DataBlock(owner, blk) && off <= BLOCK_SIZE
    ensures var r := LoopAsWritten(st, i, blk, off, s);
            r.Returned? ==> Lookup(r.st.inodes[i].loc, r.st.disk, m).Null?
    decreases |s|, off
  {
    hide OwnInv, AllocateAsWritten;
    if s == [] {
      assert At(st.inodes, st.disk, DataOf(i, m)) == Lookup(st.inodes[i].loc, st.disk, m);
    } else {
      hide At;
      if off == BLOCK_SIZE {
        match AllocateAsWritten(st, i)
        case Fresh(st1, n) =>
          var owner1 := AllocateKeepsMissing(st, owner, i, m);
          LoopKeepsMissing(st1, owner1, i, m, n, 0, s);
        case NoBlock => MissingLookup(st, owner, i, m);
        case Bad =>
      } else {
        var bytes := BytesOf(st.disk[blk])[off := s[0]];
        PokeKeepsMissing(st, owner, i, m, blk, bytes);
        LoopKeepsMissing(st.(disk := st.disk[blk := Data(bytes)]), owner, i, m, blk, off + 1, s[1..]);
      }
    }
  }

  lemma MissingLookup(st: State, owner: Owners, i: nat, m: nat)
    requires Missing(st, owner, i, m)
    ensures Lookup(st.inodes[i].loc, st.disk, m).Null?
  {
    assert At(st.inodes, st.disk, DataOf(i, m)) == Lookup(st.inodes[i].loc, st.disk, m);
  }

  lemma {:induction false} AttachAllWithLast(st: State, i: nat, b: LastBlock, rs: seq<Role>)
    requires i < INODES && forall r :: r in rs ==> InRange(r)
    ensures AttachAll(WithLast(st, i, b), rs) == WithLast(AttachAll(st, rs), i, b)
    decreases |rs|
  {
    if rs != [] {
      AttachWithLast(st, i, b, rs[0]);
      AttachAllWithLast(Attach(st, rs[0]), i, b, rs[1..]);
    }
  }

  lemma AttachWithLast(st: State, i: nat, b: LastBlock, r: Role)
    requires i < INODES && InRange(r)
    ensures Attach(WithLast(st, i, b), r) == WithLast(Attach(st, r), i, b)
  {
    assert HasSlot(WithLast(st, i, b), r) == HasSlot(st, r);
    if HasSlot(st, r) {
      assert Container(WithLast(st, i, b).inodes, st.disk, r) == Container(st.inodes, st.disk, r);
    }
  }

  /** Inside one block the loop does not look at block_number. */
  lemma {:induction false} LoopWithLast(st: State, i: nat, b: LastBlock, blk: nat, off: nat, s: seq<Byte>)
    requires i < INODES && off + |s| <= BLOCK_SIZE
    ensures var r := LoopAsWritten(st, i, blk, off, s);
            LoopAsWritten(WithLast(st, i, b), i, blk, off, s) == if r.Returned? then Returned(WithLast(r.st, i, b), r.w) else r
    decreases |s|
  {
    if s != [] && blk < SPACE {
      LoopWithLast(st.(disk := st.disk[blk := Data(BytesOf(st.disk[blk])[off := s[0]])]), i, b, blk, off + 1, s[1..]);
    }
  }

  /** A full file of n blocks, with block_number as the source leaves it. */
  ghost predicate FullFile(st: State, owner: Owners, i: nat, n: nat) {
    && FsInv(st, owner) && i < INODES && st.inodes[i].Live() && 1 <= n < MAX_BLOCKS
    && st.inodes[i].BlockCount() == n && st.inodes[i].size == BLOCK_SIZE * n
  }

  lemma {:induction false} FullFileShape(st: State, owner: Owners, i: nat, n: nat)
    requires FullFile(st, owner, i, n)
    ensures st.inodes[i].loc[0].Blk? && AsLeft(st, i) == WithLast(st, i, n)
    ensures forall k :: n <= k < MAX_BLOCKS ==> At(st.inodes, st.disk, DataOf(i, k)) == Null
    ensures st.inodes[i].loc[8].Blk? <==> n > 8
    ensures st.inodes[i].loc[9].Blk? <==> n > 72
    ensures SwitchAt(st.inodes[i].loc, st.disk, BLOCK_SIZE * n)
            == if n > 72 && (n - 72) % 64 == 0 then Fault else Addr(Null, 0)
  {
    assert Shape(st, i);
    AppendFaultsIff(st, owner, i);
    UnmappedAddresses(st, owner, i, BLOCK_SIZE * n);
    assert At(st.inodes, st.disk, DataOf(i, 0)) == st.inodes[i].loc[0];
    assert At(st.inodes, st.disk, SingleOf(i)) == st.inodes[i].loc[8];
    assert At(st.inodes, st.disk, DoubleOf(i)) == st.inodes[i].loc[9];
  }

  lemma WithLastKeepsOwners(st: State, owner: Owners, i: nat, b: LastBlock)
    requires OwnInv(st, owner) && i < INODES
    ensures OwnInv(WithLast(st, i, b), owner)
    ensures forall r :: InRange(r) ==> At(WithLast(st, i, b).inodes, st.disk, r) == At(st.inodes, st.disk, r)
  {
  }

  /** What the designed write of s at the end of a full file returns. */
  function Returns(st: State, i: nat, s: seq<Byte>): int
    requires i < INODES
  {
    WriteFile(st, i, st.inodes[i].size, s, false).1
  }

  /** Appending to a full file: the new block goes one slot too far, so that block n is
      missing, unless the slot is the first of a new index block. */
  lemma {:induction false} FullAppendWrong(st: State, owner: Owners, i: nat, n: nat, s: seq<Byte>)
    requires FullFile(st, owner, i, n) && s != []
    requires !((n == 8 || n == 72) && 0 <= Returns(st, i, s) <= BLOCK_SIZE)
    ensures !Right(st, i, BLOCK_SIZE * n, s, WriteAsWritten(AsLeft(st, i), i, BLOCK_SIZE * n, s, false))
  {
    WritesSome(st, owner, i, BLOCK_SIZE * n, s);
    hide FsInv, OwnInv, AllocateAsWritten, LoopAsWritten, Content, Splice, WriteFile;
    FullFileShape(st, owner, i, n);
    var st0 := WithLast(st, i, n);
    WriteFromSize(st0, i, BLOCK_SIZE * n, s);
    if AllocateAsWritten(st0, i).Fresh? && !(n > 72 && (n - 72) % 64 == 0) {
      var g := AllocateAsWritten(st0, i);
      var m := if n == 8 || n == 72 then n + 1 else n;
      var owner1 := OneTooFar(st, owner, i, n);
      LoopKeepsMissing(g.st, owner1, i, m, g.n, 0, s);
      var r := WriteAsWritten(AsLeft(st, i), i, BLOCK_SIZE * n, s, false);
      if r.Returned? && r.w == Returns(st, i, s) {
        assert BLOCK_SIZE * m < r.st.inodes[i].size && (BLOCK_SIZE * m) / BLOCK_SIZE == m;
      }
    }
  }

  lemma {:induction false} OneTooFar(st: State, owner: Owners, i: nat, n: nat) returns (owner1: Owners)
    requires FullFile(st, owner, i, n) && AllocateAsWritten(WithLast(st, i, n), i).Fresh?
    requires !(n > 72 && (n - 72) % 64 == 0)
    ensures var g, m := AllocateAsWritten(WithLast(st, i, n), i), if n == 8 || n == 72 then n + 1 else n;
            Missing(g.st, owner1, i, m) && DataBlock(owner1, g.n)
  {
    FullFileShape(st, owner, i, n);
    var st0 := WithLast(st, i, n);
    assert OwnInv(st, owner);
    hide OwnInv, FsInv;
    WithLastKeepsOwners(st, owner, i, n);
    if n == 8 || n == 72 {
      owner1 := LuckySlot(st0, owner, i, n);
    } else {
      owner1 := AllocateKeepsMissing(st0, owner, i, n);
    }
  }

  /** With 8 or 72 blocks the missing index block puts the new block in the right slot, but
      block_number is then one too large. */
  lemma {:induction false} LuckySlot(st: State, owner: Owners, i: nat, n: nat) returns (owner1: Owners)
    requires OwnInv(st, owner) && i < INODES && (n == 8 || n == 72) && st.inodes[i].blockNumber == n
    requires forall k :: n <= k < MAX_BLOCKS ==> At(st.inodes, st.disk, DataOf(i, k)) == Null
    requires st.inodes[i].loc[8].Blk? <==> n > 8
    requires st.inodes[i].loc[9].Null? && AllocateAsWritten(st, i).Fresh?
    ensures Missing(AllocateAsWritten(st, i).st, owner1, i, n + 1) && DataBlock(owner1, AllocateAsWritten(st, i).n)
  {
    hide OwnInv, At, Attachable, AttachAll;
    var rs := RolesNeeded(st, i, n + 1);
    assert rs == if n == 8 then [SingleOf(i), DataOf(i, 8)] else [DoubleOf(i), SecondOf(i, 0), DataOf(i, 72)];
    NeededAttachable(st, i);
    BumpKeepsOwners(st, owner, i);
    BumpKeepsAttachable(st, i, rs);
    owner1 := AttachAllKeepsOwners(Bump(st, i), owner, rs);
    AllocateKeepsSize(st, i);
    var g := AllocateAsWritten(st, i);
    OwnerOf(g.st, owner1, rs[|rs| - 1]);
  }

  /** A loop that is refused the block after this one returns with what fitted. */
  lemma {:induction false} LoopStops(st: State, i: nat, blk: nat, off: nat, s: seq<Byte>)
    requires i < INODES && off <= BLOCK_SIZE && |s| > BLOCK_SIZE - off
    requires var r := LoopAsWritten(st, i, blk, off, s[..BLOCK_SIZE - off]);
             r.Returned? && AllocateAsWritten(r.st, i) == NoBlock
    ensures LoopAsWritten(st, i, blk, off, s) == LoopAsWritten(st, i, blk, off, s[..BLOCK_SIZE - off])
    decreases BLOCK_SIZE - off
  {
    hide AllocateAsWritten;
    if off < BLOCK_SIZE && blk < SPACE {
      var st1 := st.(disk := st.disk[blk := Data(BytesOf(st.disk[blk])[off := s[0]])]);
      assert s[..BLOCK_SIZE - off][1..] == s[1..][..BLOCK_SIZE - (off + 1)];
      LoopStops(st1, i, blk, off + 1, s[1..]);
    }
  }

  /** The bytes beyond those that were written do not matter. */
  lemma {:induction false} PutBytesPrefix(st: State, i: nat, p: nat, s: seq<Byte>)
    requires i < INODES
    ensures var (d, w) := PutBytes(st, i, p, s); w <= |s| && PutBytes(st, i, p, s[..w]) == (d, w)
    decreases |s|
  {
    hide EnsureBlock, PokeByte;
    if s != [] && EnsureBlock(st, i, p / BLOCK_SIZE).Some? {
      var st1 := PokeByte(EnsureBlock(st, i, p / BLOCK_SIZE).value, i, p, s[0]);
      PutBytesPrefix(st1, i, p + 1, s[1..]);
      var w := PutBytes(st1, i, p + 1, s[1..]).1;
      assert s[..w + 1][1..] == s[1..][..w] && s[..w + 1][0] == s[0];
    }
  }

  /** To a file of exactly 8 or 72 full blocks an append that gets no further than one block is right. */
  lemma {:induction false} LuckyAppendRight(st: State, owner: Owners, i: nat, n: nat, s: seq<Byte>)
    requires FullFile(st, owner, i, n) && (n == 8 || n == 72) && s != []
    requires 0 <= Returns(st, i, s) <= BLOCK_SIZE
    ensures Right(st, i, BLOCK_SIZE * n, s, WriteAsWritten(AsLeft(st, i), i, BLOCK_SIZE * n, s, false))
  {
    hide FsInv, PutBytes, LoopAsWritten, AllocateAsWritten, Lookup, Content, Splice, Right, WriteFile, AtEnd;
    var p := BLOCK_SIZE * n;
    ReturnsAllocated(st, owner, i, n, s);
    var st1, blk, owner1 := LuckyBlock(st, owner, i, n);
    LuckyWrite(st, owner, i, n, s, st1);
    var (d, w) := PutBytes(st1, i, p, s);
    LuckyLoop(st1, owner1, i, n, blk, s);
    FullFileShape(st, owner, i, n);
    SameBlocksRight(st, owner, i, p, s, WithLast(d, i, n + 1));
  }

  /** The designed first block, and the same one as written. */
  lemma {:induction false} LuckyBlock(st: State, owner: Owners, i: nat, n: nat)
    returns (st1: State, blk: nat, owner1: Owners)
    requires FullFile(st, owner, i, n) && (n == 8 || n == 72) && AllocateBlock(st, i).Some?
    ensures AllocateBlock(st, i) == Some(st1) && FsInv(st1, owner1)
    ensures AllocateAsWritten(WithLast(st, i, n), i) == Fresh(WithLast(st1, i, n + 1), blk)
    ensures st1.inodes[i].Live() && AtEnd(st1, i, BLOCK_SIZE * n, blk, 0) && st1.inodes[i].BlockCount() == n + 1
    ensures st1.inodes[i].size == st.inodes[i].size
  {
    hide AllocateBlock, AllocateAsWritten, Lookup, FsInv, At, KeepsData;
    st1 := AllocateBlock(st, i).value;
    LuckyRoles(st, owner, i, n);
    AllocateAgrees(st, owner, i);
    owner1 := AllocateBlockGrows(st, owner, i);
    blk := Lookup(st1.inodes[i].loc, st1.disk, n).n;
  }

  /** The designed write goes on from there. */
  lemma LuckyWrite(st: State, owner: Owners, i: nat, n: nat, s: seq<Byte>, st1: State)
    requires FullFile(st, owner, i, n) && AllocateBlock(st, i) == Some(st1)
    ensures var (d, w) := PutBytes(st1, i, BLOCK_SIZE * n, s);
            WriteFile(st, i, BLOCK_SIZE * n, s, false) == (SetSize(d, i, Max(d.inodes[i].size, BLOCK_SIZE * n + w)), w)
  {
    hide PutBytes, AllocateBlock, EnsureBlock, FsInv;
    FullFileShape(st, owner, i, n);
    NextIsAllocated(st, owner, i, BLOCK_SIZE * n);
  }

  lemma ReturnsAllocated(st: State, owner: Owners, i: nat, n: nat, s: seq<Byte>)
    requires FullFile(st, owner, i, n) && Returns(st, i, s) >= 0
    ensures AllocateBlock(st, i).Some?
  {
    hide PutBytes, AllocateBlock, EnsureBlock, FsInv;
    FullFileShape(st, owner, i, n);
    NextIsAllocated(st, owner, i, BLOCK_SIZE * n);
  }

  /** With block_number one too large the loop still does what is designed, up to one block. */
  lemma {:induction false} LuckyLoop(st1: State, owner1: Owners, i: nat, n: nat, blk: nat, s: seq<Byte>)
    requires FsInv(st1, owner1) && i < INODES && st1.inodes[i].Live() && (n == 8 || n == 72)
    requires AtEnd(st1, i, BLOCK_SIZE * n, blk, 0) && st1.inodes[i].BlockCount() == n + 1
    requires PutBytes(st1, i, BLOCK_SIZE * n, s).1 <= BLOCK_SIZE
    ensures var (d, w) := PutBytes(st1, i, BLOCK_SIZE * n, s);
            && LoopAsWritten(WithLast(st1, i, n + 1), i, blk, 0, s) == Returned(WithLast(d, i, n + 1), w)
            && d.inodes[i].size == st1.inodes[i].size
  {
    hide PutBytes, LoopAsWritten, AllocateAsWritten, AtEnd, FsInv, Wrote;
    if |s| <= BLOCK_SIZE {
      LuckyPart(st1, owner1, i, n, blk, s);
    } else {
      LuckyPart(st1, owner1, i, n, blk, s[..BLOCK_SIZE]);
      StopsAtBlock(st1, owner1, i, n, s);
      NoFreeBlock(WithLast(PutBytes(st1, i, BLOCK_SIZE * n, s).0, i, n + 1), i);
      LoopStops(WithLast(st1, i, n + 1), i, blk, 0, s);
    }
  }

  /** Inside one block. */
  lemma {:induction false} LuckyPart(st1: State, owner1: Owners, i: nat, n: nat, blk: nat, s: seq<Byte>)
    requires FsInv(st1, owner1) && i < INODES && st1.inodes[i].Live() && AtEnd(st1, i, BLOCK_SIZE * n, blk, 0)
    requires st1.inodes[i].BlockCount() == n + 1 && |s| <= BLOCK_SIZE
    ensures var (d, w) := PutBytes(st1, i, BLOCK_SIZE * n, s);
            && LoopAsWritten(WithLast(st1, i, n + 1), i, blk, 0, s) == Returned(WithLast(d, i, n + 1), w)
            && d.inodes[i].size == st1.inodes[i].size && w == |s|
  {
    hide PutBytes, LoopAsWritten, FsInv, AtEnd, Wrote, RefusedAsWritten;
    PutBytesInside(st1, owner1, i, BLOCK_SIZE * n, s);
    LoopAgrees(st1, owner1, i, BLOCK_SIZE * n, blk, 0, s);
    LoopWithLast(st1, i, n + 1, blk, 0, s);
  }

  lemma NoFreeBlock(st: State, i: nat)
    requires i < INODES && st.freeBlocks < 1
    ensures AllocateAsWritten(st, i) == NoBlock
  {
  }

  /** The designed loop stops after one block only when no block is free. */
  lemma {:induction false} StopsAtBlock(st1: State, owner1: Owners, i: nat, n: nat, s: seq<Byte>)
    requires FsInv(st1, owner1) && i < INODES && st1.inodes[i].Live() && (n == 8 || n == 72)
    requires st1.inodes[i].BlockCount() == n + 1 && |s| > BLOCK_SIZE
    requires PutBytes(st1, i, BLOCK_SIZE * n, s).1 <= BLOCK_SIZE
    ensures PutBytes(st1, i, BLOCK_SIZE * n, s) == PutBytes(st1, i, BLOCK_SIZE * n, s[..BLOCK_SIZE])
    ensures PutBytes(st1, i, BLOCK_SIZE * n, s).0.freeBlocks < 1
  {
    hide FsInv, PutBytes, Wrote;
    var p := BLOCK_SIZE * n;
    var (d, w) := PutBytes(st1, i, p, s);
    var owner2 := PutBytesWrites(st1, owner1, i, p, s);
    MoreBlocks(st1, d, i, p, s[..w]);
    PutBytesPrefix(st1, i, p, s);
    assert w == BLOCK_SIZE;
  }

  lemma LuckyList(st: State, owner: Owners, i: nat, n: nat)
    requires FullFile(st, owner, i, n) && (n == 8 || n == 72) && AllocateBlock(st, i).Some?
    ensures RolesNeeded(WithLast(st, i, n), i, n + 1) == RolesNeeded(st, i, n) && st.freeBlocks >= |RolesNeeded(st, i, n)|
  {
    hide FsInv, At, AttachAll;
    FullFileShape(st, owner, i, n);
  }

  lemma {:induction false} LuckyRoles(st: State, owner: Owners, i: nat, n: nat)
    requires FullFile(st, owner, i, n) && (n == 8 || n == 72) && AllocateBlock(st, i).Some?
    ensures var st0, rs := WithLast(st, i, n), RolesNeeded(st, i, n);
            && RolesNeeded(st0, i, n + 1) == rs && st.freeBlocks >= |rs|
            && AllocateAsWritten(st0, i) ==
               match AllocateAsWritten(st, i)
               case Fresh(st1, blk) => Fresh(WithLast(st1, i, n + 1), blk)
               case r => r
  {
    hide FsInv, At, AttachAll, RolesNeeded, AllocateAsWritten;
    LuckyList(st, owner, i, n);
    var st0, rs := WithLast(st, i, n), RolesNeeded(st, i, n);
    AllocateUnfolds(st, i, rs);
    AllocateUnfolds(st0, i, rs);
    AttachAllWithLast(Bump(st, i), i, n + 1, rs);
    AttachAllOnlyGrows(Bump(st, i), i, rs);
    assert WithLast(Bump(st, i), i, n + 1) == Bump(st0, i);
    assert rs[|rs| - 1] in rs;
    SameRole(AttachAll(Bump(st, i), rs), i, n + 1, rs[|rs| - 1]);
  }

  lemma AllocateUnfolds(st: State, i: nat, rs: seq<Role>)
    requires i < INODES && st.inodes[i].blockNumber + 1 < MAX_BLOCKS
    requires !RefusedAsWritten(st.inodes[i].blockNumber + 1, st.freeBlocks)
    requires rs == RolesNeeded(st, i, st.inodes[i].blockNumber + 1) && st.freeBlocks >= |rs|
    ensures rs[|rs| - 1] in rs
    ensures var s := AttachAll(Bump(st, i), rs);
            AllocateAsWritten(st, i) == match At(s.inodes, s.disk, rs[|rs| - 1])
                                        case Null => Bad
                                        case Blk(m) => Fresh(s, m)
  {
    hide At, AttachAll, RolesNeeded;
  }

  lemma SameRole(st: State, i: nat, b: LastBlock, r: Role)
    requires i < INODES && InRange(r)
    ensures At(WithLast(st, i, b).inodes, st.disk, r) == At(st.inodes, st.disk, r)
  {
  }

  // ----- an empty write at the end of a full last block -----

  /** The first block under a second-level index. */
  predicate OpensIndex(b: int) { b > 72 && (b - 72) % 64 == 0 }

  /** How many blocks the step one slot too far asks for. */
  function CountTooFar(n: nat): nat {
    if n == 72 || n == 71 then 3 else if n == 7 || n == 8 || OpensIndex(n + 1) then 2 else 1
  }

  lemma CountedTooFar(st: State, owner: Owners, i: nat, n: nat)
    requires FullFile(st, owner, i, n) && n + 1 < MAX_BLOCKS && !OpensIndex(n)
    ensures |RolesNeeded(WithLast(st, i, n), i, n + 1)| == CountTooFar(n)
  {
    hide FullFile, At;
    FullFileShape(st, owner, i, n);
    if n > 72 { SecondThere(st, owner, i, n, (n + 1 - 72) / 64); }
  }

  /** That is more than there are free exactly where only the design refuses. */
  lemma CountMatches(n: nat, free: int)
    requires n + 1 < MAX_BLOCKS && !OpensIndex(n) && !Refused(n, free) && !RefusedAsWritten(n + 1, free)
    ensures CountTooFar(n) <= free <==> !Refused(n + 1, free)
  {
  }

  lemma SecondThere(st: State, owner: Owners, i: nat, n: nat, j: nat)
    requires FullFile(st, owner, i, n) && j < 64
    ensures Second(st.inodes[i].loc, st.disk, j).Blk? <==> 72 + 64 * j < n
  {
    assert Shape(st, i);
    assert At(st.inodes, st.disk, SecondOf(i, j)) == Second(st.inodes[i].loc, st.disk, j);
  }

  /** The empty write takes a block for nothing, and one slot too far, but harms no byte. */
  lemma {:induction false} EmptyAtEndIff(st: State, owner: Owners, i: nat, n: nat)
    requires FullFile(st, owner, i, n)
    ensures var w, free := Returns(st, i, []), st.freeBlocks;
            Right(st, i, BLOCK_SIZE * n, [], WriteAsWritten(AsLeft(st, i), i, BLOCK_SIZE * n, [], false))
            <==> w == 0 && !OpensIndex(n) && (RefusedAsWritten(n + 1, free) || !Refused(n + 1, free))
  {
    hide FsInv, WriteFile, AllocateAsWritten, Right, Lookup, BlockBytes, RefusedAsWritten, Refused;
    RefusedReturns(st, owner, i, n);
    if OpensIndex(n) || Returns(st, i, []) != 0 || AllocateAsWritten(WithLast(st, i, n), i).Bad? {
      EmptyAtEndWrong(st, owner, i, n);
    } else {
      EmptyAtEndRight(st, owner, i, n);
    }
    if !OpensIndex(n) && Returns(st, i, []) == 0 { BadTooFar(st, owner, i, n); }
  }

  lemma EmptyAtEndRight(st: State, owner: Owners, i: nat, n: nat)
    requires FullFile(st, owner, i, n) && !OpensIndex(n) && Returns(st, i, []) == 0
    requires !AllocateAsWritten(WithLast(st, i, n), i).Bad?
    ensures Right(st, i, BLOCK_SIZE * n, [], WriteAsWritten(AsLeft(st, i), i, BLOCK_SIZE * n, [], false))
  {
    hide FsInv, WriteFile, AllocateAsWritten, Right, Lookup, BlockBytes;
    FullFileShape(st, owner, i, n);
    FrameTooFar(st, owner, i, n);
    var g := AllocateAsWritten(WithLast(st, i, n), i);
    NothingWritten(st, owner, i, BLOCK_SIZE * n, if g.Fresh? then g.st else WithLast(st, i, n));
  }

  lemma EmptyAtEndWrong(st: State, owner: Owners, i: nat, n: nat)
    requires FullFile(st, owner, i, n)
    requires OpensIndex(n) || Returns(st, i, []) != 0 || AllocateAsWritten(WithLast(st, i, n), i).Bad?
    ensures !Right(st, i, BLOCK_SIZE * n, [], WriteAsWritten(AsLeft(st, i), i, BLOCK_SIZE * n, [], false))
  {
    hide FsInv, WriteFile, AllocateAsWritten, LoopAsWritten, Content, Splice, Lookup;
    FullFileShape(st, owner, i, n);
    WriteFromSize(WithLast(st, i, n), i, BLOCK_SIZE * n, []);
    WritesSome(st, owner, i, BLOCK_SIZE * n, []);
  }

  lemma RefusedReturns(st: State, owner: Owners, i: nat, n: nat)
    requires FullFile(st, owner, i, n)
    ensures Returns(st, i, []) == if Refused(n, st.freeBlocks) then -1 else 0
  {
    hide WriteFile, FsInv, Content, Splice;
    var owner1 := WriteFileSplices(st, owner, i, BLOCK_SIZE * n, [], false);
  }

  lemma BadTooFar(st: State, owner: Owners, i: nat, n: nat)
    requires FullFile(st, owner, i, n) && !OpensIndex(n) && !Refused(n, st.freeBlocks)
    ensures AllocateAsWritten(WithLast(st, i, n), i).Bad?
            <==> !RefusedAsWritten(n + 1, st.freeBlocks) && Refused(n + 1, st.freeBlocks)
  {
    hide FsInv, RolesNeeded, AttachAll, At, OwnInv, KeepsData;
    if !RefusedAsWritten(n + 1, st.freeBlocks) && n + 1 < MAX_BLOCKS {
      CountedTooFar(st, owner, i, n);
      CountMatches(n, st.freeBlocks);
      if !Refused(n + 1, st.freeBlocks) { var owner1 := GoesTooFar(st, owner, i, n); }
    }
  }

  /** What the step one slot too far leads to. */
  function TooFar(st: State, i: nat, n: nat): State
    requires i < INODES && n + 1 < MAX_BLOCKS
  {
    AttachAll(Bump(WithLast(st, i, n), i), RolesNeeded(WithLast(st, i, n), i, n + 1))
  }

  /** With enough free blocks it finds its block. */
  lemma {:induction false} GoesTooFar(st: State, owner: Owners, i: nat, n: nat) returns (owner1: Owners)
    requires FullFile(st, owner, i, n) && n + 1 < MAX_BLOCKS
    requires |RolesNeeded(WithLast(st, i, n), i, n + 1)| <= st.freeBlocks
    ensures OwnInv(TooFar(st, i, n), owner1) && KeepsData(WithLast(st, i, n), TooFar(st, i, n))
    ensures var rs, s1 := RolesNeeded(WithLast(st, i, n), i, n + 1), TooFar(st, i, n);
            At(s1.inodes, s1.disk, rs[|rs| - 1]).Blk? && s1.inodes[i].size == st.inodes[i].size
  {
    hide OwnInv, FsInv, RolesNeeded, Attachable, AttachAll, KeepsData, At;
    FullFileShape(st, owner, i, n);
    assert OwnInv(st, owner) by { FullFileOwned(st, owner, i, n); }
    var st0 := WithLast(st, i, n);
    var rs := RolesNeeded(st0, i, n + 1);
    WithLastKeepsOwners(st, owner, i, n);
    assert At(st0.inodes, st0.disk, DataOf(i, n + 1)) == Null;
    NeededAttachable(st0, i);
    BumpKeepsOwners(st0, owner, i);
    BumpKeepsAttachable(st0, i, rs);
    owner1 := AttachAllKeepsOwners(Bump(st0, i), owner, rs);
    AttachAllOnlyGrows(Bump(st0, i), i, rs);
    assert rs[|rs| - 1] in rs;
    KeptByBump(st0, i, TooFar(st, i, n));
  }

  lemma FullFileOwned(st: State, owner: Owners, i: nat, n: nat)
    requires FullFile(st, owner, i, n)
    ensures OwnInv(st, owner)
  {
  }

  lemma KeptByBump(st: State, i: nat, s: State)
    requires i < INODES && KeepsData(Bump(st, i), s)
    ensures KeepsData(st, s)
  {
    forall r | InRange(r) ensures At(Bump(st, i).inodes, st.disk, r) == At(st.inodes, st.disk, r) {}
  }

  /** It moves no block of the file and changes none of their bytes. */
  lemma {:induction false} FrameTooFar(st: State, owner: Owners, i: nat, n: nat)
    requires FullFile(st, owner, i, n)
    ensures var g, st0 := AllocateAsWritten(WithLast(st, i, n), i), WithLast(st, i, n);
            var s := if g.Fresh? then g.st else st0;
            && s.inodes[i].size == st.inodes[i].size
            && forall k :: 0 <= k < MAX_BLOCKS && k < n ==>
                 Lookup(s.inodes[i].loc, s.disk, k) == Lookup(st.inodes[i].loc, st.disk, k)
                 && BlockBytes(s.disk, Lookup(st.inodes[i].loc, st.disk, k)) == BlockBytes(st.disk, Lookup(st.inodes[i].loc, st.disk, k))
  {
    var st0 := WithLast(st, i, n);
    var g := AllocateAsWritten(st0, i);
    if g.Fresh? {
      var owner1 := GoesTooFar(st, owner, i, n);
      assert Shape(st, i);
      assert KeepsData(st0, g.st);
      hide AllocateAsWritten, KeepsData;
      forall k | 0 <= k < n
        ensures Lookup(g.st.inodes[i].loc, g.st.disk, k) == Lookup(st.inodes[i].loc, st.disk, k)
        ensures BlockBytes(g.st.disk, Lookup(st.inodes[i].loc, st.disk, k)) == BlockBytes(st.disk, Lookup(st.inodes[i].loc, st.disk, k))
      {
        KeptBlock(st, g.st, owner, i, n, k);
      }
    }
  }

  lemma KeptBlock(st: State, s: State, owner: Owners, i: nat, n: nat, k: nat)
    requires FullFile(st, owner, i, n) && k < n && KeepsData(WithLast(st, i, n), s)
    ensures Lookup(s.inodes[i].loc, s.disk, k) == Lookup(st.inodes[i].loc, st.disk, k)
    ensures BlockBytes(s.disk, Lookup(st.inodes[i].loc, st.disk, k)) == BlockBytes(st.disk, Lookup(st.inodes[i].loc, st.disk, k))
  {
    assert Shape(st, i);
    var r := DataOf(i, k);
    assert At(st.inodes, st.disk, r).Blk? && At(WithLast(st, i, n).inodes, st.disk, r) == At(st.inodes, st.disk, r);
  }

  // ----- all writes -----

  /** The blocks that inode i can come to have. */
  function Reach(st: State, i: nat): nat
    requires i < INODES
  {
    var n := st.inodes[i].BlockCount();
    if 0 <= n <= MAX_BLOCKS then Room(n, st.freeBlocks) else 0
  }

  /** What is then left. */
  function LeftFree(st: State, i: nat): int
    requires i < INODES
  {
    var n := st.inodes[i].BlockCount();
    st.freeBlocks - (Cost(Reach(st, i)) - if n < 0 then 0 else Cost(n))
  }

  /** When a write at p <= size is right as written: inside the file only if it is empty; at the end if
      the last block is not full, when it fits in what the file can come to have or the source stops there as well; and
      at the end of a full last block in a few cases. */
  predicate WritesRight(st: State, i: nat, p: nat, s: seq<Byte>)
    requires i < INODES
  {
    var n, size, free, m := st.inodes[i].BlockCount(), st.inodes[i].size, st.freeBlocks, Reach(st, i);
    if p < size then s == []
    else if Ready(st, i) then |s| <= BLOCK_SIZE * m - size || RefusedAsWritten(m, LeftFree(st, i))
    else if s == [] then !Refused(n, free) && !OpensIndex(n) && (RefusedAsWritten(n + 1, free) || !Refused(n + 1, free))
    else (n == 8 || n == 72) && !Refused(n, free) && (|s| <= BLOCK_SIZE || m == n + 1)
  }

  /** At the end of a last block that is not full, the designed write and the one as written stop alike. */
  lemma {:induction false} StopsAlikeIff(st: State, owner: Owners, i: nat, s: seq<Byte>)
    requires FsInv(st, owner) && i < INODES && st.inodes[i].Live() && Ready(st, i)
    ensures var p, (d, w) := st.inodes[i].size, WriteFile(st, i, st.inodes[i].size, s, false);
            StopsAlike(d, w, i, s) <==> |s| <= BLOCK_SIZE * Reach(st, i) - p || RefusedAsWritten(Reach(st, i), LeftFree(st, i))
  {
    hide FsInv, WriteFile, Cost, Room;
    var p, n := st.inodes[i].size, st.inodes[i].BlockCount();
    WriteLengthExact(st, owner, i, p, s, false);
    RoomSteps(n, st.freeBlocks, p);
    ReadyBlocks(st, owner, i);
    hide Refused, RefusedAsWritten;
    if n == 0 && Refused(0, st.freeBlocks) { NoneLeft(st.freeBlocks); }
  }

  lemma ReadyBlocks(st: State, owner: Owners, i: nat)
    requires FsInv(st, owner) && i < INODES && st.inodes[i].Live() && Ready(st, i)
    ensures st.inodes[i].size <= BLOCK_SIZE * st.inodes[i].BlockCount()
    ensures st.inodes[i].size == BLOCK_SIZE * st.inodes[i].BlockCount() ==> st.inodes[i].BlockCount() == 0
  {
    assert Shape(st, i);
  }

  lemma NoneLeft(free: int)
    requires Refused(0, free)
    ensures RefusedAsWritten(0, free)
  {
  }

  /** At the end of a full last block: success within one more block. */
  lemma {:induction false} ReturnsIff(st: State, owner: Owners, i: nat, n: nat, s: seq<Byte>)
    requires FullFile(st, owner, i, n)
    ensures 0 <= Returns(st, i, s) <= BLOCK_SIZE <==> !Refused(n, st.freeBlocks) && (|s| <= BLOCK_SIZE || Reach(st, i) == n + 1)
  {
    hide FsInv, WriteFile, Cost, Room, Refused;
    WriteLengthExact(st, owner, i, BLOCK_SIZE * n, s, false);
    RoomSteps(n, st.freeBlocks, BLOCK_SIZE * n);
  }

  /** write_file as written gives the designed answer and content exactly in these cases. */
  lemma {:induction false} WriteRightIff(st: State, owner: Owners, i: nat, p: nat, s: seq<Byte>)
    requires FsInv(st, owner) && i < INODES && st.inodes[i].Live() && Tight(st, i) && p <= st.inodes[i].size
    ensures Right(st, i, p, s, WriteAsWritten(AsLeft(st, i), i, p, s, false)) <==> WritesRight(st, i, p, s)
  {
    hide FsInv, Right, WriteAsWritten, AsLeft, WriteFile, RefusedAsWritten, Refused, StopsAlike, Ready, Tight, FullFile, Reach, LeftFree,
         Returns;
    NotReady(st, owner, i);
    var size, n := st.inodes[i].size, st.inodes[i].BlockCount();
    if p < size {
      if s == [] { EmptyInsideRight(st, owner, i, p); } else { OverwriteWrong(st, owner, i, p, s); }
    } else if Ready(st, i) {
      AppendIff(st, owner, i, s);
      StopsAlikeIff(st, owner, i, s);
    } else if n == MAX_BLOCKS {
      LargestFile(st, owner, i, s);
      LargestRefused(st.freeBlocks);
    } else if s == [] {
      EmptyAtEndIff(st, owner, i, n);
      RefusedReturns(st, owner, i, n);
    } else {
      ReturnsIff(st, owner, i, n, s);
      if (n == 8 || n == 72) && 0 <= Returns(st, i, s) <= BLOCK_SIZE { LuckyAppendRight(st, owner, i, n, s); }
      else { FullAppendWrong(st, owner, i, n, s); }
    }
  }

  lemma LargestRefused(free: int)
    ensures Refused(MAX_BLOCKS, free)
  {
  }

  lemma NotReady(st: State, owner: Owners, i: nat)
    requires FsInv(st, owner) && i < INODES && st.inodes[i].Live() && Tight(st, i)
    ensures var n := st.inodes[i].BlockCount();
            && st.inodes[i].size <= BLOCK_SIZE * n && n <= MAX_BLOCKS
            && (n >= 1 ==> st.inodes[i].loc[0].Blk?)
            && (!Ready(st, i) ==> st.inodes[i].size == BLOCK_SIZE * n && (n < MAX_BLOCKS ==> FullFile(st, owner, i, n)))
  {
    assert Shape(st, i);
    FirstPointer(st, owner, i);
  }

  /** At the end of the largest file the design reports ERROR; the source reads past its index. */
  lemma LargestFile(st: State, owner: Owners, i: nat, s: seq<Byte>)
    requires FsInv(st, owner) && i < INODES && st.inodes[i].Live()
    requires st.inodes[i].BlockCount() == MAX_BLOCKS && st.inodes[i].size == BLOCK_SIZE * MAX_BLOCKS
    ensures Returns(st, i, s) == -1
    ensures !Right(st, i, st.inodes[i].size, s, WriteAsWritten(AsLeft(st, i), i, st.inodes[i].size, s, false))
  {
    hide WriteFile, Content, Splice;
    var owner1 := WriteFileSplices(st, owner, i, st.inodes[i].size, s, false);
    UnmappedAddresses(st, owner, i, st.inodes[i].size);
    assert At(st.inodes, st.disk, DataOf(i, 0)).Blk? by { assert Shape(st, i); }
    assert st.inodes[i].loc[0].Blk?;
    hide FsInv, SwitchAt;
  }

  // ----- files that are only written to -----

  lemma {:induction false} WriteKeepsTight(st: State, owner: Owners, i: nat, p: nat, s: seq<Byte>, byUser: bool)
    requires FsInv(st, owner) && i < INODES && st.inodes[i].Live() && Tight(st, i) && p <= st.inodes[i].size
    ensures Tight(WriteFile(st, i, p, s, byUser).0, i)
  {
    hide FsInv, WriteFile, Content, Splice, Room, Cost;
    WriteLengthExact(st, owner, i, p, s, byUser);
    var owner1 := WriteFileSplices(st, owner, i, p, s, byUser);
    var (d, w) := WriteFile(st, i, p, s, byUser);
    if w >= 0 {
      SpliceSize(Content(st, i), p, s[..w]);
      assert d.inodes[i].size == |Content(d, i)|;
    }
  }

  ghost predicate FilesTight(st: State) {
    forall j :: 0 <= j < INODES && st.inodes[j].Live() && !st.inodes[j].kind.Dir? ==> Tight(st, j)
  }

  lemma SameInode(st: State, st1: State, j: nat)
    requires j < INODES && st1.inodes[j] == st.inodes[j] && Tight(st, j)
    ensures Tight(st1, j)
  {
  }

  lemma CreateKeepsTight(st: State, d: nat, name: Name, isDir: bool, mode: int, pad: Pad)
    requires Consistent(st) && FilesTight(st) && IsDir(st, d) && st.freeInodes >= 1
    ensures FilesTight(CreateIn(st, d, name, isDir, mode, pad).0)
  {
    hide Inv, CreateIn, List, Find, IsExist;
    var owner, slot, depth :| Inv(st, owner, slot, depth);
    CreateInExact(st, owner, slot, depth, d, name, isDir, mode, pad);
    var (st1, ok) := CreateIn(st, d, name, isDir, mode, pad);
    if ok {
      assert SameNode(st, st1, d) && |Content(st1, st.firstInode)| == 0;
      hide Content, LeafAdded;
      forall j | 0 <= j < INODES && st1.inodes[j].Live() && !st1.inodes[j].kind.Dir? ensures Tight(st1, j) {
        if j != d && j != st.firstInode { SameInode(st, st1, j); }
      }
    }
  }

  lemma UnlinkKeepsTight(st: State, d: nat, name: Name, open: set<nat>)
    requires Consistent(st) && FilesTight(st) && IsDir(st, d)
    ensures FilesTight(UnlinkIn(st, d, name, open).0)
  {
    hide Inv, UnlinkIn, Content, List, Find, IsExist;
    var owner, slot, depth :| Inv(st, owner, slot, depth);
    UnlinkInExact(st, owner, slot, depth, d, name, open);
    var (st1, ok) := UnlinkIn(st, d, name, open);
    if ok {
      var i := IsExist(st, d, name).value;
      assert SameNode(st, st1, d) || i == d;
      forall j | 0 <= j < INODES && st1.inodes[j].Live() && !st1.inodes[j].kind.Dir? ensures Tight(st1, j) {
        if j != d && j != i { SameInode(st, st1, j); }
      }
    }
  }

  lemma StepKeepsTight(st: State, op: Op)
    requires Consistent(st) && FilesTight(st)
    ensures FilesTight(Step(st, op).0)
  {
    hide Consistent, CreateIn, UnlinkIn, WriteFile, Resolve, Tight, FilesTight;
    match op
    case Create(start, comps, name, isDir, mode, pad) =>
      var d := Resolve(st, start, comps);
      if d.Some? && st.freeInodes >= 1 { CreateKeepsTight(st, d.value, name, isDir, mode, pad); }
    case Unlink(start, comps, name, open) =>
      var d := Resolve(st, start, comps);
      if d.Some? { UnlinkKeepsTight(st, d.value, name, open); }
    case Write(i, p, s) =>
      if i < INODES && st.inodes[i].Live() && p <= st.inodes[i].size { PutKeepsTight(st, i, p, s); }
  }

  lemma PutKeepsTight(st: State, i: nat, p: nat, s: seq<Byte>)
    requires Consistent(st) && FilesTight(st) && i < INODES && st.inodes[i].Live() && p <= st.inodes[i].size
    ensures FilesTight(WriteFile(st, i, p, s, true).0)
  {
    var owner, slot, depth :| Inv(st, owner, slot, depth);
    hide WriteFile, Content, Splice, Tight, List, FsInv, InodeInv, TreeInv;
    WriteStepExact(st, owner, slot, depth, i, p, s);
    var st1 := WriteFile(st, i, p, s, true).0;
    if !st.inodes[i].kind.Dir? { WriteKeepsTight(st, owner, i, p, s, true); }
    forall j | 0 <= j < INODES && st1.inodes[j].Live() && !st1.inodes[j].kind.Dir? ensures Tight(st1, j) {
      if j != i { SameInode(st, st1, j); }
    }
  }

  /** In every state of every run WriteRightIff applies to every file in use. */
  lemma {:induction false} FilesStayTight(ops: seq<Op>)
    ensures FilesTight(Run(Init(), ops))
  {
    InitConsistent();
    assert FilesTight(Init());
    hide FilesTight, Init, Consistent;
    RunKeepsTight(Init(), ops);
  }

  lemma {:induction false} RunKeepsTight(st: State, ops: seq<Op>)
    requires Consistent(st) && FilesTight(st)
    ensures FilesTight(Run(st, ops))
    decreases |ops|
  {
    hide Consistent, Step, FilesTight;
    if ops != [] {
      StepKeepsTight(st, ops[0]);
      StepKeepsConsistent(st, ops[0]);
      RunKeepsTight(Step(st, ops[0]).0, ops[1..]);
    }
  }
}
