/** Steps of the file system as the source writes them, where they differ from its design:
    exactly when each of them still does what the design asks for. */
module AsWritten {
  import opened Disk
  import opened Allocator
  import opened BlockIndex
  import opened FileData
  import opened FreeBlocks
  import opened Directory
  import opened Namespace
  import opened Inodes
  import opened Runs

  // ----- the refusals of allocate_block -----

  predicate RefusedAsWritten(b: int, free: int) {
    || b > MAX_FILE_SIZE / BLOCK_SIZE
    || free < 1
    || (b == 8 && free < 2)
    || (b == 72 && free < 3)
  }

  /** As written, allocate_block goes ahead where it must not in just two cases: for block
      4168, one past the last slot, and for the first block below a second-level index when
      only one block is free. */
  lemma RefusalsDiffer(b: int, free: int)
    ensures RefusedAsWritten(b, free) ==> Refused(b, free)
    ensures !RefusedAsWritten(b, free) && Refused(b, free) <==>
              free >= 1 && (b == MAX_BLOCKS || (72 < b < MAX_BLOCKS && (b - 72) % 64 == 0 && free == 1))
    ensures b == MAX_BLOCKS ==> (b - 72) / 64 == 64
  {
  }

  /** In the second case the block taken next lies just past the allocatable space. */
  lemma {:induction false} SecondTakeOverruns(st: State)
    requires AllocInv(st) && st.freeBlocks == 1
    ensures st.firstBlock < SPACE && TakeBlock(st).firstBlock == SPACE
  {
    TakeBlockKeepsInv(st);
    FirstBlockUsable(TakeBlock(st));
  }

  // ----- switchAddress and get_blockpointer -----

  /**
   * What an address computation gives: a NULL second-level index is dereferenced (Fault), a pointer is
   * read outside the arrays that hold pointers (Stray), or an address, as a base and an offset from it.
   */
  datatype Access = Fault | Stray | Addr(base: Ptr, offset: int)
  {
    /** The NULL pointer, which is how the callers recognise a missing block. */
    predicate IsNull() { this == Addr(Null, 0) }

    /** Not NULL, but in no block: an offset from NULL. */
    predicate Wild() { Addr? && base.Null? && offset != 0 }
  }

  /** C's division and remainder by the block size, which round towards zero. */
  function Quot(p: int): int { if p >= 0 then p / BLOCK_SIZE else -((-p) / BLOCK_SIZE) }

  function Rem(p: int): int { if p >= 0 then p % BLOCK_SIZE else -((-p) % BLOCK_SIZE) }

  /** switchAddress as written, for block k and an offset: no pointer it adds to is tested but location[8] and [9]. */
  function SwitchAddress(loc: Locs, disk: Space, k: int, offset: int): Access {
    if k < 0 then Stray
    else if k < 8 then Addr(loc[k], offset)
    else if k < 72 then
      if loc[8].Null? then Addr(Null, 0) else Addr(Entries(disk, loc[8])[k - 8], offset)
    else if loc[9].Null? then Addr(Null, 0)
    else if k >= MAX_BLOCKS then Stray
    else
      var second := Entries(disk, loc[9])[(k - 72) / 64];
      if second.Null? then Fault else Addr(Entries(disk, second)[(k - 72) % 64], offset)
  }

  /** get_blockpointer as written, for position p: it also tests the position's sign and the direct pointers. */
  function GetBlockPointer(loc: Locs, disk: Space, p: int): Access {
    var k, offset := Quot(p), Rem(p);
    if p < 0 then Addr(Null, 0)
    else if k < 8 then
      if loc[k].Null? then Addr(Null, 0) else Addr(loc[k], offset)
    else if k < 72 then
      if loc[8].Null? then Addr(Null, 0) else Addr(Entries(disk, loc[8])[k - 8], offset)
    else if loc[9].Null? then Addr(Null, 0)
    else if k >= MAX_BLOCKS then Stray
    else
      var second := Entries(disk, loc[9])[(k - 72) / 64];
      if second.Null? then Fault else Addr(Entries(disk, second)[(k - 72) % 64], offset)
  }

  /** switchAddress as its callers use it, for position p. */
  function SwitchAt(loc: Locs, disk: Space, p: int): Access {
    SwitchAddress(loc, disk, Quot(p), Rem(p))
  }

  /** The positions that the blocks of inode i cover. */
  predicate Mapped(st: State, i: nat, p: int)
    requires i < INODES
  {
    0 <= p < BLOCK_SIZE * st.inodes[i].BlockCount()
  }

  /**
   * On every mapped position both give the block that the three-level lookup finds, with the position's
   * offset. Elsewhere they differ exactly on negative positions, and inside missing direct blocks.
   */
  lemma {:induction false} AddressesAgree(st: State, owner: Owners, i: nat, p: int)
    requires FsInv(st, owner) && i < INODES
    ensures var loc, a, g := st.inodes[i].loc, SwitchAt(st.inodes[i].loc, st.disk, p), GetBlockPointer(st.inodes[i].loc, st.disk, p);
            && (Mapped(st, i, p) ==>
                  p / BLOCK_SIZE < MAX_BLOCKS && Lookup(loc, st.disk, p / BLOCK_SIZE).Blk?
                  && a == g == Addr(Lookup(loc, st.disk, p / BLOCK_SIZE), p % BLOCK_SIZE))
            && (a != g <==> p < 0 || (!Mapped(st, i, p) && p < 8 * BLOCK_SIZE && p % BLOCK_SIZE != 0))
  {
    assert Shape(st, i);
    if p >= 0 && p / BLOCK_SIZE < MAX_BLOCKS { PointersOfShape(st, i, p / BLOCK_SIZE); }
  }

  lemma PointersOfShape(st: State, i: nat, k: nat)
    requires i < INODES && k < MAX_BLOCKS && Shape(st, i)
    ensures var loc, n := st.inodes[i].loc, st.inodes[i].BlockCount();
            && (Lookup(loc, st.disk, k).Blk? <==> k < n) && (loc[8].Blk? <==> n > 8) && (loc[9].Blk? <==> n > 72)
            && (k >= 72 ==> (Entries(st.disk, loc[9])[(k - 72) / 64].Blk? <==> 72 + 64 * ((k - 72) / 64) < n))
  {
    assert At(st.inodes, st.disk, DataOf(i, k)) == Lookup(st.inodes[i].loc, st.disk, k);
    assert At(st.inodes, st.disk, SingleOf(i)) == st.inodes[i].loc[8];
    assert At(st.inodes, st.disk, DoubleOf(i)) == st.inodes[i].loc[9];
    if k >= 72 {
      var j := (k - 72) / 64;
      assert At(st.inodes, st.disk, SecondOf(i, j)) == Entries(st.disk, st.inodes[i].loc[9])[j];
    }
  }

  /** The index block that position p would be listed in is there, or p is in the direct blocks. */
  predicate Listable(n: int, p: nat) {
    var k := p / BLOCK_SIZE;
    k < 8 || (k < 72 && n > 8) || (72 <= k < MAX_BLOCKS && n > 72 + 64 * ((k - 72) / 64))
  }

  /**
   * What switchAddress gives on a position without a block, where the callers expect NULL: an address just
   * in front of the first block or a stray one when it is negative, otherwise a fault when the double index
   * lacks the second-level one, a stray pointer past the largest file, a wild address inside a missing block
   * that an index could list, and NULL in all other cases.
   */
  lemma {:induction false} UnmappedAddresses(st: State, owner: Owners, i: nat, p: int)
    requires FsInv(st, owner) && i < INODES && !Mapped(st, i, p)
    ensures var n, k, a := st.inodes[i].BlockCount(), p / BLOCK_SIZE, SwitchAt(st.inodes[i].loc, st.disk, p);
            && (p < 0 ==> a == if p > -BLOCK_SIZE then Addr(st.inodes[i].loc[0], p) else Stray)
            && (p >= 0 ==>
                  && (a.Fault? <==> n > 72 && k < MAX_BLOCKS && n <= 72 + 64 * ((k - 72) / 64))
                  && (a.Stray? <==> n > 72 && k >= MAX_BLOCKS)
                  && (a.Wild() <==> Listable(n, p) && p % BLOCK_SIZE != 0)
                  && (a.IsNull() <==> !a.Fault? && !a.Stray? && !a.Wild()))
  {
    assert Shape(st, i);
    if p >= 0 && p / BLOCK_SIZE < MAX_BLOCKS { PointersOfShape(st, i, p / BLOCK_SIZE); }
  }

  /** get_blockpointer on such a position: the same, but NULL for negative ones and all direct blocks. */
  lemma {:induction false} UnmappedBlockPointers(st: State, owner: Owners, i: nat, p: int)
    requires FsInv(st, owner) && i < INODES && !Mapped(st, i, p)
    ensures var g := GetBlockPointer(st.inodes[i].loc, st.disk, p);
            g == if p < 8 * BLOCK_SIZE then Addr(Null, 0) else SwitchAt(st.inodes[i].loc, st.disk, p)
  {
    assert Shape(st, i);
    if 0 <= p < BLOCK_SIZE * MAX_BLOCKS { PointersOfShape(st, i, p / BLOCK_SIZE); }
  }

  /** So looking up the block after the last one crashes just when all second-level indexes are full. */
  lemma {:induction false} AppendFaultsIff(st: State, owner: Owners, i: nat)
    requires FsInv(st, owner) && i < INODES && st.inodes[i].BlockCount() < MAX_BLOCKS
    ensures var n := st.inodes[i].BlockCount();
            0 <= n && (SwitchAt(st.inodes[i].loc, st.disk, BLOCK_SIZE * n).Fault? <==> n > 72 && (n - 72) % 64 == 0)
  {
    assert Shape(st, i);
    UnmappedAddresses(st, owner, i, BLOCK_SIZE * st.inodes[i].BlockCount());
  }

  // ----- the lookup of path components -----

  /** Nothing found, a number past the inode table, or an inode. */
  datatype Walk = Absent | OffTable | Reached(d: nat)

  /** The loop over path components as written: each is looked up in the inode found before, whatever that is. */
  function WalkAsWritten(st: State, d: nat, comps: seq<Name>): (w: Walk)
    ensures w.Reached? ==> w.d < INODES
    decreases |comps|
  {
    if d >= INODES then OffTable
    else if comps == [] then Reached(d)
    else match IsExist(st, d, comps[0])
      case None => Absent
      case Some(j) => WalkAsWritten(st, j, comps[1..])
  }

  /** Every inode on that way, the last one included, is a directory in use. */
  predicate DirsAlong(st: State, d: nat, comps: seq<Name>)
    decreases |comps|
  {
    IsDir(st, d) && (comps == [] || match IsExist(st, d, comps[0])
                                    case None => true
                                    case Some(j) => DirsAlong(st, j, comps[1..]))
  }

  predicate SameAnswer(w: Walk, r: Option<nat>) {
    match r
    case None => w == Absent
    case Some(d) => w == Reached(d)
  }

  /** The lookup as written gives the designed answer exactly when it finds nothing or goes through
      directories in use only. */
  lemma {:induction false} ResolveRightIff(st: State, d: nat, comps: seq<Name>)
    ensures SameAnswer(WalkAsWritten(st, d, comps), Resolve(st, d, comps))
            <==> WalkAsWritten(st, d, comps) == Absent || DirsAlong(st, d, comps)
    ensures Resolve(st, d, comps).Some? ==> DirsAlong(st, d, comps)
    decreases |comps|
  {
    hide IsExist;
    if d < INODES && comps != [] {
      match IsExist(st, d, comps[0])
      case None =>
      case Some(j) => ResolveRightIff(st, j, comps[1..]);
    }
  }

  /** create as written; None when it reads past the inode table. */
  function CreateAsWritten(st: State, start: nat, comps: seq<Name>, name: Name, isDir: bool, mode: int, pad: Pad):
    Option<(State, bool)>
  {
    if st.freeBlocks < 1 || st.freeInodes < 1 then Some((st, false))
    else match WalkAsWritten(st, start, comps)
      case Absent => Some((st, false))
      case OffTable => None
      case Reached(d) => Some(CreateIn(st, d, name, isDir, mode, pad))
  }

  /** What create finds before it changes anything: no space, no directory of that name, a bad name, or no
      room for one more entry. */
  predicate RefusesCreate(st: State, start: nat, comps: seq<Name>, name: Name) {
    st.freeBlocks < 1 || st.freeInodes < 1 ||
    match WalkAsWritten(st, start, comps)
    case Absent => true
    case OffTable => false
    case Reached(d) =>
      var x := st.inodes[d];
      |name| > 13 || IsExist(st, d, name).Some?
      || (x.size == BLOCK_SIZE * x.BlockCount() && Refused(x.blockNumber + 1, st.freeBlocks))
  }

  /** create as written is refused without a change exactly in these cases; and it does what it should exactly then, or
      when it goes through directories in use only. */
  lemma CreateRightIff(st: State, start: nat, comps: seq<Name>, name: Name, isDir: bool, mode: int, pad: Pad)
    requires Consistent(st)
    ensures var c, refused := CreateAsWritten(st, start, comps, name, isDir, mode, pad), RefusesCreate(st, start, comps, name);
            && (c == Some((st, false)) <==> refused)
            && (c == Some(Step(st, Create(start, comps, name, isDir, mode, pad))) <==> DirsAlong(st, start, comps) || refused)
  {
    CreateRefused(st, start, comps, name, isDir, mode, pad);
    hide CreateIn, Consistent;
    ResolveRightIff(st, start, comps);
  }

  lemma CreateRefused(st: State, start: nat, comps: seq<Name>, name: Name, isDir: bool, mode: int, pad: Pad)
    requires Consistent(st)
    ensures CreateAsWritten(st, start, comps, name, isDir, mode, pad) == Some((st, false)) <==> RefusesCreate(st, start, comps, name)
  {
    hide IsExist, FsInv, TreeInv, WriteFile, AllocateInode, Refused, WalkAsWritten, Encode;
    var owner, slot, depth :| Inv(st, owner, slot, depth);
    if st.freeBlocks >= 1 && st.freeInodes >= 1 {
      FirstInodeUsable(st);
      var w := WalkAsWritten(st, start, comps);
      if w.Reached? && |name| <= 13 { EntryRefusedIff(st, owner, w.d, Encode(name, st.firstInode, pad)); }
    }
  }

  /** rd_unlink as written; None when it reads past the inode table. */
  function UnlinkAsWritten(st: State, start: nat, comps: seq<Name>, name: Name, open: set<nat>): Option<(State, bool)> {
    match WalkAsWritten(st, start, comps)
    case Absent => Some((st, false))
    case OffTable => None
    case Reached(d) =>
      match IsExist(st, d, name)
      case None => Some((st, false))
      case Some(i) =>
        if i >= INODES then None
        else
          var r := UnlinkIn(st, d, name, open);
          if r.1 && !(0 <= st.inodes[i].parent < INODES) then None else Some(r)
  }

  /** The name is not there, or what it names is a directory with entries, or open. */
  predicate RefusesUnlink(st: State, start: nat, comps: seq<Name>, name: Name, open: set<nat>) {
    match WalkAsWritten(st, start, comps)
    case Absent => true
    case OffTable => false
    case Reached(d) =>
      match IsExist(st, d, name)
      case None => true
      case Some(i) => i < INODES && ((st.inodes[i].kind.Dir? && st.inodes[i].size > 0) || i in open)
  }

  /** rd_unlink as written does what it should exactly when it goes through directories in use only, or is refused
      without a change; below a regular file it frees whatever inode the file's bytes name. */
  lemma UnlinkPathRightIff(st: State, start: nat, comps: seq<Name>, name: Name, open: set<nat>)
    requires Consistent(st)
    ensures var c, refused := UnlinkAsWritten(st, start, comps, name, open), RefusesUnlink(st, start, comps, name, open);
            && (c == Some((st, false)) <==> refused)
            && (c == Some(Step(st, Unlink(start, comps, name, open))) <==> DirsAlong(st, start, comps) || refused)
  {
    hide Inv, IsExist, FreeInode, List, Find;
    ResolveRightIff(st, start, comps);
    var d := Resolve(st, start, comps);
    if d.Some? {
      var owner, slot, depth :| Inv(st, owner, slot, depth);
      UnlinkTarget(st, owner, slot, depth, d.value, name);
    }
  }

  lemma EntryRefusedIff(st: State, owner: Owners, d: nat, s: seq<Byte>)
    requires FsInv(st, owner) && d < INODES
    ensures var x, (st1, w) := st.inodes[d], WriteFile(st, d, st.inodes[d].size, s, false);
            w == -1 && st1 == st <==> x.size == BLOCK_SIZE * x.BlockCount() && Refused(x.blockNumber + 1, st.freeBlocks)
  {
    hide FsInv, OnlyWrites, Content, Splice, WriteFile, Refused;
    if st.inodes[d].Live() {
      var _ := WriteFileSplices(st, owner, d, st.inodes[d].size, s, false);
    } else {
      DeadRefusedIff(st, owner, d, s);
    }
  }

  /** A number not in use has no blocks, so a block is taken before anything is written. */
  lemma DeadRefusedIff(st: State, owner: Owners, d: nat, s: seq<Byte>)
    requires FsInv(st, owner) && d < INODES && !st.inodes[d].Live()
    ensures var (st1, w) := WriteFile(st, d, st.inodes[d].size, s, false);
            st.inodes[d].size == 0 && (w == -1 && st1 == st <==> Refused(st.inodes[d].blockNumber + 1, st.freeBlocks))
  {
    hide OwnInv;
    assert Shape(st, d) && At(st.inodes, st.disk, DataOf(d, 0)) == st.inodes[d].loc[0];
    var b := st.inodes[d].blockNumber + 1;
    if !Refused(b, st.freeBlocks) {
      SameNumber(Bump(st, d), RolesNeeded(st, d, b), d);
      hide AttachAll, RolesNeeded;
      var st0 := AllocateBlock(st, d).value;
      assert st0.inodes[d].blockNumber == b && st0 != st;
    }
  }

  lemma {:induction false} SameNumber(st: State, rs: seq<Role>, i: nat)
    requires i < INODES && forall r :: r in rs ==> InRange(r)
    ensures AttachAll(st, rs).inodes[i].blockNumber == st.inodes[i].blockNumber
    decreases |rs|
  {
    if rs != [] { SameNumber(Attach(st, rs[0]), rs[1..], i); }
  }

  // ----- free_block -----

  /** block_number as write_file leaves it, and as a file goes on having it: -1 before the first block, then
      size / 256. Removing an entry of a directory does not change it. */
  function NumberLeft(inode: Inode): LastBlock {
    if inode.blockNumber < 0 then -1 else inode.size / BLOCK_SIZE
  }

  /** The loop over location[0..8], up to the first NULL, on a working free_bitmap. */
  function FreeDirectAsWritten(st: State, loc: Locs, k: nat): (State, seq<nat>)
    requires k <= 9
    decreases 9 - k
  {
    if k == 9 || loc[k].Null? || loc[k].n >= SPACE then (st, [])
    else
      var (s, bs) := FreeDirectAsWritten(ReleaseBlock(st, loc[k].n), loc, k + 1);
      (s, [loc[k].n] + bs)
  }

  /** The loop over the slots of the index block c from m on, up to the first NULL. */
  function FreeListAsWritten(st: State, c: Ptr, m: nat): (State, seq<nat>)
    requires m <= 64
    decreases 64 - m
  {
    if m == 64 || Entries(st.disk, c)[m].Null? || Entries(st.disk, c)[m].n >= SPACE then (st, [])
    else
      var b := Entries(st.disk, c)[m].n;
      var (s, bs) := FreeListAsWritten(ReleaseBlock(st, b), c, m + 1);
      (s, [b] + bs)
  }

  /** The nested loops below the double-indirect index c. */
  function FreeBelowAsWritten(st: State, c: Ptr, j: nat): (State, seq<nat>)
    requires j <= 64
    decreases 64 - j
  {
    if j == 64 || Entries(st.disk, c)[j].Null? then (st, [])
    else
      var (s, bs) := FreeListAsWritten(st, Entries(st.disk, c)[j], 0);
      var (s', bs') := FreeBelowAsWritten(s, c, j + 1);
      (s', bs + bs')
  }

  /** free_block stops at a NULL index block, or returns; the blocks it has released. */
  datatype Freed = Crashed(released: seq<nat>) | FreedTo(st: State, released: seq<nat>)

  /**
   * free_block as written, with block_number b: the single-indirect index is zeroed by the first loop, which includes
   * location[8], before it is walked; location[9] and the second-level indexes are never released; an index
   * pointer is followed without a test; and location[] keeps all its pointers.
   */
  function FreeBlockAsWritten(st: State, i: nat, b: int): Freed
    requires i < INODES
  {
    var loc := st.inodes[i].loc;
    if b < 0 then FreedTo(st, [])
    else
      var (s1, direct) := FreeDirectAsWritten(st, loc, 0);
      if b < 8 then FreedTo(s1, direct)
      else if loc[8].Null? then Crashed(direct)
      else
        var (s2, single) := FreeListAsWritten(s1, loc[8], 0);
        if b < 72 then FreedTo(s2, direct + single)
        else if loc[9].Null? then Crashed(direct + single)
        else
          var (s3, double) := FreeBelowAsWritten(s2, loc[9], 0);
          FreedTo(s3, direct + single + double)
  }

  ghost predicate OwnedBy(owner: Owners, b: nat, i: nat) {
    b < SPACE && owner[b].Some? && owner[b].value.i == i
  }

  /** The uses of the blocks that the loops can come to. */
  predicate Visited(r: Role) {
    r.SingleOf? || (r.DataOf? && (r.k < 8 || r.k >= 72))
  }

  /** `s` is `st` with just the blocks `done`, all of inode i, zeroed and released, and every pointer kept. */
  ghost predicate Walked(st: State, owner: Owners, i: nat, s: State, done: seq<nat>) {
    && s.inodes == st.inodes
    && (forall b :: b in done ==> OwnedBy(owner, b, i) && Visited(owner[b].value))
    && (forall b: BlockNo :: s.disk[b] == if b in done then Zero else st.disk[b])
    && (forall b: BlockNo :: s.bits[b] <==> st.bits[b] && b !in done)
  }

  lemma WalkedMore(st: State, owner: Owners, i: nat, s: State, done: seq<nat>, b: nat)
    requires Walked(st, owner, i, s, done) && OwnedBy(owner, b, i) && Visited(owner[b].value)
    ensures Walked(st, owner, i, ReleaseBlock(s, b), done + [b])
  {
  }

  /** The first min(n, 9) pointers of location[0..8], which the first loop releases. */
  predicate DirectPart(n: int, k: int) { 0 <= k < 9 && k < n }

  lemma DirectOwned(st: State, owner: Owners, i: nat, k: nat)
    requires FsInv(st, owner) && i < INODES && st.inodes[i].Live() && k < 9
    ensures var p := st.inodes[i].loc[k];
            && (p.Blk? <==> DirectPart(st.inodes[i].BlockCount(), k))
            && (p.Blk? ==> OwnedBy(owner, p.n, i) && owner[p.n].value == if k < 8 then DataOf(i, k) else SingleOf(i))
  {
    assert Shape(st, i);
    var r := if k < 8 then DataOf(i, k) else SingleOf(i);
    assert At(st.inodes, st.disk, r) == st.inodes[i].loc[k];
  }

  lemma {:induction false} DirectWalk(st: State, owner: Owners, i: nat, s: State, done: seq<nat>, k: nat)
    requires FsInv(st, owner) && i < INODES && st.inodes[i].Live() && k <= 9 && Walked(st, owner, i, s, done)
    ensures var loc, (s1, bs) := st.inodes[i].loc, FreeDirectAsWritten(s, st.inodes[i].loc, k);
            && Walked(st, owner, i, s1, done + bs)
            && forall k' :: k <= k' < 9 && DirectPart(st.inodes[i].BlockCount(), k') ==> loc[k'].Blk? && loc[k'].n in bs
    decreases 9 - k
  {
    hide FsInv, ReleaseBlock, Walked;
    var loc := st.inodes[i].loc;
    if k < 9 { DirectOwned(st, owner, i, k); }
    if k == 9 || loc[k].Null? {
      assert done + [] == done;
    } else {
      var b := loc[k].n;
      WalkedMore(st, owner, i, s, done, b);
      DirectWalk(st, owner, i, ReleaseBlock(s, b), done + [b], k + 1);
      var bs := FreeDirectAsWritten(ReleaseBlock(s, b), loc, k + 1).1;
      assert done + [b] + bs == done + ([b] + bs);
      forall k' | k <= k' < 9 && DirectPart(st.inodes[i].BlockCount(), k') ensures loc[k'].Blk? && loc[k'].n in [b] + bs {}
    }
  }

  lemma {:induction false} SecondEntryOwned(st: State, owner: Owners, i: nat, c: nat, m: nat, b: nat)
    requires FsInv(st, owner) && i < INODES && m < 64 && c < SPACE
    requires owner[c].Some? && owner[c].value.SecondOf? && owner[c].value.i == i
    requires Entries(st.disk, Blk(c))[m] == Blk(b)
    ensures b < SPACE && owner[b].Some? && owner[b].value.i == i && owner[b].value.DataOf? && owner[b].value.k >= 72
  {
    var j := owner[c].value.j;
    assert At(st.inodes, st.disk, SecondOf(i, j)) == Blk(c);
    var r := DataOf(i, 72 + 64 * j + m);
    assert (64 * j + m) / 64 == j && (64 * j + m) % 64 == m;
    assert At(st.inodes, st.disk, r) == Blk(b);
  }

  ghost predicate SecondIndex(owner: Owners, i: nat, c: nat) {
    c < SPACE && owner[c].Some? && owner[c].value.SecondOf? && owner[c].value.i == i
  }

  lemma {:induction false} ListWalk(st: State, owner: Owners, i: nat, s: State, done: seq<nat>, c: nat, m: nat)
    requires FsInv(st, owner) && i < INODES && m <= 64 && Walked(st, owner, i, s, done) && SecondIndex(owner, i, c)
    ensures var (s1, bs) := FreeListAsWritten(s, Blk(c), m); Walked(st, owner, i, s1, done + bs)
    decreases 64 - m
  {
    hide FsInv, ReleaseBlock;
    assert s.disk[c] == st.disk[c];
    if m == 64 || Entries(s.disk, Blk(c))[m].Null? {
      assert done + [] == done;
    } else {
      var b := Entries(s.disk, Blk(c))[m].n;
      SecondEntryOwned(st, owner, i, c, m, b);
      hide Walked;
      WalkedMore(st, owner, i, s, done, b);
      ListWalk(st, owner, i, ReleaseBlock(s, b), done + [b], c, m + 1);
      var bs := FreeListAsWritten(ReleaseBlock(s, b), Blk(c), m + 1).1;
      assert done + [b] + bs == done + ([b] + bs);
    }
  }

  lemma {:induction false} BelowWalk(st: State, owner: Owners, i: nat, s: State, done: seq<nat>, c: nat, j: nat)
    requires FsInv(st, owner) && i < INODES && j <= 64 && Walked(st, owner, i, s, done)
    requires c < SPACE && owner[c] == Some(DoubleOf(i)) && st.inodes[i].loc[9] == Blk(c)
    ensures var (s1, bs) := FreeBelowAsWritten(s, Blk(c), j); Walked(st, owner, i, s1, done + bs)
    decreases 64 - j
  {
    hide FsInv, FreeListAsWritten;
    assert s.disk[c] == st.disk[c];
    if j == 64 || Entries(s.disk, Blk(c))[j].Null? {
      assert done + [] == done;
    } else {
      var second := Entries(s.disk, Blk(c))[j];
      SecondOwned(st, owner, i, j);
      hide Walked, SecondIndex;
      ListWalk(st, owner, i, s, done, second.n, 0);
      var (s1, bs) := FreeListAsWritten(s, second, 0);
      BelowWalk(st, owner, i, s1, done + bs, c, j + 1);
      var bs' := FreeBelowAsWritten(s1, Blk(c), j + 1).1;
      assert done + bs + bs' == done + (bs + bs');
    }
  }

  lemma SecondOwned(st: State, owner: Owners, i: nat, j: nat)
    requires FsInv(st, owner) && i < INODES && j < 64 && Second(st.inodes[i].loc, st.disk, j).Blk?
    ensures SecondIndex(owner, i, Second(st.inodes[i].loc, st.disk, j).n)
  {
    assert At(st.inodes, st.disk, SecondOf(i, j)) == Second(st.inodes[i].loc, st.disk, j);
  }

  /** The loops taken together, for any block_number. */
  lemma {:induction false} FreeBlockWalks(st: State, owner: Owners, i: nat, b: int)
    requires FsInv(st, owner) && i < INODES && st.inodes[i].Live() && b >= 0
    ensures var n, loc, r := st.inodes[i].BlockCount(), st.inodes[i].loc, FreeBlockAsWritten(st, i, b);
            && (r.FreedTo? ==> Walked(st, owner, i, r.st, r.released))
            && (forall c :: c in r.released ==> OwnedBy(owner, c, i) && Visited(owner[c].value))
            && (forall k :: DirectPart(n, k) ==> loc[k].Blk? && loc[k].n in r.released)
            && (r.Crashed? <==> (b >= 8 && n <= 8) || (b >= 72 && n <= 72))
  {
    hide FsInv, ReleaseBlock, Walked, FreeDirectAsWritten, FreeBelowAsWritten, FreeListAsWritten;
    var loc, n := st.inodes[i].loc, st.inodes[i].BlockCount();
    WalkedStart(st, owner, i);
    DirectWalk(st, owner, i, st, [], 0);
    var (s1, direct) := FreeDirectAsWritten(st, loc, 0);
    assert [] + direct == direct;
    WalkedMembers(st, owner, i, s1, direct);
    DirectOwned(st, owner, i, 8);
    if b >= 8 && n > 8 {
      SingleIsZeroed(st, owner, i, s1, direct);
      assert direct + [] == direct;
      DoubleOwned(st, owner, i);
      if b >= 72 && n > 72 {
        BelowWalk(st, owner, i, s1, direct, loc[9].n, 0);
        var (s3, double) := FreeBelowAsWritten(s1, loc[9], 0);
        WalkedMembers(st, owner, i, s3, direct + double);
      }
    }
  }

  /** The k-th data block of a file is listed under its second-level index, all of whose earlier slots are in use. */
  lemma ListedBelow(st: State, owner: Owners, i: nat, k: nat)
    requires FsInv(st, owner) && i < INODES && st.inodes[i].Live() && 72 <= k < st.inodes[i].BlockCount()
    ensures k < MAX_BLOCKS && (k - 72) / 64 < 64
    ensures var c, p := Second(st.inodes[i].loc, st.disk, (k - 72) / 64), At(st.inodes, st.disk, DataOf(i, k));
            c.Blk? && p.Blk? && p.n < SPACE && SecondIndex(owner, i, c.n) && Entries(st.disk, c)[(k - 72) % 64] == p
  {
    assert Shape(st, i);
    SecondOwned(st, owner, i, (k - 72) / 64) by {
      assert At(st.inodes, st.disk, SecondOf(i, (k - 72) / 64)) == Second(st.inodes[i].loc, st.disk, (k - 72) / 64);
    }
    assert At(st.inodes, st.disk, DataOf(i, k)).Blk?;
  }

  lemma {:induction false} ListComplete(st: State, owner: Owners, i: nat, s: State, done: seq<nat>, k: nat, m: nat)
    requires FsInv(st, owner) && i < INODES && st.inodes[i].Live() && 72 <= k < st.inodes[i].BlockCount() <= MAX_BLOCKS
    requires m <= (k - 72) % 64 && Walked(st, owner, i, s, done)
    ensures var c, p := Second(st.inodes[i].loc, st.disk, (k - 72) / 64), At(st.inodes, st.disk, DataOf(i, k));
            c.Blk? && p.Blk? && p.n in FreeListAsWritten(s, c, m).1
    decreases 64 - m
  {
    hide FsInv, ReleaseBlock, At, Second;
    ListedBelow(st, owner, i, k);
    var c := Second(st.inodes[i].loc, st.disk, (k - 72) / 64);
    assert s.disk[c.n] == st.disk[c.n];
    var x := k - (k - 72) % 64 + m;
    assert (x - 72) / 64 == (k - 72) / 64 && (x - 72) % 64 == m;
    ListedBelow(st, owner, i, x);
    if m < (k - 72) % 64 {
      var b := Entries(s.disk, c)[m].n;
      SecondEntryOwned(st, owner, i, c.n, m, b);
      hide Walked, SecondIndex;
      WalkedMore(st, owner, i, s, done, b);
      ListComplete(st, owner, i, ReleaseBlock(s, b), done + [b], k, m + 1);
    }
  }

  lemma {:induction false} BelowComplete(st: State, owner: Owners, i: nat, s: State, done: seq<nat>, k: nat, j: nat)
    requires FsInv(st, owner) && i < INODES && st.inodes[i].Live() && 72 <= k < st.inodes[i].BlockCount() <= MAX_BLOCKS
    requires j <= (k - 72) / 64 && Walked(st, owner, i, s, done)
    requires st.inodes[i].loc[9].Blk? && st.inodes[i].loc[9].n < SPACE && owner[st.inodes[i].loc[9].n] == Some(DoubleOf(i))
    ensures var p := At(st.inodes, st.disk, DataOf(i, k)); p.Blk? && p.n in FreeBelowAsWritten(s, st.inodes[i].loc[9], j).1
    decreases 64 - j
  {
    hide FsInv, FreeListAsWritten, At;
    var c := st.inodes[i].loc[9];
    assert s.disk[c.n] == st.disk[c.n];
    var x := 72 + 64 * j;
    assert (x - 72) / 64 == j && (x - 72) % 64 == 0;
    ListedBelow(st, owner, i, x);
    var second := Second(st.inodes[i].loc, st.disk, j);
    hide Walked, SecondIndex;
    if j == (k - 72) / 64 {
      ListComplete(st, owner, i, s, done, k, 0);
    } else {
      ListWalk(st, owner, i, s, done, second.n, 0);
      var (s1, bs) := FreeListAsWritten(s, second, 0);
      BelowComplete(st, owner, i, s1, done + bs, k, j + 1);
    }
  }

  /** The uses of the blocks that are released for block_number b. */
  predicate Comes(r: Role, b: int) {
    r.SingleOf? || (r.DataOf? && (r.k < 8 || (r.k >= 72 && b >= 72)))
  }

  lemma {:induction false} DirectMembers(st: State, loc: Locs, k: nat)
    requires k <= 9
    ensures forall c :: c in FreeDirectAsWritten(st, loc, k).1 ==> exists k' :: k <= k' < 9 && loc[k'] == Blk(c)
    decreases 9 - k
  {
    hide ReleaseBlock;
    if k < 9 && loc[k].Blk? && loc[k].n < SPACE {
      DirectMembers(ReleaseBlock(st, loc[k].n), loc, k + 1);
    }
  }

  /** What the loops release: the direct blocks and the single-indirect index, and with a block_number of 72 or more
      all data blocks below the double-indirect index; nothing else. */
  lemma {:induction false} FreeBlockReleasesIff(st: State, owner: Owners, i: nat, b: int, c: nat)
    requires FsInv(st, owner) && i < INODES && st.inodes[i].Live() && b >= 0
    ensures var r := FreeBlockAsWritten(st, i, b);
            r.FreedTo? ==> (c in r.released <==> OwnedBy(owner, c, i) && Comes(owner[c].value, b))
  {
    hide FsInv, ReleaseBlock, Walked, FreeDirectAsWritten, FreeBelowAsWritten, FreeListAsWritten;
    FreeBlockWalks(st, owner, i, b);
    DirectMembers(st, st.inodes[i].loc, 0);
    var loc, r := st.inodes[i].loc, FreeBlockAsWritten(st, i, b);
    if r.FreedTo? {
      if OwnedBy(owner, c, i) {
        OwnedPlace(st, owner, i, c);
        if Comes(owner[c].value, b) && owner[c].value.DataOf? && owner[c].value.k >= 72 { DoubleReleased(st, owner, i, b, c); }
      }
      if c in r.released && b < 72 { DirectReleased(st, owner, i, b, c); }
    }
  }

  /** Where an owned block is listed. */
  lemma OwnedPlace(st: State, owner: Owners, i: nat, c: nat)
    requires FsInv(st, owner) && i < INODES && st.inodes[i].Live() && OwnedBy(owner, c, i)
    ensures var r, n := owner[c].value, st.inodes[i].BlockCount();
            && InRange(r) && At(st.inodes, st.disk, r) == Blk(c) && n <= MAX_BLOCKS
            && (r.DataOf? ==> r.k < n && (r.k < 8 ==> DirectPart(n, r.k) && st.inodes[i].loc[r.k] == Blk(c)))
            && (r.SingleOf? ==> DirectPart(n, 8) && st.inodes[i].loc[8] == Blk(c))
  {
    assert Shape(st, i);
  }

  lemma {:induction false} DoubleReleased(st: State, owner: Owners, i: nat, b: int, c: nat)
    requires FsInv(st, owner) && i < INODES && st.inodes[i].Live() && b >= 72
    requires OwnedBy(owner, c, i) && owner[c].value.DataOf? && owner[c].value.k >= 72
    ensures var r := FreeBlockAsWritten(st, i, b); r.FreedTo? ==> c in r.released
  {
    hide FsInv, ReleaseBlock, Walked, FreeDirectAsWritten, FreeBelowAsWritten, FreeListAsWritten, At;
    OwnedPlace(st, owner, i, c);
    var loc := st.inodes[i].loc;
    WalkedStart(st, owner, i);
    DirectWalk(st, owner, i, st, [], 0);
    var (s1, direct) := FreeDirectAsWritten(st, loc, 0);
    assert [] + direct == direct;
    DirectOwned(st, owner, i, 8);
    SingleIsZeroed(st, owner, i, s1, direct);
    DoubleOwned(st, owner, i);
    BelowComplete(st, owner, i, s1, direct, owner[c].value.k, 0);
  }

  lemma {:induction false} DirectReleased(st: State, owner: Owners, i: nat, b: int, c: nat)
    requires FsInv(st, owner) && i < INODES && st.inodes[i].Live() && 0 <= b < 72 && c in FreeBlockAsWritten(st, i, b).released
    ensures OwnedBy(owner, c, i) && Comes(owner[c].value, b)
  {
    hide FsInv, ReleaseBlock, Walked, FreeDirectAsWritten, FreeBelowAsWritten, FreeListAsWritten;
    var loc := st.inodes[i].loc;
    DirectMembers(st, loc, 0);
    WalkedStart(st, owner, i);
    DirectWalk(st, owner, i, st, [], 0);
    var (s1, direct) := FreeDirectAsWritten(st, loc, 0);
    assert [] + direct == direct;
    DirectOwned(st, owner, i, 8);
    if loc[8].Blk? { SingleIsZeroed(st, owner, i, s1, direct); }
    assert c in direct;
    var k :| 0 <= k < 9 && loc[k] == Blk(c);
    DirectOwned(st, owner, i, k);
  }

  lemma WalkedStart(st: State, owner: Owners, i: nat)
    ensures Walked(st, owner, i, st, [])
  {
  }

  lemma WalkedMembers(st: State, owner: Owners, i: nat, s: State, done: seq<nat>)
    requires Walked(st, owner, i, s, done)
    ensures forall b :: b in done ==> OwnedBy(owner, b, i) && Visited(owner[b].value)
  {
  }

  /** The second loop finds the single-indirect index empty. */
  lemma SingleIsZeroed(st: State, owner: Owners, i: nat, s: State, done: seq<nat>)
    requires Walked(st, owner, i, s, done) && i < INODES && st.inodes[i].loc[8].Blk? && st.inodes[i].loc[8].n in done
    ensures FreeListAsWritten(s, st.inodes[i].loc[8], 0) == (s, [])
  {
  }

  lemma DoubleOwned(st: State, owner: Owners, i: nat)
    requires FsInv(st, owner) && i < INODES && st.inodes[i].Live()
    ensures var p := st.inodes[i].loc[9];
            && (p.Blk? <==> st.inodes[i].BlockCount() > 72)
            && (p.Blk? ==> p.n < SPACE && owner[p.n] == Some(DoubleOf(i)))
  {
    assert Shape(st, i);
    assert At(st.inodes, st.disk, DoubleOf(i)) == st.inodes[i].loc[9];
  }

  /** It crashes exactly when block_number says more than 8, or more than 72, blocks of a file that has no more. */
  lemma FreeBlockCrashesIff(st: State, owner: Owners, i: nat, b: int)
    requires FsInv(st, owner) && i < INODES && st.inodes[i].Live()
    ensures var n := st.inodes[i].BlockCount();
            FreeBlockAsWritten(st, i, b).Crashed? <==> (b >= 8 && n <= 8) || (b >= 72 && n <= 72)
  {
    assert Shape(st, i);
    hide FsInv, Walked;
    if b >= 0 {
      hide FreeBlockAsWritten;
      FreeBlockWalks(st, owner, i, b);
    }
  }

  /**
   * So on a file, whose block_number is size / 256, it crashes exactly at 8 or 72 full blocks; and on a directory, whose
   * block_number b is that of the last time an entry was added, exactly when it has 8 or 72 blocks and they were
   * full then, however many entries are left.
   */
  lemma {:induction false} FullBlocksCrash(st: State, owner: Owners, i: nat, b: int)
    requires FsInv(st, owner) && i < INODES && st.inodes[i].Live()
    ensures var n, size := st.inodes[i].BlockCount(), st.inodes[i].size;
            && (FreeBlockAsWritten(st, i, NumberLeft(st.inodes[i])).Crashed? <==> (n == 8 || n == 72) && size == BLOCK_SIZE * n)
            && (b <= n ==> (FreeBlockAsWritten(st, i, b).Crashed? <==> (n == 8 || n == 72) && b == n))
  {
    assert Shape(st, i);
    FreeBlockCrashesIff(st, owner, i, NumberLeft(st.inodes[i]));
    FreeBlockCrashesIff(st, owner, i, b);
    hide FsInv, FreeBlockAsWritten;
  }

  lemma NothingFreed(st: State, i: nat, b: int)
    requires i < INODES && b < 0
    ensures FreeBlockAsWritten(st, i, b) == FreedTo(st, [])
  {
  }

  /** It releases everything that the file owns exactly when the file has no index block; otherwise
      the blocks that the single-indirect index lists are always lost. */
  lemma {:induction false} FreeBlockLeaksIff(st: State, owner: Owners, i: nat, b: int)
    requires FsInv(st, owner) && i < INODES && st.inodes[i].Live() && (b < 0 <==> st.inodes[i].BlockCount() == 0)
    ensures var n, r := st.inodes[i].BlockCount(), FreeBlockAsWritten(st, i, b);
            && ((forall c: nat :: OwnedBy(owner, c, i) ==> c in r.released) <==> n <= 8)
            && (forall c: nat :: OwnedBy(owner, c, i) && !Visited(owner[c].value) ==> c !in r.released)
  {
    hide FsInv, FreeBlockAsWritten, Walked;
    var n, r := st.inodes[i].BlockCount(), FreeBlockAsWritten(st, i, b);
    if b >= 0 {
      FreeBlockWalks(st, owner, i, b);
    } else {
      NothingFreed(st, i, b);
    }
    if n <= 8 {
      forall c: nat | OwnedBy(owner, c, i) ensures c in r.released {
        SmallFileRoles(st, owner, i, c);
      }
    } else {
      NinthBlock(st, owner, i);
      var c := At(st.inodes, st.disk, DataOf(i, 8)).n;
      assert OwnedBy(owner, c, i) && !Visited(owner[c].value);
    }
  }

  lemma SmallFileRoles(st: State, owner: Owners, i: nat, b: nat)
    requires FsInv(st, owner) && i < INODES && st.inodes[i].Live() && st.inodes[i].BlockCount() <= 8 && OwnedBy(owner, b, i)
    ensures var r := owner[b].value;
            r.DataOf? && DirectPart(st.inodes[i].BlockCount(), r.k) && st.inodes[i].loc[r.k] == Blk(b)
  {
    assert Shape(st, i);
    assert At(st.inodes, st.disk, owner[b].value) == Blk(b);
  }

  lemma NinthBlock(st: State, owner: Owners, i: nat)
    requires FsInv(st, owner) && i < INODES && st.inodes[i].Live() && st.inodes[i].BlockCount() > 8
    ensures var p := At(st.inodes, st.disk, DataOf(i, 8)); p.Blk? && p.n < SPACE && owner[p.n] == Some(DataOf(i, 8))
  {
    assert Shape(st, i);
    assert At(st.inodes, st.disk, DataOf(i, 8)).Blk?;
  }

  /**
   * As a whole it is right only for files without blocks: it returns to a state in which every block in use
   * has its owner exactly when the file has none. Otherwise location[0] goes on naming a free block, also
   * when the inode's number is used again, as allocate_inode leaves location[] as it is.
   */
  lemma {:induction false} FreeBlockRightIff(st: State, owner: Owners, i: nat, b: int)
    requires FsInv(st, owner) && i < INODES && st.inodes[i].Live() && (b < 0 <==> st.inodes[i].BlockCount() == 0)
    ensures var n, r := st.inodes[i].BlockCount(), FreeBlockAsWritten(st, i, b);
            && ((r.FreedTo? && exists owner1 :: OwnInv(r.st, owner1)) <==> n == 0)
            && (n == 0 ==> r.st == st == FreeBlock(st, i))
            && (n > 0 && r.FreedTo? ==>
                  var p := r.st.inodes[i].loc[0]; p.Blk? && p.n < SPACE && !r.st.bits[p.n] && r.st.disk[p.n] == Zero)
  {
    hide FreeBlockAsWritten;
    assert OwnInv(st, owner) && Shape(st, i);
    var n, r := st.inodes[i].BlockCount(), FreeBlockAsWritten(st, i, b);
    if b >= 0 {
      FreeBlockWalks(st, owner, i, b);
      assert DirectPart(n, 0);
      DirectOwned(st, owner, i, 0);
      if r.FreedTo? { StalePointer(r.st, i); }
    } else {
      NothingFreed(st, i, b);
    }
  }

  /** No ownership is left in which a pointer names a block that is free. */
  lemma StalePointer(s: State, i: nat)
    requires i < INODES && s.inodes[i].loc[0].Blk? && s.inodes[i].loc[0].n < SPACE && !s.bits[s.inodes[i].loc[0].n]
    ensures !exists owner1 :: OwnInv(s, owner1)
  {
    forall owner1: Owners ensures !OwnInv(s, owner1) {
      assert At(s.inodes, s.disk, DataOf(i, 0)) == s.inodes[i].loc[0];
    }
  }
}
