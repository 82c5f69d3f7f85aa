/** Releasing a file's blocks: exactly the blocks it owns, each once. */
module FreeBlocks {
  import opened Disk
  import opened Allocator
  import opened BlockIndex

  type BlockNo = b: nat | b < SPACE

  function DataRange(i: nat, lo: nat, hi: nat): (rs: seq<Role>)
    requires lo <= hi
    ensures |rs| == hi - lo && forall m :: 0 <= m < |rs| ==> rs[m] == DataOf(i, lo + m)
  {
    seq(hi - lo, m requires 0 <= m => DataOf(i, lo + m))
  }

  /** The roles below second-level indexes j, j+1, ... of a file of n blocks. */
  function DoubleRoles(i: nat, n: nat, j: nat): seq<Role>
    decreases 64 - j
  {
    if j < 64 && 72 + 64 * j < n then
      DataRange(i, 72 + 64 * j, Min(n, 136 + 64 * j)) + [SecondOf(i, j)] + DoubleRoles(i, n, j + 1)
    else []
  }

  /** All blocks of a file of n data blocks, in the order in which they are released. */
  function RolesOf(i: nat, n: nat): seq<Role> {
    DataRange(i, 0, Min(n, 8))
    + (if n > 8 then DataRange(i, 8, Min(n, 72)) + [SingleOf(i)] else [])
    + (if n > 72 then DoubleRoles(i, n, 0) + [DoubleOf(i)] else [])
  }

  /** The blocks a file of n data blocks needs, as Shape says. */
  predicate Needed(r: Role, n: nat) {
    match r
    case DataOf(_, k) => k < n
    case SingleOf(_) => n > 8
    case DoubleOf(_) => n > 72
    case SecondOf(_, j) => j < 64 && 72 + 64 * j < n
  }

  /** Below second-level index j or a later one. */
  predicate FromSecond(r: Role, j: nat) {
    if r.DataOf? then r.k >= 72 + 64 * j else r.SecondOf? && r.j >= j
  }

  ghost predicate NoDup<T>(s: seq<T>) {
    forall a, b :: 0 <= a < b < |s| ==> s[a] != s[b]
  }

  lemma NoDupShort<T>(s: seq<T>)
    requires |s| <= 1
    ensures NoDup(s)
  {
  }

  lemma NoDupConcat<T>(s: seq<T>, t: seq<T>)
    requires NoDup(s) && NoDup(t) && forall x :: x in s ==> x !in t
    ensures NoDup(s + t)
  {
    forall a, b | 0 <= a < b < |s + t| ensures (s + t)[a] != (s + t)[b] {
      if a < |s| <= b { assert (s + t)[a] in s && (s + t)[b] in t; }
    }
  }

  lemma DataRangeMembers(i: nat, lo: nat, hi: nat)
    requires lo <= hi
    ensures NoDup(DataRange(i, lo, hi))
    ensures forall r :: r in DataRange(i, lo, hi) <==> r.DataOf? && r.i == i && lo <= r.k < hi
  {
    forall r: Role | r.DataOf? && r.i == i && lo <= r.k < hi ensures r in DataRange(i, lo, hi) {
      assert DataRange(i, lo, hi)[r.k - lo] == r;
    }
  }

  lemma {:induction false} DoubleRolesMembers(i: nat, n: nat, j: nat)
    requires n <= MAX_BLOCKS && j <= 64
    ensures var rs := DoubleRoles(i, n, j);
            && NoDup(rs)
            && (forall r :: r in rs <==> (r.i == i && Needed(r, n) && FromSecond(r, j)))
            && |rs| == (if 72 + 64 * j < n then n - 72 - 64 * j + (n - 72 - 64 * j + 63) / 64 else 0)
    decreases 64 - j
  {
    hide NoDup;
    if j < 64 && 72 + 64 * j < n {
      var a := DataRange(i, 72 + 64 * j, Min(n, 136 + 64 * j));
      DataRangeMembers(i, 72 + 64 * j, Min(n, 136 + 64 * j));
      DoubleRolesMembers(i, n, j + 1);
      NoDupShort([SecondOf(i, j)]);
      NoDupConcat(a, [SecondOf(i, j)]);
      NoDupConcat(a + [SecondOf(i, j)], DoubleRoles(i, n, j + 1));
    } else {
      NoDupShort(DoubleRoles(i, n, j));
    }
  }

  /** A file of n data blocks owns just the blocks it needs, each once:
      n + [n > 8] + [n > 72] * (1 + ceil((n - 72) / 64)) of them. */
  lemma {:induction false} RolesOfExact(i: nat, n: nat)
    requires n <= MAX_BLOCKS
    ensures NoDup(RolesOf(i, n))
    ensures forall r :: r in RolesOf(i, n) <==> r.i == i && Needed(r, n)
    ensures |RolesOf(i, n)| == n + (if n > 8 then 1 else 0) + (if n > 72 then 1 + (n - 72 + 63) / 64 else 0)
    ensures |RolesOf(i, n)| <= 4234 <= SPACE
  {
    hide DataRange, DoubleRoles, NoDup;
    var a := DataRange(i, 0, Min(n, 8));
    var b := if n > 8 then DataRange(i, 8, Min(n, 72)) + [SingleOf(i)] else [];
    var c := if n > 72 then DoubleRoles(i, n, 0) + [DoubleOf(i)] else [];
    DataRangeMembers(i, 0, Min(n, 8));
    if n > 8 {
      DataRangeMembers(i, 8, Min(n, 72));
      NoDupShort([SingleOf(i)]);
      NoDupConcat(DataRange(i, 8, Min(n, 72)), [SingleOf(i)]);
    }
    DoubleRolesMembers(i, n, 0);
    if n > 72 {
      NoDupShort([DoubleOf(i)]);
      NoDupConcat(DoubleRoles(i, n, 0), [DoubleOf(i)]);
    }
    assert NoDup(b) by { if n <= 8 { NoDupShort(b); } }
    assert NoDup(c) by { if n <= 72 { NoDupShort(c); } }
    NoDupConcat(a, b);
    NoDupConcat(a + b, c);
    assert RolesOf(i, n) == a + b + c;
  }

  /** The blocks playing the roles `rs`. */
  function BlocksOf(st: State, rs: seq<Role>): seq<BlockNo>
    requires forall r :: r in rs ==> InRange(r)
  {
    if rs == [] then []
    else
      var p := At(st.inodes, st.disk, rs[0]);
      (if p.Blk? && p.n < SPACE then [p.n] else []) + BlocksOf(st, rs[1..])
  }

  function ReleaseAll(st: State, bs: seq<BlockNo>): State
    decreases |bs|
  {
    if bs == [] then st else ReleaseAll(ReleaseBlock(st, bs[0]), bs[1..])
  }

  lemma RolesInRange(i: nat, n: nat)
    requires i < INODES && n <= MAX_BLOCKS
    ensures forall r :: r in RolesOf(i, n) ==> InRange(r)
  {
    RolesOfExact(i, n);
  }

  function Emptied(st: State, i: nat): State
    requires i < INODES
  {
    st.(inodes := st.inodes[i := st.inodes[i].(loc := NO_LOCS, size := 0, blockNumber := -1, lastOffset := 0)])
  }

  /** free_block with its walk repaired: data and index blocks of every level are zeroed and
      released, and the inode is left without content. */
  function FreeBlock(st: State, i: nat): State
    requires i < INODES
  {
    var n := st.inodes[i].blockNumber + 1;
    if n <= 0 || n > MAX_BLOCKS then st
    else
      RolesInRange(i, n);
      Emptied(ReleaseAll(st, BlocksOf(st, RolesOf(i, n))), i)
  }

  lemma {:induction false} BlocksOfRoles(st: State, owner: Owners, rs: seq<Role>)
    requires OwnInv(st, owner) && NoDup(rs)
    requires forall r :: r in rs ==> InRange(r) && At(st.inodes, st.disk, r).Blk?
    ensures var bs := BlocksOf(st, rs);
            && |bs| == |rs| && NoDup(bs)
            && (forall b: BlockNo :: b in bs <==> (owner[b].Some? && owner[b].value in rs))
    decreases |rs|
  {
    if rs != [] {
      BlocksOfRoles(st, owner, rs[1..]);
      var b := At(st.inodes, st.disk, rs[0]).n;
      assert owner[b] == Some(rs[0]);
      assert rs == [rs[0]] + rs[1..];
      NoDupConcat([b], BlocksOf(st, rs[1..]));
    }
  }

  lemma {:induction false} ReleaseAllExact(st: State, bs: seq<BlockNo>)
    requires AllocInv(st) && NoDup(bs) && forall m :: 0 <= m < |bs| ==> st.bits[bs[m]]
    ensures var st1 := ReleaseAll(st, bs);
            && AllocInv(st1) && st1.inodes == st.inodes
            && st1.freeInodes == st.freeInodes && st1.firstInode == st.firstInode
            && st1.freeBlocks == st.freeBlocks + |bs|
            && (forall b :: 0 <= b < BITMAP_BITS ==> st1.bits[b] == (st.bits[b] && b !in bs))
            && (forall b :: 0 <= b < SPACE ==> st1.disk[b] == if b in bs then Zero else st.disk[b])
    decreases |bs|
  {
    if bs != [] {
      ReleaseBlockKeepsInv(st, bs[0]);
      assert bs == [bs[0]] + bs[1..];
      ReleaseAllExact(ReleaseBlock(st, bs[0]), bs[1..]);
    }
  }

  ghost function Disown(owner: Owners, i: nat): Owners {
    seq(SPACE, b requires 0 <= b < SPACE =>
      if owner[b].Some? && owner[b].value.i == i then None else owner[b])
  }

  lemma {:induction false} OwnedBlocks(st: State, owner: Owners, i: nat)
    requires FsInv(st, owner) && i < INODES
    ensures var n := st.inodes[i].BlockCount();
            && 0 <= n <= MAX_BLOCKS
            && (forall r :: InRange(r) && r.i == i ==> (At(st.inodes, st.disk, r).Blk? <==> r in RolesOf(i, n)))
            && (forall r :: r in RolesOf(i, n) ==> InRange(r))
            && |BlocksOf(st, RolesOf(i, n))| == |RolesOf(i, n)| && NoDup(BlocksOf(st, RolesOf(i, n)))
            && (forall b: BlockNo :: b in BlocksOf(st, RolesOf(i, n)) <==> (owner[b].Some? && owner[b].value.i == i))
  {
    assert Shape(st, i);
    var n := st.inodes[i].BlockCount();
    hide RolesOf;
    RolesOfExact(i, n);
    forall r | InRange(r) && r.i == i ensures At(st.inodes, st.disk, r).Blk? <==> Needed(r, n) {}
    BlocksOfRoles(st, owner, RolesOf(i, n));
    hide BlocksOf;
    forall b: BlockNo ensures b in BlocksOf(st, RolesOf(i, n)) <==> (owner[b].Some? && owner[b].value.i == i) {
      if owner[b].Some? { assert At(st.inodes, st.disk, owner[b].value) == Blk(b); }
    }
  }

  /** The blocks of the other inodes: where they are and what they hold. */
  ghost predicate SameElsewhere(st: State, st1: State, i: nat) {
    forall r :: InRange(r) && r.i != i ==>
      && At(st1.inodes, st1.disk, r) == At(st.inodes, st.disk, r)
      && (At(st.inodes, st.disk, r).Blk? && At(st.inodes, st.disk, r).n < SPACE ==>
            st1.disk[At(st.inodes, st.disk, r).n] == st.disk[At(st.inodes, st.disk, r).n])
  }

  lemma {:induction false} ReleasedElsewhere(st: State, owner: Owners, st1: State, i: nat, r: Role)
    requires OwnInv(st, owner) && i < INODES && InRange(r) && r.i != i
    requires st1.inodes[r.i].loc == st.inodes[r.i].loc
    requires forall b: BlockNo :: owner[b].Some? && owner[b].value.i != i ==> st1.disk[b] == st.disk[b]
    ensures At(st1.inodes, st1.disk, r) == At(st.inodes, st.disk, r)
    ensures At(st.inodes, st.disk, r).Blk? ==>
              st1.disk[At(st.inodes, st.disk, r).n] == st.disk[At(st.inodes, st.disk, r).n]
    decreases if InInode(r) then 0 else if r.SecondOf? then 1 else 2
  {
    if !InInode(r) {
      ContainerIsRole(st.inodes, st.disk, r);
      ContainerIsRole(st1.inodes, st1.disk, r);
      ReleasedElsewhere(st, owner, st1, i, ContainerRole(r));
    }
  }

  lemma BitsAreOwned(st: State, owner: Owners)
    requires FsInv(st, owner)
    ensures AllocInv(st)
    ensures forall b: BlockNo :: (st.bits[b] <==> owner[b].Some?) && (owner[b].None? ==> st.disk[b] == Zero)
  {
  }

  /** `st1` is `st` with inode `i`'s blocks released. */
  ghost predicate Released(st: State, owner: Owners, st1: State, i: nat)
    requires i < INODES
  {
    && AllocInv(st1)
    && st1.inodes == st.inodes[i := st.inodes[i].(loc := NO_LOCS, size := 0, blockNumber := -1, lastOffset := 0)]
    && (forall b: BlockNo :: st1.bits[b] == Disown(owner, i)[b].Some?)
    && (forall b: BlockNo :: st1.disk[b] == if Disown(owner, i)[b].Some? then st.disk[b] else Zero)
  }

  lemma {:induction false} ReleaseAllReleases(st: State, owner: Owners, i: nat)
    requires FsInv(st, owner) && i < INODES && st.inodes[i].Live() && st.inodes[i].blockNumber >= 0
    ensures Released(st, owner, FreeBlock(st, i), i)
    ensures FreeBlock(st, i).freeBlocks == st.freeBlocks + |RolesOf(i, st.inodes[i].BlockCount())|
    ensures FreeBlock(st, i).freeInodes == st.freeInodes && FreeBlock(st, i).firstInode == st.firstInode
  {
    hide RolesOf, BlocksOf, ReleaseAll, At, FsInv;
    BitsAreOwned(st, owner);
    OwnedBlocks(st, owner, i);
    var bs := BlocksOf(st, RolesOf(i, st.inodes[i].BlockCount()));
    forall m | 0 <= m < |bs| ensures st.bits[bs[m]] { assert bs[m] in bs; }
    ReleaseAllExact(st, bs);
  }

  lemma {:induction false} ReleasedKeepsInv(st: State, owner: Owners, st1: State, i: nat)
    requires FsInv(st, owner) && i < INODES && st.inodes[i].Live() && Released(st, owner, st1, i)
    ensures FsInv(st1, Disown(owner, i)) && SameElsewhere(st, st1, i)
  {
    forall r | InRange(r) && r.i != i
      ensures At(st1.inodes, st1.disk, r) == At(st.inodes, st.disk, r)
      ensures At(st.inodes, st.disk, r).Blk? ==>
                st1.disk[At(st.inodes, st.disk, r).n] == st.disk[At(st.inodes, st.disk, r).n] {
      ReleasedElsewhere(st, owner, st1, i, r);
    }
    forall r | InRange(r) && r.i == i ensures At(st1.inodes, st1.disk, r) == Null {}
    ReleasedOwners(st, owner, st1, i);
    hide At, OwnInv;
    forall i' | 0 <= i' < INODES ensures Shape(st1, i') {
      assert Shape(st, i');
      if i' != i { ShapeFrame(st, st1, i'); }
    }
  }

  lemma {:induction false} ReleasedOwners(st: State, owner: Owners, st1: State, i: nat)
    requires OwnInv(st, owner) && i < INODES && Released(st, owner, st1, i) && SameElsewhere(st, st1, i)
    requires forall r :: InRange(r) && r.i == i ==> At(st1.inodes, st1.disk, r) == Null
    ensures OwnInv(st1, Disown(owner, i))
  {
    hide At;
    var owner1 := Disown(owner, i);
    forall r | InRange(r) && At(st1.inodes, st1.disk, r).Blk?
      ensures At(st1.inodes, st1.disk, r).n < SPACE && owner1[At(st1.inodes, st1.disk, r).n] == Some(r) {
      assert At(st.inodes, st.disk, r) == At(st1.inodes, st1.disk, r);
    }
    forall b | 0 <= b < SPACE && owner1[b].Some?
      ensures InRange(owner1[b].value) && At(st1.inodes, st1.disk, owner1[b].value) == Blk(b) {
      assert At(st.inodes, st.disk, owner[b].value) == Blk(b);
    }
  }

  /** Releasing a file clears the bits of exactly the blocks it owned and zeroes them;
      every other file keeps its blocks and their contents. */
  lemma {:induction false} FreeBlockReleases(st: State, owner: Owners, i: nat)
    requires FsInv(st, owner) && i < INODES && st.inodes[i].Live()
    ensures var st1 := FreeBlock(st, i);
            && FsInv(st1, Disown(owner, i)) && SameElsewhere(st, st1, i)
            && (forall b: BlockNo :: st1.bits[b] <==> st.bits[b] && owner[b].value.i != i)
            && (forall b: BlockNo :: st.bits[b] && !st1.bits[b] ==> st1.disk[b] == Zero)
            && st1.inodes == st.inodes[i := st1.inodes[i]]
            && st1.inodes[i] == st.inodes[i].(loc := st1.inodes[i].loc, size := 0, blockNumber := -1,
                                              lastOffset := st1.inodes[i].lastOffset)
            && st1.freeInodes == st.freeInodes && st1.firstInode == st.firstInode
            && st1.freeBlocks == st.freeBlocks + |RolesOf(i, st.inodes[i].BlockCount())|
  {
    assert Shape(st, i);
    if st.inodes[i].blockNumber >= 0 {
      ReleaseAllReleases(st, owner, i);
      ReleasedKeepsInv(st, owner, FreeBlock(st, i), i);
      assert OwnInv(st, owner);
      hide FreeBlock, At, SameElsewhere;
    } else {
      NothingOwned(st, owner, i);
    }
  }

  lemma NothingOwned(st: State, owner: Owners, i: nat)
    requires FsInv(st, owner) && i < INODES && st.inodes[i].BlockCount() == 0
    ensures Disown(owner, i) == owner && RolesOf(i, 0) == []
    ensures forall b: BlockNo :: owner[b].Some? ==> owner[b].value.i != i
  {
    assert Shape(st, i);
    forall b: BlockNo | owner[b].Some? ensures owner[b].value.i != i {
      assert At(st.inodes, st.disk, owner[b].value) == Blk(b);
    }
  }

  /** `s` is `st` with the blocks of the roles `done` released. */
  ghost predicate ReleasedTo(st: State, owner: Owners, done: seq<Role>, s: State) {
    && FsInv(st, owner) && NoDup(done)
    && (forall r :: r in done ==> InRange(r) && At(st.inodes, st.disk, r).Blk?)
    && s == ReleaseAll(st, BlocksOf(st, done))
  }

  ghost predicate Unreleased(st: State, done: seq<Role>, r: Role) {
    InRange(r) && At(st.inodes, st.disk, r).Blk? && r !in done
  }

  lemma {:induction false} ReleaseAllAppend(st: State, bs: seq<BlockNo>, b: BlockNo)
    ensures ReleaseAll(st, bs + [b]) == ReleaseBlock(ReleaseAll(st, bs), b)
    decreases |bs|
  {
    if bs == [] {
      assert ReleaseAll(ReleaseBlock(st, b), [b][1..]) == ReleaseBlock(st, b);
    } else {
      assert (bs + [b])[1..] == bs[1..] + [b];
      ReleaseAllAppend(ReleaseBlock(st, bs[0]), bs[1..], b);
    }
  }

  lemma {:induction false} BlocksOfAppend(st: State, rs: seq<Role>, r: Role)
    requires (forall r' :: r' in rs ==> InRange(r')) && InRange(r)
    requires At(st.inodes, st.disk, r).Blk? && At(st.inodes, st.disk, r).n < SPACE
    ensures BlocksOf(st, rs + [r]) == BlocksOf(st, rs) + [At(st.inodes, st.disk, r).n]
    decreases |rs|
  {
    if rs != [] {
      assert (rs + [r])[1..] == rs[1..] + [r];
      BlocksOfAppend(st, rs[1..], r);
    } else {
      assert BlocksOf(st, [r][1..]) == [];
    }
  }

  /** Releasing one more role's block; until then that block is as it was. */
  lemma {:induction false} ReleaseMore(st: State, owner: Owners, done: seq<Role>, r: Role, s: State)
    requires ReleasedTo(st, owner, done, s) && Unreleased(st, done, r)
    ensures var b := At(st.inodes, st.disk, r).n;
            b < SPACE && s.inodes == st.inodes && s.disk[b] == st.disk[b]
            && ReleasedTo(st, owner, done + [r], ReleaseBlock(s, b))
  {
    var b := At(st.inodes, st.disk, r).n;
    assert owner[b] == Some(r);
    BlocksOfRoles(st, owner, done);
    var bs := BlocksOf(st, done);
    forall m | 0 <= m < |bs| ensures st.bits[bs[m]] { assert bs[m] in bs; }
    ReleaseAllExact(st, bs);
    BlocksOfAppend(st, done, r);
    ReleaseAllAppend(st, bs, b);
    NoDupConcat(done, [r]);
  }

  /** `r` is the index block of inode i's data blocks lo, lo + 1, ...; none of them is released. */
  ghost predicate IndexOf(st: State, i: nat, lo: nat, done: seq<Role>, r: Role) {
    && i < INODES && InRange(r) && r !in done && lo < st.inodes[i].BlockCount()
    && ((r == SingleOf(i) && lo == 8) || (r.SecondOf? && r.i == i && lo == 72 + 64 * r.j))
    && forall k: nat :: lo <= k ==> DataOf(i, k) !in done
  }

  lemma ReleasedShape(st: State, owner: Owners, done: seq<Role>, s: State, i: nat)
    requires ReleasedTo(st, owner, done, s) && i < INODES
    ensures Shape(st, i)
  {
  }

  lemma {:induction false} IndexEntry(st: State, i: nat, lo: nat, done: seq<Role>, r: Role, k: nat)
    requires k < 64 && IndexOf(st, i, lo, done, r) && lo + k <= st.inodes[i].BlockCount() && Shape(st, i)
    ensures At(st.inodes, st.disk, r).Blk?
    ensures var p := Entries(st.disk, At(st.inodes, st.disk, r))[k];
            && (p.Blk? <==> lo + k < st.inodes[i].BlockCount())
            && (p.Blk? ==> InRange(DataOf(i, lo + k)) && p == At(st.inodes, st.disk, DataOf(i, lo + k)))
  {
    if lo + k < MAX_BLOCKS {
      assert ContainerRole(DataOf(i, lo + k)) == r && SlotIndex(DataOf(i, lo + k)) == k;
      ContainerIsRole(st.inodes, st.disk, DataOf(i, lo + k));
      assert At(st.inodes, st.disk, DataOf(i, lo + k)).Blk? <==> lo + k < st.inodes[i].BlockCount();
    }
  }

  /** The k-th entry of the index block: the next block to release, NULL at the file's end. */
  lemma {:induction false} IndexStep(st: State, owner: Owners, i: nat, lo: nat, done: seq<Role>, r: Role, k: nat, s: State)
    requires k < 64 && IndexOf(st, i, lo, done, r) && lo + k <= st.inodes[i].BlockCount()
    requires ReleasedTo(st, owner, done + DataRange(i, lo, lo + k), s)
    ensures var c := At(st.inodes, st.disk, r);
            c.Blk? && c.n < SPACE
            && var p := PtrsOf(s.disk[c.n])[k];
            && (lo + k == st.inodes[i].BlockCount() <==> p.Null?)
            && (p.Blk? ==> InRange(DataOf(i, lo + k)) && p == At(st.inodes, st.disk, DataOf(i, lo + k))
                           && Unreleased(st, done + DataRange(i, lo, lo + k), DataOf(i, lo + k)))
    ensures done + DataRange(i, lo, lo + k) + [DataOf(i, lo + k)] == done + DataRange(i, lo, lo + k + 1)
  {
    hide ReleasedTo, At, Shape;
    ReleasedShape(st, owner, done + DataRange(i, lo, lo + k), s, i);
    IndexEntry(st, i, lo, done, r, k);
    DataRangeMembers(i, lo, lo + k);
    assert DataRange(i, lo, lo + k) + [DataOf(i, lo + k)] == DataRange(i, lo, lo + k + 1);
    hide DataRange, IndexOf;
    ReleaseMore(st, owner, done + DataRange(i, lo, lo + k), r, s);
  }

  /** After the walk only the index block itself is left to release. */
  lemma IndexEnd(st: State, owner: Owners, i: nat, lo: nat, done: seq<Role>, r: Role, hi: nat, s: State)
    requires IndexOf(st, i, lo, done, r) && lo <= hi && ReleasedTo(st, owner, done + DataRange(i, lo, hi), s)
    ensures Unreleased(st, done + DataRange(i, lo, hi), r)
  {
    DataRangeMembers(i, lo, hi);
    assert Shape(st, i);
  }

  lemma NothingReleased(st: State, owner: Owners, i: nat)
    requires FsInv(st, owner)
    ensures ReleasedTo(st, owner, DataRange(i, 0, 0), st)
  {
    assert DataRange(i, 0, 0) == [] && BlocksOf(st, []) == [] && ReleaseAll(st, []) == st;
  }

  lemma {:induction false} DirectStep(st: State, owner: Owners, i: nat, k: nat, s: State)
    requires i < INODES && k < 8 && k <= st.inodes[i].BlockCount() && ReleasedTo(st, owner, DataRange(i, 0, k), s)
    ensures At(st.inodes, st.disk, DataOf(i, k)) == st.inodes[i].loc[k]
    ensures st.inodes[i].loc[k].Blk? <==> k < st.inodes[i].BlockCount()
    ensures st.inodes[i].loc[k].Blk? ==> Unreleased(st, DataRange(i, 0, k), DataOf(i, k))
    ensures DataRange(i, 0, k) + [DataOf(i, k)] == DataRange(i, 0, k + 1)
  {
    ReleasedShape(st, owner, DataRange(i, 0, k), s, i);
    hide ReleasedTo;
    DataRangeMembers(i, 0, k);
    assert At(st.inodes, st.disk, DataOf(i, k)).Blk? <==> k < st.inodes[i].BlockCount();
  }

  /** `prefix` lists the roles below second-level indexes 0..j-1. */
  ghost predicate SecondPrefix(i: nat, n: nat, j: nat, prefix: seq<Role>) {
    && j <= 64 && prefix + DoubleRoles(i, n, j) == DoubleRoles(i, n, 0)
    && forall r :: r in prefix ==> (r.DataOf? && 72 <= r.k < 72 + 64 * j) || (r.SecondOf? && r.j < j)
  }

  /** `done` has nothing at the double-indirect level. */
  ghost predicate BelowDouble(i: nat, done: seq<Role>) {
    forall r :: r in done ==> (r.DataOf? && r.k < 72) || r.SingleOf?
  }

  lemma NoSeconds(i: nat, n: nat)
    ensures SecondPrefix(i, n, 0, [])
  {
    assert [] + DoubleRoles(i, n, 0) == DoubleRoles(i, n, 0);
  }

  ghost function NextPrefix(i: nat, n: nat, j: nat, prefix: seq<Role>): seq<Role>
    requires 72 + 64 * j < n
  {
    prefix + (DataRange(i, 72 + 64 * j, Min(n, 136 + 64 * j)) + [SecondOf(i, j)])
  }

  /** The j-th entry of the double-indirect index: the next second-level index to release. */
  lemma {:induction false} SecondStep(st: State, owner: Owners, i: nat, j: nat, done: seq<Role>, prefix: seq<Role>, s: State)
    requires i < INODES && j < 64 && st.inodes[i].BlockCount() > 72 && BelowDouble(i, done)
    requires SecondPrefix(i, st.inodes[i].BlockCount(), j, prefix) && ReleasedTo(st, owner, done + prefix, s)
    ensures var c, n := st.inodes[i].loc[9], st.inodes[i].BlockCount();
            c.Blk? && c.n < SPACE
            && var p := PtrsOf(s.disk[c.n])[j];
            && (p.Null? <==> n <= 72 + 64 * j)
            && (p.Blk? ==> p == At(st.inodes, st.disk, SecondOf(i, j)) && IndexOf(st, i, 72 + 64 * j, done + prefix, SecondOf(i, j))
                           && SecondPrefix(i, n, j + 1, NextPrefix(i, n, j, prefix)))
    ensures var n := st.inodes[i].BlockCount();
            72 + 64 * j < n ==>
              done + prefix + DataRange(i, 72 + 64 * j, Min(n, 72 + 64 * j + 64)) + [SecondOf(i, j)]
              == done + NextPrefix(i, n, j, prefix)
  {
    hide ReleasedTo, DataRange, DoubleRoles;
    var n := st.inodes[i].BlockCount();
    ReleasedShape(st, owner, done + prefix, s, i);
    SecondOfShape(st, i, j);
    hide At, Shape;
    ReleaseMore(st, owner, done + prefix, DoubleOf(i), s);
    if 72 + 64 * j < n {
      PrefixGrows(i, n, j, prefix);
      var a, b, c, d := done, prefix, DataRange(i, 72 + 64 * j, Min(n, 136 + 64 * j)), [SecondOf(i, j)];
      assert a + b + c + d == a + (b + (c + d));
    }
  }

  lemma SecondOfShape(st: State, i: nat, j: nat)
    requires i < INODES && j < 64 && Shape(st, i)
    ensures At(st.inodes, st.disk, SecondOf(i, j)) == Entries(st.disk, st.inodes[i].loc[9])[j]
    ensures At(st.inodes, st.disk, SecondOf(i, j)).Blk? <==> 72 + 64 * j < st.inodes[i].BlockCount()
    ensures At(st.inodes, st.disk, DoubleOf(i)) == st.inodes[i].loc[9]
    ensures st.inodes[i].loc[9].Blk? <==> 72 < st.inodes[i].BlockCount()
  {
    assert At(st.inodes, st.disk, DoubleOf(i)) == st.inodes[i].loc[9];
  }

  lemma {:induction false} PrefixGrows(i: nat, n: nat, j: nat, prefix: seq<Role>)
    requires j < 64 && 72 + 64 * j < n && SecondPrefix(i, n, j, prefix)
    ensures SecondPrefix(i, n, j + 1, NextPrefix(i, n, j, prefix))
  {
    var m := DataRange(i, 72 + 64 * j, Min(n, 136 + 64 * j)) + [SecondOf(i, j)];
    DataRangeMembers(i, 72 + 64 * j, Min(n, 136 + 64 * j));
    hide DataRange;
    assert DoubleRoles(i, n, j) == m + DoubleRoles(i, n, j + 1);
    hide DoubleRoles;
    assert prefix + (m + DoubleRoles(i, n, j + 1)) == prefix + m + DoubleRoles(i, n, j + 1);
    forall r | r in prefix + m ensures (r.DataOf? && 72 <= r.k < 72 + 64 * (j + 1)) || (r.SecondOf? && r.j < j + 1) {}
  }

  /** After the walk all second-level roles are released and the root index is not. */
  lemma SecondEnd(st: State, owner: Owners, i: nat, j: nat, done: seq<Role>, prefix: seq<Role>, s: State)
    requires i < INODES && j <= 64 && st.inodes[i].BlockCount() > 72 && BelowDouble(i, done)
    requires SecondPrefix(i, st.inodes[i].BlockCount(), j, prefix) && ReleasedTo(st, owner, done + prefix, s)
    requires j < 64 ==> st.inodes[i].BlockCount() <= 72 + 64 * j
    ensures prefix == DoubleRoles(i, st.inodes[i].BlockCount(), 0)
    ensures Unreleased(st, done + prefix, DoubleOf(i)) && At(st.inodes, st.disk, DoubleOf(i)) == st.inodes[i].loc[9]
    ensures done + prefix + [DoubleOf(i)] == done + (prefix + [DoubleOf(i)])
  {
    ReleasedShape(st, owner, done + prefix, s, i);
    hide ReleasedTo;
    assert DoubleRoles(i, st.inodes[i].BlockCount(), j) == [];
  }

  /** How free_block's walk is laid out over the three levels. */
  lemma {:induction false} LevelsOf(st: State, owner: Owners, i: nat)
    requires FsInv(st, owner) && i < INODES && st.inodes[i].Live() && st.inodes[i].blockNumber >= 0
    ensures var n := st.inodes[i].BlockCount();
            var d0 := DataRange(i, 0, Min(n, 8));
            var d1 := if n > 8 then d0 + DataRange(i, 8, Min(n, 72)) + [SingleOf(i)] else d0;
            && 1 <= n <= MAX_BLOCKS
            && (n > 8 ==> IndexOf(st, i, 8, d0, SingleOf(i)) && At(st.inodes, st.disk, SingleOf(i)) == st.inodes[i].loc[8]
                          && st.inodes[i].loc[8].Blk?)
            && (n > 72 ==> st.inodes[i].loc[9].Blk? && BelowDouble(i, d1))
            && RolesOf(i, n) == (if n <= 8 then d0 else if n <= 72 then d1
                                 else d1 + (DoubleRoles(i, n, 0) + [DoubleOf(i)]))
  {
    InvShapeOf(st, owner, i);
    hide FsInv;
    var n := st.inodes[i].BlockCount();
    assert At(st.inodes, st.disk, SingleOf(i)) == st.inodes[i].loc[8];
    assert At(st.inodes, st.disk, DoubleOf(i)) == st.inodes[i].loc[9];
    DataRangeMembers(i, 0, Min(n, 8));
    if n > 8 { DataRangeMembers(i, 8, Min(n, 72)); }
    hide DataRange, DoubleRoles;
    var d0 := DataRange(i, 0, Min(n, 8));
    if n > 8 { assert d0 + (DataRange(i, 8, Min(n, 72)) + [SingleOf(i)]) == d0 + DataRange(i, 8, Min(n, 72)) + [SingleOf(i)]; }
  }

  lemma InvShapeOf(st: State, owner: Owners, i: nat)
    requires FsInv(st, owner) && i < INODES
    ensures Shape(st, i)
  {
  }

  lemma AllReleased(st: State, owner: Owners, i: nat, s: State)
    requires i < INODES && st.inodes[i].Live() && 0 <= st.inodes[i].blockNumber < MAX_BLOCKS
    requires ReleasedTo(st, owner, RolesOf(i, st.inodes[i].BlockCount()), s)
    ensures FreeBlock(st, i) == Emptied(s, i)
  {
  }
}
