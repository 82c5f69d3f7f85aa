/** Who owns which block: growing a file by one block, through the index levels. */
module BlockIndex {
  import opened Disk
  import opened Allocator

  type Owners = s: seq<Option<Role>> | |s| == SPACE witness Repeat(None, 7931)

  /** `owner` inverts `At`: every block in use plays exactly one role, every role's block
      is marked in the bitmap, no marked block is without a role, and free blocks are zero. */
  ghost predicate OwnInv(st: State, owner: Owners) {
    && AllocInv(st)
    && (forall r :: InRange(r) && At(st.inodes, st.disk, r).Blk? ==>
          At(st.inodes, st.disk, r).n < SPACE && owner[At(st.inodes, st.disk, r).n] == Some(r))
    && (forall b :: 0 <= b < SPACE && owner[b].Some? ==>
          InRange(owner[b].value) && At(st.inodes, st.disk, owner[b].value) == Blk(b))
    && (forall b :: 0 <= b < SPACE ==> (st.bits[b] <==> owner[b].Some?))
    && (forall b :: 0 <= b < SPACE ==> TypeOk(st.disk[b], owner[b]))
  }

  predicate TypeOk(b: Block, r: Option<Role>) {
    if r.None? then b.Zero? else if r.value.DataOf? then !b.Index? else !b.Data?
  }

  /** The pointer array that holds role `r`'s slot: NULL when the slot is in the inode. */
  function Container(inodes: InodeTable, disk: Space, r: Role): Ptr
    requires InRange(r)
  {
    match r
    case SingleOf(_) => Null
    case DoubleOf(_) => Null
    case SecondOf(i, _) => inodes[i].loc[9]
    case DataOf(i, k) =>
      if k < 8 then Null else if k < 72 then inodes[i].loc[8]
      else Second(inodes[i].loc, disk, (k - 72) / 64)
  }

  predicate InInode(r: Role) {
    r.SingleOf? || r.DoubleOf? || (r.DataOf? && r.k < 8)
  }

  /** Index of role `r`'s slot in its pointer array. */
  function SlotIndex(r: Role): nat
    requires InRange(r)
    ensures InInode(r) ==> SlotIndex(r) < 10
    ensures !InInode(r) ==> SlotIndex(r) < 64
  {
    match r
    case SingleOf(_) => 8
    case DoubleOf(_) => 9
    case SecondOf(_, j) => j
    case DataOf(_, k) => if k < 8 then k else if k < 72 then k - 8 else (k - 72) % 64
  }

  predicate HasSlot(st: State, r: Role)
    requires InRange(r)
  {
    InInode(r) || (Container(st.inodes, st.disk, r).Blk? && Container(st.inodes, st.disk, r).n < SPACE)
  }

  function SetPtr(disk: Space, c: nat, j: nat, p: Ptr): Space
    requires c < SPACE && j < 64
  {
    disk[c := Index(PtrsOf(disk[c])[j := p])]
  }

  /** Store `p` in role `r`'s slot. */
  function SetSlot(st: State, r: Role, p: Ptr): State
    requires InRange(r) && HasSlot(st, r)
  {
    if InInode(r) then
      st.(inodes := st.inodes[r.i := st.inodes[r.i].(loc := st.inodes[r.i].loc[SlotIndex(r) := p])])
    else
      st.(disk := SetPtr(st.disk, Container(st.inodes, st.disk, r).n, SlotIndex(r), p))
  }

  /** The index block role `r`'s slot lies in, as a role. */
  function ContainerRole(r: Role): Role
    requires InRange(r) && !InInode(r)
    ensures InRange(ContainerRole(r))
  {
    if r.SecondOf? then DoubleOf(r.i) else if r.k < 72 then SingleOf(r.i) else SecondOf(r.i, (r.k - 72) / 64)
  }

  lemma ContainerIsRole(inodes: InodeTable, disk: Space, r: Role)
    requires InRange(r) && !InInode(r)
    ensures At(inodes, disk, ContainerRole(r)) == Container(inodes, disk, r)
    ensures At(inodes, disk, r) == Entries(disk, Container(inodes, disk, r))[SlotIndex(r)]
  {
  }

  /** Where a file's block is listed: in the inode, in the single-indirect index, or in one of the 64
      second-level indexes. */
  datatype BlockSlot = Direct(k: nat) | Single(k: nat) | Double(j: nat, k: nat)

  predicate ValidSlot(s: BlockSlot) {
    match s
    case Direct(k) => k < 8
    case Single(k) => k < 64
    case Double(j, k) => j < 64 && k < 64
  }

  function SlotOf(k: nat): BlockSlot {
    if k < 8 then Direct(k) else if k < 72 then Single(k - 8) else Double((k - 72) / 64, (k - 72) % 64)
  }

  function BlockOf(s: BlockSlot): nat {
    match s
    case Direct(k) => k
    case Single(k) => 8 + k
    case Double(j, k) => 72 + 64 * j + k
  }

  /** The pointer in a slot. */
  function PointerIn(loc: Locs, disk: Space, s: BlockSlot): Ptr
    requires ValidSlot(s)
  {
    match s
    case Direct(k) => loc[k]
    case Single(k) => Entries(disk, loc[8])[k]
    case Double(j, k) => Entries(disk, Second(loc, disk, j))[k]
  }

  /** The block numbers 0..4167 and the slots correspond one to one, and a block is looked up in its slot. */
  lemma SlotsBijective(k: nat, s: BlockSlot, loc: Locs, disk: Space)
    ensures k < MAX_BLOCKS ==> ValidSlot(SlotOf(k)) && BlockOf(SlotOf(k)) == k
                               && Lookup(loc, disk, k) == PointerIn(loc, disk, SlotOf(k))
    ensures ValidSlot(s) ==> BlockOf(s) < MAX_BLOCKS && SlotOf(BlockOf(s)) == s
                             && Lookup(loc, disk, BlockOf(s)) == PointerIn(loc, disk, s)
  {
    if s.Double? && ValidSlot(s) {
      assert BlockOf(s) - 72 == 64 * s.j + s.k;
      assert (64 * s.j + s.k) / 64 == s.j && (64 * s.j + s.k) % 64 == s.k;
    }
  }

  /** Two roles share a slot only if they are the same role. */
  lemma SlotsDiffer(r: Role, r': Role)
    requires InRange(r) && InRange(r') && !InInode(r) && !InInode(r')
    requires ContainerRole(r) == ContainerRole(r') && SlotIndex(r) == SlotIndex(r')
    ensures r == r'
  {
  }

  lemma {:induction false} InodeSlotFrame(st: State, r: Role, nb: nat, r': Role)
    requires InRange(r) && InRange(r') && InInode(r) && r' != r
    requires At(st.inodes, st.disk, r) == Null && nb < SPACE && st.disk[nb].Zero?
    ensures var st1 := SetSlot(st, r, Blk(nb)); At(st1.inodes, st1.disk, r') == At(st.inodes, st.disk, r')
  {
    assert Entries(st.disk, Blk(nb)) == Entries(st.disk, Null);
  }

  /** No role's block changes when a pointer array outside its path changes; `nb`, the
      block whose address is stored, reads as an empty array. */
  lemma {:induction false} IndexSlotFrame(st: State, owner: Owners, r: Role, nb: nat, r': Role)
    requires OwnInv(st, owner) && InRange(r) && HasSlot(st, r) && InRange(r') && !InInode(r) && r' != r
    requires At(st.inodes, st.disk, r) == Null && nb < SPACE && owner[nb] == None
    ensures var st1 := SetSlot(st, r, Blk(nb)); At(st1.inodes, st1.disk, r') == At(st.inodes, st.disk, r')
    decreases if InInode(r') then 0 else if r'.SecondOf? then 1 else 2
  {
    var st1 := SetSlot(st, r, Blk(nb));
    if !InInode(r') {
      var rc, rc' := ContainerRole(r), ContainerRole(r');
      ContainerIsRole(st.inodes, st.disk, r);
      ContainerIsRole(st.inodes, st.disk, r');
      ContainerIsRole(st1.inodes, st1.disk, r');
      var c := Container(st.inodes, st.disk, r);
      assert owner[c.n] == Some(rc);
      if rc' == r {
        IndexSlotSelf(st, owner, r, nb);
      } else {
        IndexSlotFrame(st, owner, r, nb, rc');
        var c' := At(st.inodes, st.disk, rc');
        if c' == c {
          assert owner[c'.n] == Some(rc');
          if SlotIndex(r') == SlotIndex(r) { SlotsDiffer(r, r'); }
        }
      }
    }
  }

  lemma {:induction false} IndexSlotSelf(st: State, owner: Owners, r: Role, nb: nat)
    requires OwnInv(st, owner) && InRange(r) && HasSlot(st, r) && !InInode(r)
    requires At(st.inodes, st.disk, r) == Null && nb < SPACE && owner[nb] == None
    ensures var st1 := SetSlot(st, r, Blk(nb)); At(st1.inodes, st1.disk, r) == Blk(nb)
  {
  }

  /** Storing a free block's address in an empty slot fills that role and no other. */
  lemma {:induction false} SetSlotFrame(st: State, owner: Owners, r: Role, nb: nat)
    requires OwnInv(st, owner) && InRange(r) && HasSlot(st, r)
    requires At(st.inodes, st.disk, r) == Null && nb < SPACE && owner[nb] == None
    ensures var st1 := SetSlot(st, r, Blk(nb));
            forall r' :: InRange(r') ==>
              At(st1.inodes, st1.disk, r') == if r' == r then Blk(nb) else At(st.inodes, st.disk, r')
  {
    var st1 := SetSlot(st, r, Blk(nb));
    forall r' | InRange(r')
      ensures At(st1.inodes, st1.disk, r') == if r' == r then Blk(nb) else At(st.inodes, st.disk, r')
    {
      if r' != r {
        if InInode(r) { InodeSlotFrame(st, r, nb, r'); } else { IndexSlotFrame(st, owner, r, nb, r'); }
      } else if !InInode(r) {
        IndexSlotSelf(st, owner, r, nb);
      }
    }
  }

  /** Take the first free block and store its address in role `r`'s slot. */
  function Attach(st: State, r: Role): State
    requires InRange(r)
  {
    if 0 <= st.firstBlock < SPACE && HasSlot(st, r) then SetSlot(TakeBlock(st), r, Blk(st.firstBlock))
    else st  // a store outside the ramdisk: AttachKeepsOwners shows that no consistent state gets here
  }

  /** Every data block of `st` is still there in `st1`, in the same place and unchanged. */
  ghost predicate KeepsData(st: State, st1: State) {
    forall r :: InRange(r) && r.DataOf? && At(st.inodes, st.disk, r).Blk? ==>
      && At(st1.inodes, st1.disk, r) == At(st.inodes, st.disk, r)
      && (At(st.inodes, st.disk, r).n < SPACE ==>
            st1.disk[At(st.inodes, st.disk, r).n] == st.disk[At(st.inodes, st.disk, r).n])
  }

  lemma {:induction false} AttachKeepsOwners(st: State, owner: Owners, r: Role)
    requires OwnInv(st, owner) && InRange(r) && HasSlot(st, r)
    requires At(st.inodes, st.disk, r) == Null && st.freeBlocks >= 1
    ensures 0 <= st.firstBlock < SPACE && owner[st.firstBlock] == None
    ensures OwnInv(Attach(st, r), owner[st.firstBlock := Some(r)])
    ensures var st1 := Attach(st, r);
            forall r' :: InRange(r') ==>
              At(st1.inodes, st1.disk, r') == if r' == r then Blk(st.firstBlock) else At(st.inodes, st.disk, r')
    ensures Attach(st, r).freeBlocks == st.freeBlocks - 1
    ensures KeepsData(st, Attach(st, r))
    ensures Attach(st, r).disk[st.firstBlock] == Zero
  {
    TakeBlockKeepsInv(st);
    var nb := st.firstBlock;
    SetSlotFrame(st, owner, r, nb);
    var st1 := Attach(st, r);
    assert SetSlot(st, r, Blk(nb)).inodes == st1.inodes && SetSlot(st, r, Blk(nb)).disk == st1.disk;
    var owner1 := owner[nb := Some(r)];
    if !InInode(r) {
      ContainerIsRole(st.inodes, st.disk, r);
      assert owner[Container(st.inodes, st.disk, r).n] == Some(ContainerRole(r));
    }
    forall b | 0 <= b < SPACE && owner1[b].Some?
      ensures InRange(owner1[b].value) && At(st1.inodes, st1.disk, owner1[b].value) == Blk(b)
    {
    }
  }

  /** The roles that allocate_block fills, in its order, to give inode `i` data block `b`. */
  function RolesNeeded(st: State, i: nat, b: nat): (rs: seq<Role>)
    requires i < INODES && b < MAX_BLOCKS
    ensures 1 <= |rs| <= 3 && forall r :: r in rs ==> InRange(r) && r.i == i
  {
    var loc := st.inodes[i].loc;
    if b < 8 then [DataOf(i, b)]
    else if b < 72 then
      if loc[8].Null? then [SingleOf(i), DataOf(i, 8)] else [DataOf(i, b)]
    else if loc[9].Null? then [DoubleOf(i), SecondOf(i, 0), DataOf(i, 72)]
    else
      var j := (b - 72) / 64;
      if Second(loc, st.disk, j).Null? then [SecondOf(i, j), DataOf(i, 72 + 64 * j)] else [DataOf(i, b)]
  }

  function AttachAll(st: State, rs: seq<Role>): State
    requires forall r :: r in rs ==> InRange(r)
    decreases |rs|
  {
    if rs == [] then st else AttachAll(Attach(st, rs[0]), rs[1..])
  }

  /** allocate_block's refusals, with the size test made strict and the two blocks of a
      new second-level index asked for. */
  predicate Refused(b: int, free: int) {
    || b >= MAX_BLOCKS
    || free < 1
    || (b == 8 && free < 2)
    || (b == 72 && free < 3)
    || (b > 72 && (b - 72) % 64 == 0 && free < 2)
  }

  /** Blocks that a file of n data blocks takes, index blocks included. */
  function Cost(n: nat): nat {
    n + (if n > 8 then 1 else 0) + (if n > 72 then 1 + (n - 72 + 63) / 64 else 0)
  }

  function Bump(st: State, i: nat): State
    requires i < INODES
  {
    st.(inodes := st.inodes[i := st.inodes[i].(blockNumber := st.inodes[i].blockNumber + 1, lastOffset := 0)])
  }

  /** allocate_block: None when refused, otherwise the state with one more data block. */
  function AllocateBlock(st: State, i: nat): Option<State>
    requires i < INODES
  {
    var b := st.inodes[i].blockNumber + 1;
    if Refused(b, st.freeBlocks) then None else Some(AttachAll(Bump(st, i), RolesNeeded(st, i, b)))
  }

  /** A file of n data blocks uses the slots 0..n-1 and just the index blocks they need. */
  ghost predicate Shape(st: State, i: nat)
    requires i < INODES
  {
    var n := st.inodes[i].BlockCount();
    && 0 <= n <= MAX_BLOCKS
    && (At(st.inodes, st.disk, SingleOf(i)).Blk? <==> n > 8)
    && (At(st.inodes, st.disk, DoubleOf(i)).Blk? <==> n > 72)
    && (forall j :: 0 <= j < 64 ==> (At(st.inodes, st.disk, SecondOf(i, j)).Blk? <==> 72 + 64 * j < n))
    && (forall k :: 0 <= k < MAX_BLOCKS ==> (At(st.inodes, st.disk, DataOf(i, k)).Blk? <==> k < n))
    && st.inodes[i].size <= BLOCK_SIZE * n
  }

  ghost predicate FsInv(st: State, owner: Owners) {
    && OwnInv(st, owner)
    && forall i :: 0 <= i < INODES ==> Shape(st, i)
  }

  /** Only inode `i`'s pointers and block count may differ. */
  ghost predicate OnlyGrows(st: State, st1: State, i: nat)
    requires i < INODES
  {
    && (forall i' :: 0 <= i' < INODES && i' != i ==> st1.inodes[i'] == st.inodes[i'])
    && st1.inodes[i] == st.inodes[i].(loc := st1.inodes[i].loc, blockNumber := st1.inodes[i].blockNumber,
                                      lastOffset := st1.inodes[i].lastOffset)
    && st1.freeInodes == st.freeInodes && st1.firstInode == st.firstInode
  }

  /** Each role's pointer array exists already or is attached earlier in the list. */
  ghost predicate Attachable(st: State, rs: seq<Role>) {
    && (forall r :: r in rs ==> InRange(r) && At(st.inodes, st.disk, r) == Null)
    && (forall m, m' :: 0 <= m < m' < |rs| ==> rs[m] != rs[m'])
    && (forall m :: 0 <= m < |rs| && !InInode(rs[m]) ==>
          ContainerRole(rs[m]) in rs[..m] || At(st.inodes, st.disk, ContainerRole(rs[m])).Blk?)
    && st.freeBlocks >= |rs|
  }

  lemma KeepsDataTransitive(st: State, st1: State, st2: State)
    requires KeepsData(st, st1) && KeepsData(st1, st2)
    ensures KeepsData(st, st2)
  {
  }

  lemma ContainerHasSlot(st: State, owner: Owners, r: Role)
    requires OwnInv(st, owner) && InRange(r)
    requires InInode(r) || At(st.inodes, st.disk, ContainerRole(r)).Blk?
    ensures HasSlot(st, r)
  {
    if !InInode(r) { ContainerIsRole(st.inodes, st.disk, r); }
  }

  lemma {:induction false} AttachAllKeepsOwners(st: State, owner: Owners, rs: seq<Role>) returns (owner1: Owners)
    requires OwnInv(st, owner) && Attachable(st, rs)
    ensures var st1 := AttachAll(st, rs);
            && OwnInv(st1, owner1)
            && (forall r :: InRange(r) ==> if r in rs then At(st1.inodes, st1.disk, r).Blk?
                                           else At(st1.inodes, st1.disk, r) == At(st.inodes, st.disk, r))
            && st1.freeBlocks == st.freeBlocks - |rs|
            && KeepsData(st, st1)
            && (rs != [] ==> st1.disk[At(st1.inodes, st1.disk, rs[|rs| - 1]).n] == Zero)
    decreases |rs|
  {
    hide OwnInv, At, HasSlot, Attach;
    if rs == [] {
      owner1 := owner;
    } else {
      var r, st1 := rs[0], Attach(st, rs[0]);
      assert InInode(r) || At(st.inodes, st.disk, ContainerRole(r)).Blk? by { assert rs[..0] == []; }
      ContainerHasSlot(st, owner, r);
      AttachKeepsOwners(st, owner, r);
      RestAttachable(st, owner, rs);
      var o1, rest := owner[st.firstBlock := Some(r)], rs[1..];
      owner1 := AttachAllKeepsOwners(st1, o1, rest);
      KeepsDataTransitive(st, st1, AttachAll(st1, rest));
      assert rs == [r] + rest;
    }
  }

  /** Each attach in the list finds a free block and its slot. */
  lemma {:induction false} AttachReady(st: State, owner: Owners, rs: seq<Role>, m: nat)
    requires OwnInv(st, owner) && Attachable(st, rs) && m < |rs|
    ensures (forall r :: r in rs[..m] ==> InRange(r)) && (forall r :: r in rs[..m + 1] ==> InRange(r)) && InRange(rs[m])
    ensures var s := AttachAll(st, rs[..m]);
            && 0 <= s.firstBlock < SPACE && HasSlot(s, rs[m])
            && AttachAll(st, rs[..m + 1]) == Attach(s, rs[m])
            && At(Attach(s, rs[m]).inodes, Attach(s, rs[m]).disk, rs[m]) == Blk(s.firstBlock)
    decreases m
  {
    hide OwnInv, At, HasSlot, Attach;
    var r := rs[0];
    assert InInode(r) || At(st.inodes, st.disk, ContainerRole(r)).Blk? by { assert rs[..0] == []; }
    ContainerHasSlot(st, owner, r);
    AttachKeepsOwners(st, owner, r);
    if m == 0 {
      assert rs[..1] == [r] && rs[..0] == [];
      assert AttachAll(Attach(st, r), [r][1..]) == Attach(st, r);
    } else {
      var rest := rs[1..];
      RestAttachable(st, owner, rs);
      AttachReady(Attach(st, r), owner[st.firstBlock := Some(r)], rest, m - 1);
      assert rs[..m] == [r] + rest[..m - 1] && rs[..m + 1] == [r] + rest[..m];
    }
  }

  lemma {:induction false} RestAttachable(st: State, owner: Owners, rs: seq<Role>)
    requires OwnInv(st, owner) && Attachable(st, rs) && rs != []
    ensures Attachable(Attach(st, rs[0]), rs[1..])
  {
    hide OwnInv, At, HasSlot, Attach;
    var r, st1, rest := rs[0], Attach(st, rs[0]), rs[1..];
    assert InInode(r) || At(st.inodes, st.disk, ContainerRole(r)).Blk? by { assert rs[..0] == []; }
    ContainerHasSlot(st, owner, r);
    AttachKeepsOwners(st, owner, r);
    forall m | 0 <= m < |rest| && !InInode(rest[m])
      ensures ContainerRole(rest[m]) in rest[..m] || At(st1.inodes, st1.disk, ContainerRole(rest[m])).Blk?
    {
      assert rs[m + 1] == rest[m] && rs[..m + 1] == [r] + rest[..m];
    }
  }

  lemma {:induction false} AttachAllOnlyGrows(st: State, i: nat, rs: seq<Role>)
    requires i < INODES && forall r :: r in rs ==> InRange(r) && r.i == i
    ensures OnlyGrows(st, AttachAll(st, rs), i)
    ensures AttachAll(st, rs).inodes[i].blockNumber == st.inodes[i].blockNumber
    ensures AttachAll(st, rs).inodes[i].lastOffset == st.inodes[i].lastOffset
    decreases |rs|
  {
    if rs != [] {
      AttachAllOnlyGrows(Attach(st, rs[0]), i, rs[1..]);
    }
  }

  lemma BumpKeepsOwners(st: State, owner: Owners, i: nat)
    requires OwnInv(st, owner) && i < INODES
    ensures OwnInv(Bump(st, i), owner)
    ensures forall r :: InRange(r) ==> At(Bump(st, i).inodes, st.disk, r) == At(st.inodes, st.disk, r)
  {
  }

  lemma BumpKeepsAttachable(st: State, i: nat, rs: seq<Role>)
    requires i < INODES && Attachable(st, rs)
    ensures Attachable(Bump(st, i), rs)
  {
    forall r | InRange(r) ensures At(Bump(st, i).inodes, st.disk, r) == At(st.inodes, st.disk, r) {}
  }

  lemma {:induction false} RolesNeededAttachable(st: State, i: nat)
    requires i < INODES && st.inodes[i].Live() && Shape(st, i)
    requires !Refused(st.inodes[i].blockNumber + 1, st.freeBlocks)
    ensures var b := st.inodes[i].blockNumber + 1;
            var rs := RolesNeeded(st, i, b);
            && Attachable(st, rs)
            && rs[|rs| - 1] == DataOf(i, b)
            && (forall k :: 0 <= k < MAX_BLOCKS ==> (DataOf(i, k) in rs <==> k == b))
            && (SingleOf(i) in rs <==> b == 8)
            && (DoubleOf(i) in rs <==> b == 72)
            && (forall j :: 0 <= j < 64 ==> (SecondOf(i, j) in rs <==> b == 72 + 64 * j))
            && |rs| == 1 + (if b == 8 || (b >= 72 && (b - 72) % 64 == 0) then 1 else 0) + (if b == 72 then 1 else 0)
  {
    var b := st.inodes[i].blockNumber + 1;
    assert At(st.inodes, st.disk, DataOf(i, b)) == Null;
    assert At(st.inodes, st.disk, SingleOf(i)).Blk? <==> b > 8;
    assert At(st.inodes, st.disk, DoubleOf(i)).Blk? <==> b > 72;
    if b >= 72 {
      var j := (b - 72) / 64;
      assert At(st.inodes, st.disk, SecondOf(i, j)).Blk? <==> 72 + 64 * j < b;
    }
    var rs := RolesNeeded(st, i, b);
    if |rs| >= 2 { assert rs[..1] == [rs[0]]; assert rs[0] in rs && rs[1] in rs; }
    if |rs| == 3 { assert rs[..2] == [rs[0], rs[1]]; }
  }

  lemma {:induction false} ShapeFrame(st: State, st1: State, i: nat)
    requires i < INODES && Shape(st, i)
    requires st1.inodes[i].BlockCount() == st.inodes[i].BlockCount() && st1.inodes[i].size == st.inodes[i].size
    requires forall r :: InRange(r) && r.i == i ==> At(st1.inodes, st1.disk, r) == At(st.inodes, st.disk, r)
    ensures Shape(st1, i)
  {
  }

  lemma {:induction false} ShapeGrows(st: State, st1: State, i: nat, rs: seq<Role>)
    requires i < INODES && st.inodes[i].Live() && Shape(st, i)
    requires !Refused(st.inodes[i].blockNumber + 1, st.freeBlocks)
    requires rs == RolesNeeded(st, i, st.inodes[i].blockNumber + 1)
    requires st1.inodes[i].Live() && st1.inodes[i].blockNumber == st.inodes[i].blockNumber + 1
    requires st1.inodes[i].size == st.inodes[i].size
    requires forall r :: InRange(r) && r.i == i ==>
               if r in rs then At(st1.inodes, st1.disk, r).Blk?
               else At(st1.inodes, st1.disk, r) == At(st.inodes, st.disk, r)
    ensures Shape(st1, i)
  {
    RolesNeededAttachable(st, i);
    hide At, RolesNeeded, Attachable;
    forall k | 0 <= k < MAX_BLOCKS
      ensures At(st1.inodes, st1.disk, DataOf(i, k)).Blk? <==> k < st1.inodes[i].BlockCount() {}
    forall j | 0 <= j < 64
      ensures At(st1.inodes, st1.disk, SecondOf(i, j)).Blk? <==> 72 + 64 * j < st1.inodes[i].BlockCount() {}
  }

  /** Growing a file by one block: nothing that was there moves or changes, the new block
      is the file's last one and reads as zeros, and nothing is shared or lost. */
  lemma {:induction false} AllocateBlockGrows(st: State, owner: Owners, i: nat) returns (owner1: Owners)
    requires FsInv(st, owner) && i < INODES && st.inodes[i].Live()
    requires AllocateBlock(st, i).Some?
    ensures var st1 := AllocateBlock(st, i).value;
            var b := st.inodes[i].blockNumber + 1;
            && FsInv(st1, owner1)
            && OnlyGrows(st, st1, i)
            && KeepsData(st, st1)
            && st1.inodes[i].blockNumber == b
            && At(st1.inodes, st1.disk, DataOf(i, b)).Blk?
            && st1.disk[At(st1.inodes, st1.disk, DataOf(i, b)).n] == Zero
            && st1.freeBlocks == st.freeBlocks - |RolesNeeded(st, i, b)|
  {
    hide OwnInv, Attachable, AttachAll, At;
    var b := st.inodes[i].blockNumber + 1;
    var st0, rs := Bump(st, i), RolesNeeded(st, i, b);
    BumpKeepsOwners(st, owner, i);
    RolesNeededAttachable(st, i);
    BumpKeepsAttachable(st, i, rs);
    owner1 := AttachAllKeepsOwners(st0, owner, rs);
    AttachAllOnlyGrows(st0, i, rs);
    var st1 := AttachAll(st0, rs);
    assert forall r :: InRange(r) && r.i != i ==> r !in rs;
    forall i' | 0 <= i' < INODES ensures Shape(st1, i') {
      assert Shape(st, i');
      if i' != i {
        ShapeFrame(st, st1, i');
      } else {
        ShapeGrows(st, st1, i, rs);
      }
    }
  }
}
