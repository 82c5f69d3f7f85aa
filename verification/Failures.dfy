/** Short runs from start-up that end in each of the failures of the steps as written. */
module Failures {
  import opened Disk
  import opened Allocator
  import opened BlockIndex
  import opened FileData
  import opened FreeBlocks
  import opened Directory
  import opened Inodes
  import opened Namespace
  import opened Tree
  import opened Runs
  import opened WriteLength
  import opened AsWritten
  import opened AsWrittenRemoval
  import opened AsWrittenWrite
  import opened Sessions
  import opened SessionsAsWritten

  const PAD: Pad := Repeat(0, 14)

  /** The name of one character, k + 1. */
  function NameOf(k: nat): Name
    requires k < 255
  {
    [k + 1]
  }

  /** n calls that create files in the root. */
  function Makes(n: nat): seq<Op>
    requires n <= 16
  {
    if n == 0 then [] else Makes(n - 1) + [Create(0, [], NameOf(n - 1), false, 0, PAD)]
  }

  lemma {:induction false} RunLast(st: State, ops: seq<Op>, op: Op)
    ensures Run(st, ops + [op]) == Step(Run(st, ops), op).0
    decreases |ops|
  {
    hide Step;
    if ops == [] {
      assert [] + [op] == [op] && [op][1..] == [];
      assert Run(Step(st, op).0, []) == Step(st, op).0;
    } else {
      assert (ops + [op])[1..] == ops[1..] + [op] && (ops + [op])[0] == ops[0];
      RunLast(Step(st, ops[0]).0, ops[1..], op);
    }
  }

  /** The state of an empty file that has never had a block. */
  predicate EmptyFile(inode: Inode) {
    inode == Inode(Reg, 0, inode.loc, IN_USE, 0, -1, 0, 0) && inode.loc == NO_LOCS
  }

  /** Everything but the lists: one more number and one more entry's worth of size. */
  ghost predicate Fields(st: State, n: nat) {
    && n <= 16
    && st.bits == Init().bits && st.freeBlocks == SPACE - 1 && st.firstBlock == 1
    && st.freeInodes == INODES - 1 - n && st.firstInode == n + 1
    && st.inodes[0] == Init().inodes[0].(size := ENTRY * n, lastOffset := ENTRY * n % BLOCK_SIZE)
    && (forall j :: 1 <= j <= n ==> EmptyFile(st.inodes[j]))
    && (forall j :: n < j < INODES ==> st.inodes[j] == ZERO_INODE)
    && (forall b :: 1 <= b < SPACE ==> st.disk[b] == Zero)
  }

  /** Start-up, and n empty files in the root, whose entries fit in its one block. */
  ghost predicate Rooted(st: State, n: nat) {
    && Fields(st, n) && Consistent(st)
    && |List(st, 0)| == n && forall e :: 0 <= e < n ==> List(st, 0)[e] == Entry(NameOf(e), e + 1)
  }

  lemma InitRooted()
    ensures Rooted(Init(), 0)
  {
    InitConsistent();
    hide Consistent;
  }

  /** The write of one more entry stays in the root's first block. */
  lemma EntryWritten(st: State, n: nat, owner: Owners, e: seq<Byte>)
    requires Rooted(st, n) && n < 16 && |e| == ENTRY && FsInv(st, owner)
    ensures var (st1, w) := WriteFile(st, 0, ENTRY * n, e, false);
            && w == ENTRY && st1.bits == st.bits && st1.freeBlocks == st.freeBlocks && st1.firstBlock == st.firstBlock
            && st1.freeInodes == st.freeInodes && st1.firstInode == st.firstInode
            && st1.inodes == st.inodes[0 := st.inodes[0].(size := ENTRY * (n + 1), lastOffset := ENTRY * (n + 1) % BLOCK_SIZE)]
            && forall b :: 1 <= b < SPACE ==> st1.disk[b] == Zero
  {
    hide Consistent, List, PutBytes;
    PutBytesInside(st, owner, 0, ENTRY * n, e);
    var st1 := PutBytes(st, 0, ENTRY * n, e).0;
    assert OwnInv(st1, owner);
    forall b | 1 <= b < SPACE ensures st1.disk[b] == Zero {
      assert !st.bits[b];
      assert TypeOk(st1.disk[b], owner[b]);
    }
  }

  lemma NameIsNew(st: State, n: nat)
    requires Rooted(st, n)
    ensures Find(List(st, 0), NameOf(n)) == None && IsExist(st, 0, NameOf(n)) == None
  {
    hide Consistent, List, Find;
    var l := List(st, 0);
    FindSome(l, NameOf(n));
    forall e | 0 <= e < n ensures l[e].name != NameOf(n) {
      assert l[e] == Entry(NameOf(e), e + 1) && NameOf(e)[0] != NameOf(n)[0];
    }
  }

  lemma FieldsAfter(st: State, n: nat)
    requires Rooted(st, n) && n < 16
    ensures var (st1, ok) := CreateIn(st, 0, NameOf(n), false, 0, PAD); ok && Fields(st1, n + 1)
  {
    var owner, slot, depth :| Inv(st, owner, slot, depth);
    var e := Encode(NameOf(n), n + 1, PAD);
    hide Inv, List, WriteFile, Find, Encode, IsExist, Consistent, Init, AllocateInode, Fields;
    NameIsNew(st, n);
    RootFields(st, n);
    RootSize(st, n);
    InvIsFsInv(st, owner, slot, depth);
    EntryWritten(st, n, owner, e);
    NumberTaken(st, WriteFile(st, 0, ENTRY * n, e, false).0, n);
  }

  lemma NumberTaken(st: State, st1: State, n: nat)
    requires Fields(st, n) && n < 16
    requires st1.bits == st.bits && st1.freeBlocks == st.freeBlocks && st1.firstBlock == st.firstBlock
    requires st1.freeInodes == st.freeInodes && st1.firstInode == st.firstInode
    requires st1.inodes == st.inodes[0 := st.inodes[0].(size := ENTRY * (n + 1), lastOffset := ENTRY * (n + 1) % BLOCK_SIZE)]
    requires forall b :: 1 <= b < SPACE ==> st1.disk[b] == Zero
    ensures Fields(AllocateInode(st1, 0, 0, Reg), n + 1)
  {
    assert ZERO_INODE.loc == NO_LOCS;
  }

  lemma MakeOne(st: State, n: nat)
    requires Rooted(st, n) && n < 16
    ensures var (st1, ok) := CreateIn(st, 0, NameOf(n), false, 0, PAD); ok && Rooted(st1, n + 1)
  {
    FieldsAfter(st, n);
    var owner, slot, depth :| Inv(st, owner, slot, depth);
    hide Inv, List, CreateIn, Find, IsExist, Fields, Init, Consistent, LeafAdded, Content;
    assert IsDir(st, 0) && st.freeInodes >= 1 && st.firstInode == n + 1 by { RootFields(st, n); }
    CreateInExact(st, owner, slot, depth, 0, NameOf(n), false, 0, PAD);
    var l, l1 := List(st, 0), List(CreateIn(st, 0, NameOf(n), false, 0, PAD).0, 0);
    forall k | 0 <= k < n + 1 ensures l1[k] == Entry(NameOf(k), k + 1) {
      if k < n { assert l1[k] == l[k]; }
    }
  }

  lemma RootFields(st: State, n: nat)
    requires Fields(st, n)
    ensures IsDir(st, 0) && st.freeInodes == INODES - 1 - n && st.firstInode == n + 1 && st.freeBlocks == SPACE - 1
  {
  }

  lemma StepMakes(st: State, n: nat)
    requires Fields(st, n) && n < 16
    ensures Step(st, Create(0, [], NameOf(n), false, 0, PAD)) == CreateIn(st, 0, NameOf(n), false, 0, PAD)
  {
    hide CreateIn;
    RootFields(st, n);
  }

  lemma MakesLast(n: nat)
    requires 1 <= n <= 16
    ensures Makes(n) == Makes(n - 1) + [Create(0, [], NameOf(n - 1), false, 0, PAD)]
  {
  }

  /** The first n creations succeed. */
  lemma {:induction false} AfterMakes(n: nat)
    requires n <= 16
    ensures Rooted(Run(Init(), Makes(n)), n)
  {
    if n == 0 {
      InitRooted();
    } else {
      AfterMakes(n - 1);
      var st := Run(Init(), Makes(n - 1));
      hide Run, Init, CreateIn, List, Consistent, Makes, Step, Fields;
      MakeOne(st, n - 1);
      StepMakes(st, n - 1);
      MakesLast(n);
      RunLast(Init(), Makes(n - 1), Create(0, [], NameOf(n - 1), false, 0, PAD));
    }
  }

  // ----- one file of any size -----

  /** Create the file, and write s to it. */
  function FileCalls(s: seq<Byte>): seq<Op> {
    Makes(1) + [Write(1, 0, s)]
  }

  function Filed(s: seq<Byte>): State {
    Run(Init(), FileCalls(s))
  }

  /** The largest file can be paid for. */
  lemma {:induction false} RoomForAny()
    ensures Room(0, SPACE - 1) == MAX_BLOCKS
  {
    RoomIsLargest(0, SPACE - 1, MAX_BLOCKS);
  }

  /** A file of any size up to the largest can be written in one call, and has just the blocks it needs. */
  lemma {:induction false} FileOf(s: seq<Byte>) returns (owner: Owners)
    requires 0 < |s| <= MAX_FILE_SIZE
    ensures var st, n := Filed(s), Covering(|s|);
            && Consistent(st) && FsInv(st, owner) && st.inodes[1].Live() && st.inodes[1].kind.Reg? && st.inodes[1].parent == 0
            && st.inodes[1].size == |s| && Content(st, 1) == s
            && st.inodes[1].BlockCount() == n && st.freeBlocks == SPACE - 1 - Cost(n)
            && Content(st, 0) == Content(Run(Init(), Makes(1)), 0) && st.inodes[0] == Run(Init(), Makes(1)).inodes[0]
  {
    hide Run, Init, List, FsInv, Fields;
    AfterMakes(1);
    var st := Run(Init(), Makes(1));
    RunLast(Init(), Makes(1), Write(1, 0, s));
    owner := FileStep(st, s);
  }

  lemma FileStep(st: State, s: seq<Byte>) returns (owner1: Owners)
    requires Rooted(st, 1) && 0 < |s| <= MAX_FILE_SIZE
    ensures var (st1, w) := WriteFile(st, 1, 0, s, true);
            && Step(st, Write(1, 0, s)).0 == st1 && w == |s|
            && Consistent(st1) && FsInv(st1, owner1) && OnlyWrites(st, st1, 1)
            && st1.inodes[1].Live() && st1.inodes[1].kind.Reg? && st1.inodes[1].parent == 0
            && st1.inodes[1].size == |s| && Content(st1, 1) == s
            && st1.inodes[1].BlockCount() == Covering(|s|) && st1.freeBlocks == SPACE - 1 - Cost(Covering(|s|))
            && (forall j :: 0 <= j < INODES && j != 1 ==> Content(st1, j) == Content(st, j))
  {
    hide Inv, WriteFile, Content, Splice, List, Fields, Consistent, FsInv, Cost, Covering, Rooted;
    RootedFields(st, 1);
    FileIsRegular(st);
    RootFields(st, 1);
    var owner, slot, depth := InvOfConsistent(st);
    InvIsFsInv(st, owner, slot, depth);
    FileNumbers(st, owner, s);
    owner1 := WriteFileSplices(st, owner, 1, 0, s, true);
    WriteStepExact(st, owner, slot, depth, 1, 0, s);
    var st1 := WriteFile(st, 1, 0, s, true).0;
    assert |Content(st1, 1)| == st1.inodes[1].size && Content(st, 1) == [] && s[..|s|] == s;
    SpliceIntoNothing(s);
  }

  lemma FileNumbers(st: State, owner: Owners, s: seq<Byte>)
    requires FsInv(st, owner) && EmptyFile(st.inodes[1]) && st.freeBlocks == SPACE - 1 && 0 < |s| <= MAX_FILE_SIZE
    ensures var (st1, w) := WriteFile(st, 1, 0, s, true);
            w == |s| && st1.inodes[1].BlockCount() == Covering(|s|) && st1.freeBlocks == SPACE - 1 - Cost(Covering(|s|))
  {
    hide WriteFile, Room, FsInv;
    RoomForAny();
    WriteLengthExact(st, owner, 1, 0, s, true);
  }

  lemma SpliceIntoNothing(s: seq<Byte>)
    ensures Splice([], 0, s) == s
  {
  }

  // ----- the failures -----

  /** After sixteen creations, removing the first entry as written looks in front of a block that is not there. */
  lemma RemovalFails(other: int -> Bytes)
    ensures var st, name := Run(Init(), Makes(16)), NameOf(0);
            && Find(List(st, 0), name) == Some(0) && st.inodes[0].size == 256
            && RemoveEntryAsWritten(st, 0, name, 1, 0, other) == Wild
  {
    hide Run, Init, List, Consistent, Find, RemoveEntryAsWritten, Fields, Makes, Lookup, FsInv;
    AfterMakes(16);
    var st := Run(Init(), Makes(16));
    FirstEntry(st, 16);
    RootSize(st, 16);
    var owner := OwnerOfConsistent(st);
    OneBlock(st, 16);
    RemovalUnfolds(st, owner, 0, NameOf(0), 16, 0, 1, other);
  }

  lemma OneBlock(st: State, n: nat)
    requires Fields(st, n)
    ensures st.inodes[0].BlockCount() == 1 && IsDir(st, 0) && st.inodes[0].loc[0] == Blk(0)
  {
  }

  /** A write at the end of the last of fewer than 8 blocks puts block 1 of the space, the first free one, behind it. */
  lemma {:induction false} BlockOneTaken(st: State, owner: Owners, i: nat, b: nat, s: seq<Byte>)
    requires FsInv(st, owner) && i < INODES && st.inodes[i].Live() && st.inodes[i].BlockCount() == b < 8
    requires st.inodes[i].size == BLOCK_SIZE * b && st.firstBlock == 1 && st.freeBlocks >= 2 && |s| <= BLOCK_SIZE
    ensures var st1 := WriteFile(st, i, BLOCK_SIZE * b, s, false).0;
            st1.inodes[i].loc == st.inodes[i].loc[b := Blk(1)] && st1.inodes[i].BlockCount() == b + 1
  {
    hide FsInv, PutBytes, EnsureBlock, AllocateBlock, KeepsData, At;
    NextBlock(st, owner, i);
    FirstBlockTest(st, owner, i, BLOCK_SIZE * b);
    Attached(st, i, b);
    var owner1 := AllocateBlockGrows(st, owner, i);
    PutBytesInside(AllocateBlock(st, i).value, owner1, i, BLOCK_SIZE * b, s);
  }

  lemma Attached(st: State, i: nat, b: nat)
    requires i < INODES && st.inodes[i].blockNumber + 1 == b < 8 && st.freeBlocks >= 1 && 0 <= st.firstBlock < SPACE
    ensures AllocateBlock(st, i).Some?
    ensures var st1 := AllocateBlock(st, i).value;
            && st1.inodes[i] == st.inodes[i].(loc := st.inodes[i].loc[b := Blk(st.firstBlock)], blockNumber := b, lastOffset := 0)
  {
    var s, r := Bump(st, i), DataOf(i, b);
    assert RolesNeeded(st, i, b) == [r] && [r][1..] == [];
    assert AttachAll(s, [r]) == AttachAll(Attach(s, r), []) == Attach(s, r);
    hide AttachAll;
  }

  /** One more creation after sixteen, and the removal of what it made. */
  function SeventeenMade(): State {
    Step(Run(Init(), Makes(16)), Create(0, [], NameOf(16), false, 0, PAD)).0
  }

  function BackToSixteen(): State {
    Step(SeventeenMade(), Unlink(0, [], NameOf(16), {})).0
  }

  /** The seventeenth entry goes into a second block, which stays when the entry is removed. */
  lemma SecondRootBlock() returns (owner: Owners, slot: PerInode)
    ensures var st := BackToSixteen();
            && FsInv(st, owner) && DirInv(st, 0, slot) && List(st, 0) == List(Run(Init(), Makes(16)), 0) && st.inodes[0].size == 256
            && IsDir(st, 0) && st.inodes[0].loc[0] == Blk(0) && st.inodes[0].loc[1] == Blk(1) && st.inodes[0].BlockCount() == 2
  {
    hide Run, Init, CreateIn, UnlinkIn, List, Fields, Inv, Makes;
    AfterMakes(16);
    var st := Run(Init(), Makes(16));
    MakeSeventeen(st);
    var st1 := CreateIn(st, 0, NameOf(16), false, 0, PAD).0;
    RootFields(st, 16);
    assert SeventeenMade() == st1;
    owner, slot := UnmakeSeventeen(List(st, 0), st1);
    assert BackToSixteen() == UnlinkIn(st1, 0, NameOf(16), {}).0;
  }

  lemma MakeSeventeen(st: State)
    requires Rooted(st, 16)
    ensures var (st1, ok) := CreateIn(st, 0, NameOf(16), false, 0, PAD);
            && ok && Consistent(st1) && IsDir(st1, 0)
            && List(st1, 0) == List(st, 0) + [Entry(NameOf(16), 17)]
            && st1.inodes[17].kind == Reg && Find(List(st, 0), NameOf(16)) == None
            && st1.inodes[0].loc[0] == Blk(0) && st1.inodes[0].loc[1] == Blk(1) && st1.inodes[0].BlockCount() == 2
  {
    var owner, slot, depth := InvOfConsistent(st);
    hide Inv, List, WriteFile, Find, IsExist, Consistent, Fields, CreateIn, Encode, FsInv, Content, Rooted;
    RootedFields(st, 16);
    NameIsNew(st, 16);
    RootFields(st, 16);
    RootSize(st, 16);
    InvIsFsInv(st, owner, slot, depth);
    SeventeenthWritten(st, owner, Encode(NameOf(16), 17, PAD));
    Created(st, 0, NameOf(16), false);
  }

  /** What create makes when the write of the entry succeeds. */
  lemma Created(st: State, d: nat, name: Name, isDir: bool)
    requires Consistent(st) && IsDir(st, d) && st.freeInodes >= 1 && |name| <= 13 && IsExist(st, d, name) == None
    requires 0 <= st.firstInode < INODES && st.firstInode != d
    requires WriteFile(st, d, st.inodes[d].size, Encode(name, st.firstInode, PAD), false).1 != -1
    ensures var f, (st1, ok) := st.firstInode, CreateIn(st, d, name, isDir, 0, PAD);
            var st0 := WriteFile(st, d, st.inodes[d].size, Encode(name, f, PAD), false).0;
            && ok && Consistent(st1) && IsDir(st1, d) && List(st1, d) == List(st, d) + [Entry(name, f)] && !st.inodes[f].Live()
            && st1.inodes[d] == st0.inodes[d] && st1.freeBlocks == st0.freeBlocks && st1.freeInodes == st.freeInodes - 1
            && st1.inodes[f].Live() && st1.inodes[f].kind == (if isDir then Dir else Reg)
            && st1.inodes[f].BlockCount() == 0 && Content(st1, f) == []
            && (forall j :: 0 <= j < INODES && j != d ==>
                  Content(st1, j) == Content(st, j) && (j != f ==> st1.inodes[j] == st.inodes[j]))
  {
    var owner, slot, depth := InvOfConsistent(st);
    hide Inv, List, WriteFile, Find, Encode, Content, LeafAdded, Consistent, CreateIn, IsExist, Made, FsInv;
    InvIsFsInv(st, owner, slot, depth);
    CreatedNode(st, owner, d, name, isDir);
    CreateInExact(st, owner, slot, depth, d, name, isDir, 0, PAD);
    ReadMade(st, CreateIn(st, d, name, isDir, 0, PAD).0, d, name, if isDir then Dir else Reg);
  }

  lemma ReadMade(st: State, st1: State, d: nat, name: Name, kind: Kind)
    requires d < INODES && 0 <= st.firstInode < INODES && Made(st, st1, d, name, kind) && st.inodes[d].Live()
    ensures var f := st.firstInode;
            && List(st1, d) == List(st, d) + [Entry(name, f)] && f != d && !st.inodes[f].Live()
            && st1.freeInodes == st.freeInodes - 1
            && st1.inodes[f].Live() && st1.inodes[f].kind == kind && st1.inodes[f].BlockCount() == 0 && Content(st1, f) == []
            && (forall j :: 0 <= j < INODES && j != d ==>
                  Content(st1, j) == Content(st, j) && (j != f ==> st1.inodes[j] == st.inodes[j]))
  {
    hide List, LeafAdded, Content, Find, IsExist;
  }

  lemma CreatedNode(st: State, owner: Owners, d: nat, name: Name, isDir: bool)
    requires FsInv(st, owner) && IsDir(st, d) && |name| <= 13 && IsExist(st, d, name) == None
    requires 0 <= st.firstInode < INODES && st.firstInode != d
    requires WriteFile(st, d, st.inodes[d].size, Encode(name, st.firstInode, PAD), false).1 != -1
    ensures var (st1, ok) := CreateIn(st, d, name, isDir, 0, PAD);
            var st0 := WriteFile(st, d, st.inodes[d].size, Encode(name, st.firstInode, PAD), false).0;
            ok && st1.inodes[d] == st0.inodes[d] && st1.freeBlocks == st0.freeBlocks && IsDir(st1, d)
  {
    hide FsInv, WriteFile, Content, Encode, IsExist, Splice;
    var owner1 := WriteFileSplices(st, owner, d, st.inodes[d].size, Encode(name, st.firstInode, PAD), false);
  }

  lemma SeventeenthWritten(st: State, owner: Owners, e: seq<Byte>)
    requires Fields(st, 16) && FsInv(st, owner) && |e| == ENTRY
    ensures var (st1, w) := WriteFile(st, 0, 256, e, false);
            && w == ENTRY && st1.firstInode == st.firstInode
            && st1.inodes[0].loc[0] == Blk(0) && st1.inodes[0].loc[1] == Blk(1) && st1.inodes[0].BlockCount() == 2 && IsDir(st1, 0)
  {
    RootSize(st, 16);
    OneBlock(st, 16);
    FirstFree(st, 16);
    RootFields(st, 16);
    hide FsInv, WriteFile, Fields, Content, Splice;
    BlockOneTaken(st, owner, 0, 1, e);
    EntryFits(st, owner, 0, 16, e);
    var owner1 := WriteFileSplices(st, owner, 0, 256, e, false);
  }

  /** An entry can be added to a directory of k entries in as many blocks as they fill. */
  lemma {:induction false} EntryFits(st: State, owner: Owners, d: nat, k: nat, e: seq<Byte>)
    requires FsInv(st, owner) && d < INODES && st.inodes[d].Live() && |e| == ENTRY && st.freeBlocks >= 3
    requires st.inodes[d].size == ENTRY * k && k < 1024 && st.inodes[d].BlockCount() == Covering(ENTRY * k)
    ensures var (st1, w) := WriteFile(st, d, ENTRY * k, e, false);
            && w == ENTRY && st1.inodes[d].BlockCount() == Covering(ENTRY * k + ENTRY)
            && st1.freeBlocks == st.freeBlocks - (Cost(Covering(ENTRY * k + ENTRY)) - Cost(Covering(ENTRY * k)))
  {
    hide FsInv, WriteFile, Room, Covering, Cost;
    EntryBlocks(k);
    RoomIsLargest(Covering(ENTRY * k), st.freeBlocks, Covering(ENTRY * k) + 1);
    WriteLengthExact(st, owner, d, ENTRY * k, e, false);
  }

  lemma EntryBlocks(k: nat)
    requires k < 1024
    ensures var n, n1 := Covering(ENTRY * k), Covering(ENTRY * k + ENTRY);
            && n1 == Max(n, Max(ENTRY * k / BLOCK_SIZE + 1, n1)) && n <= 64 && Cost(n + 1) - Cost(n) <= 3
            && ENTRY * k <= BLOCK_SIZE * n && ENTRY * k + ENTRY <= BLOCK_SIZE * (n + 1)
  {
  }

  lemma UnmakeSeventeen(l: seq<Entry>, st1: State) returns (owner: Owners, slot: PerInode)
    requires Consistent(st1) && IsDir(st1, 0) && List(st1, 0) == l + [Entry(NameOf(16), 17)] && st1.inodes[17].kind == Reg
    requires |l| == 16 && Find(l, NameOf(16)) == None
    requires st1.inodes[0].loc[0] == Blk(0) && st1.inodes[0].loc[1] == Blk(1) && st1.inodes[0].BlockCount() == 2
    ensures var (st2, ok) := UnlinkIn(st1, 0, NameOf(16), {});
            && FsInv(st2, owner) && DirInv(st2, 0, slot) && List(st2, 0) == l && st2.inodes[0].size == 256
            && IsDir(st2, 0) && st2.inodes[0].loc[0] == Blk(0) && st2.inodes[0].loc[1] == Blk(1) && st2.inodes[0].BlockCount() == 2
  {
    var owner1, slot1, depth1 :| Inv(st1, owner1, slot1, depth1);
    hide Inv, List, UnlinkIn, Find, Consistent, Content, FsInv;
    FindAppended(l, NameOf(16), 17);
    UnlinkInExact(st1, owner1, slot1, depth1, 0, NameOf(16), {});
    var st2 := UnlinkIn(st1, 0, NameOf(16), {}).0;
    assert SwapRemove(l + [Entry(NameOf(16), 17)], 16) == l;
    var depth;
    owner, slot, depth := InvOfConsistent(st2);
    RootInv(st2, owner, slot, depth);
  }

  lemma InvOfConsistent(st: State) returns (owner: Owners, slot: PerInode, depth: PerInode)
    requires Consistent(st)
    ensures Inv(st, owner, slot, depth)
  {
    owner, slot, depth :| Inv(st, owner, slot, depth);
  }

  lemma RootInv(st: State, owner: Owners, slot: PerInode, depth: PerInode)
    requires Inv(st, owner, slot, depth)
    ensures FsInv(st, owner) && IsDir(st, 0) && DirInv(st, 0, slot) && st.inodes[0].size == ENTRY * |List(st, 0)|
  {
    hide FsInv, InodeInv;
    assert DirInv(st, 0, slot);
  }

  lemma RootedFields(st: State, n: nat)
    requires Rooted(st, n)
    ensures Fields(st, n) && Consistent(st)
  {
  }

  lemma FirstFree(st: State, n: nat)
    requires Fields(st, n)
    ensures st.firstBlock == 1
  {
  }
  /** With sixteen entries again, and the second block right behind the first, it works: what lies in front of block 1
      is the last entry. */
  lemma RemovalRecovers(other: int -> Bytes)
    ensures var st, name := BackToSixteen(), NameOf(0);
            && Find(List(st, 0), name) == Some(0) && st.inodes[0].size == 256
            && RemovesEntry(st, 0, 0, RemoveEntryAsWritten(st, 0, name, 1, 0, other))
  {
    var owner, slot := SecondRootBlock();
    hide BackToSixteen, List, Run, Makes, RemoveEntryAsWritten, Find, DirInv, RemovesEntry, Fields, Consistent;
    AfterMakes(16);
    FirstEntry(Run(Init(), Makes(16)), 16);
    var st := BackToSixteen();
    hide Init;
    RemoveEntryRightIff(st, owner, slot, 0, NameOf(0), 16, 0, 1, other);
    hide FsInv;
    RightAfterWrite(st, owner, 0, 16, 0, other);
  }

  lemma RootSize(st: State, n: nat)
    requires Fields(st, n)
    ensures st.inodes[0].size == ENTRY * n
  {
  }

  lemma FirstEntry(st: State, n: nat)
    requires Rooted(st, n) && n >= 1
    ensures Find(List(st, 0), NameOf(0)) == Some(0) && IsExist(st, 0, NameOf(0)) == Some(1)
  {
    hide List, Consistent, Fields;
    assert List(st, 0)[0] == Entry(NameOf(0), 1);
  }

  function Bytes7(n: nat): (s: seq<Byte>)
    ensures |s| == n
  {
    Repeat(7, n)
  }

  /** Freeing a file of 2305 bytes loses blocks, one of 2048 bytes ends in a crash, and even one of a single
      byte leaves a pointer to a free block behind. */
  lemma FreeingFails()
    ensures FreeBlockAsWritten(Filed(Bytes7(2048)), 1, NumberLeft(Filed(Bytes7(2048)).inodes[1])).Crashed?
    ensures var st := Filed(Bytes7(2305)); var r := FreeBlockAsWritten(st, 1, NumberLeft(st.inodes[1]));
            exists owner, b: nat :: FsInv(st, owner) && OwnedBy(owner, b, 1) && b !in r.released
    ensures var st := Filed(Bytes7(1)); var r := FreeBlockAsWritten(st, 1, NumberLeft(st.inodes[1]));
            Consistent(st) && r.FreedTo? && !exists owner :: OwnInv(r.st, owner)
  {
    hide Filed, FreeBlockAsWritten, OwnInv, FsInv, Consistent, Content, Repeat;
    var owner := FileOf(Bytes7(2048));
    FullBlocksCrash(Filed(Bytes7(2048)), owner, 1, 8);
    owner := FileOf(Bytes7(2305));
    FreeBlockLeaksIff(Filed(Bytes7(2305)), owner, 1, NumberLeft(Filed(Bytes7(2305)).inodes[1]));
    owner := FileOf(Bytes7(1));
    FreeBlockRightIff(Filed(Bytes7(1)), owner, 1, NumberLeft(Filed(Bytes7(1)).inodes[1]));
    FullBlocksCrash(Filed(Bytes7(1)), owner, 1, 1);
  }

  /** A file of the largest size can be written, and then allocate_block as written goes on past its index. */
  lemma RefusalFails()
    ensures var st := Filed(Bytes7(MAX_FILE_SIZE)); var b := st.inodes[1].BlockCount();
            b == MAX_BLOCKS && !RefusedAsWritten(b, st.freeBlocks) && AllocateAsWritten(st, 1) == Bad
  {
    hide Filed, FsInv, Consistent, Content, Repeat;
    var owner := FileOf(Bytes7(MAX_FILE_SIZE));
    RefusedIsBad(Filed(Bytes7(MAX_FILE_SIZE)), owner, 1);
  }

  /** The write of byte v at p <= size, which as written is not what it should be. */
  ghost predicate WritesWrong(st: State, p: nat, v: Byte) {
    p <= st.inodes[1].size && !Right(st, 1, p, [v], WriteAsWritten(AsLeft(st, 1), 1, p, [v], false))
  }

  /** Overwriting the only byte of a file, and appending to a file of 256 bytes, go wrong as written. */
  lemma WritingFails(v: Byte)
    ensures WritesWrong(Filed(Bytes7(1)), 0, v) && WritesWrong(Filed(Bytes7(256)), 256, v)
  {
    hide Filed, FsInv, Consistent, Content, Repeat, Right, WriteAsWritten, WriteFile, AsLeft;
    var owner := FileOf(Bytes7(1));
    WriteRightIff(Filed(Bytes7(1)), owner, 1, 0, [v]);
    owner := FileOf(Bytes7(256));
    WriteRightIff(Filed(Bytes7(256)), owner, 1, 256, [v]);
  }

  /** As written, creating a file and then another one below it succeeds, and the tree is no tree any more. */
  lemma CreatingFails()
    ensures var st := Run(Init(), Makes(1));
            var c := CreateAsWritten(st, 0, [NameOf(0)], NameOf(1), false, 0, PAD);
            c.Some? && c.value.1 && !Consistent(c.value.0)
  {
    hide Run, Init, List, Consistent, CreateIn;
    AfterMakes(1);
    var st := Run(Init(), Makes(1));
    FirstEntry(st, 1);
    RootFields(st, 1);
    assert [NameOf(0)][1..] == [];
    assert WalkAsWritten(st, 0, [NameOf(0)]) == Reached(1);
    BelowFile(st);
  }

  lemma BelowFile(st: State)
    requires Rooted(st, 1)
    ensures var (st2, ok) := CreateIn(st, 1, NameOf(1), false, 0, PAD); ok && !Consistent(st2)
  {
    hide Consistent, WriteFile, Encode, Find;
    assert EmptyFile(st.inodes[1]) && List(st, 1) == [];
    assert Find([], NameOf(1)) == None by { FindSome([], NameOf(1)); }
    var e := Encode(NameOf(1), 2, PAD);
    var owner1 := FileStep(st, e);
    var (st1, w) := WriteFile(st, 1, 0, e, true);
    assert w == ENTRY;
    assert WriteFile(st, 1, 0, e, false) == (st1, w) by { SameForFiles(st, e); }
    var st2 := AllocateInode(st1, 1, 0, Reg);
    assert st2.inodes[2].Live() && st2.inodes[2].parent == 1 && !IsDir(st2, 1);
    ChildOfFile(st2);
  }

  /** A file that contains the bytes of a directory entry, with the file's own number. */
  function Forged(): seq<Byte> {
    Encode(NameOf(8), 1, PAD)
  }

  /** As written, unlinking the name that the bytes of a file hold frees the file and leaves its entry. */
  lemma UnlinkingBelowFails()
    ensures var st := Filed(Forged());
            var c := UnlinkAsWritten(st, 0, [NameOf(0)], NameOf(8), {});
            Consistent(st) && c.Some? && c.value.1 && !Consistent(c.value.0)
  {
    hide Run, Init, Filed, FreeInode, Fields, Encode, Consistent, FsInv;
    var owner := FileOf(Forged());
    var st := Filed(Forged());
    AfterMakes(1);
    var st0 := Run(Init(), Makes(1));
    FirstEntry(st0, 1);
    SameContentSameList(st0, st);
    FileIsRegular(st0);
    ForgedEntry(st);
    hide List, IsExist;
    assert [NameOf(0)][1..] == [];
    assert WalkAsWritten(st, 1, []) == Reached(1);
    assert WalkAsWritten(st, 0, [NameOf(0)]) == Reached(1);
    FreesItself(st, owner);
  }

  lemma ForgedEntry(st: State)
    requires Content(st, 1) == Forged() && st.inodes[1].size == ENTRY
    ensures IsExist(st, 1, NameOf(8)) == Some(1)
  {
    EncodeDecode(NameOf(8), 1, PAD);
    hide Encode, Decode;
    assert Raw(Content(st, 1), 0) == Forged();
    assert List(st, 1) == [Entry(NameOf(8), 1)];
  }

  lemma FreesItself(st: State, owner: Owners)
    requires FsInv(st, owner) && st.inodes[1].Live() && st.inodes[1].parent == 0
    requires |List(st, 0)| == 1 && List(st, 0)[0] == Entry(NameOf(0), 1)
    ensures !Consistent(FreeInode(st, NameOf(8), 1))
  {
    hide FreeBlock, Content, FsInv, Consistent;
    FreeBlockExact(st, owner, 1);
    var st1 := FreeBlock(st, 1);
    assert List(st1, 0) == List(st, 0);
    assert Find(List(st1, 0), NameOf(8)) == None by { assert NameOf(0)[0] != NameOf(8)[0]; }
    var st2 := FreeInode(st, NameOf(8), 1);
    SameAfterReset(st1, 1, 0);
    SameContentSameList(st1, st2);
    DeadEntry(st2, 1);
  }

  lemma SameAfterReset(st: State, i: nat, j: nat)
    requires i < INODES && j < INODES && i != j
    ensures Content(ResetInode(st, i), j) == Content(st, j) && !ResetInode(st, i).inodes[i].Live()
  {
    forall q: nat ensures ByteAt(ResetInode(st, i), j, q) == ByteAt(st, j, q) {}
  }

  lemma SameForFiles(st: State, s: seq<Byte>)
    requires !st.inodes[1].kind.Dir?
    ensures WriteFile(st, 1, 0, s, false) == WriteFile(st, 1, 0, s, true)
  {
    hide PutBytes, EnsureBlock, AllocateBlock;
  }

  lemma ChildOfFile(st: State)
    requires st.inodes[2].Live() && st.inodes[2].parent == 1 && !IsDir(st, 1)
    ensures !Consistent(st)
  {
    forall owner: Owners, slot: PerInode, depth: PerInode ensures !Inv(st, owner, slot, depth) {
      hide FsInv, InodeInv, List, DirInv;
      assert !NamedInv(st, 2, slot, depth);
    }
  }

  // ----- descriptors -----

  const MAKE: Request := Request.Make(true, [], NameOf(0), false, 0, PAD)
  const OPEN: Request := Request.Open(true, [], NameOf(0))

  /** A process that has created and opened a file. */
  lemma OpenedFile()
    ensures var st := Run(Init(), Makes(1));
            Rooted(st, 1) && RunAll(FirstSession(), [MAKE, OPEN]) == Session(st, [Desc(0, 0), Desc(1, 0)])
  {
    hide Consistent, CreateIn, List, IsExist, Fields;
    AfterMakes(1);
    var st := Run(Init(), Makes(1));
    MakesLast(1);
    RunLast(Init(), [], Create(0, [], NameOf(0), false, 0, PAD));
    assert Serve(FirstSession(), MAKE) == Session(st, [Desc(0, 0)]);
    FirstEntry(st, 1);
    FileIsRegular(st);
    var x, y := Session(st, [Desc(0, 0)]), Session(st, [Desc(0, 0), Desc(1, 0)]);
    assert 1 !in OpenSet(x.fds);
    assert Serve(x, OPEN) == y;
    TwoCalls(FirstSession(), MAKE, OPEN);
  }

  lemma TwoCalls(x: Session, a: Request, b: Request)
    requires x.fds != []
    ensures RunAll(x, [a, b]) == Serve(Serve(x, a), b)
  {
    hide Serve;
    var y := Serve(x, a);
    assert [a, b][1..] == [b] && [b][1..] == [];
    assert RunAll(y, [b]) == RunAll(Serve(y, b), []);
  }

  lemma FileIsRegular(st: State)
    requires Fields(st, 1)
    ensures EmptyFile(st.inodes[1]) && IsDir(st, 0)
  {
  }

  /** The first byte of the file goes into block 1. */
  lemma FirstByte(st: State, v: Byte)
    requires Rooted(st, 1)
    ensures var st1 := WriteFile(st, 1, 0, [v], true).0;
            && WriteFile(st, 1, 0, [v], true).1 == 1
            && Consistent(st1) && st1.inodes[1].loc[0] == Blk(1) && st1.inodes[1].size == 1 && st1.inodes[1].kind.Reg?
            && st1.inodes[0] == st.inodes[0] && !st1.inodes[5].Live() && List(st1, 0) == List(st, 0)
  {
    assert EmptyFile(st.inodes[1]) && st.firstBlock == 1;
    var owner, slot, depth :| Inv(st, owner, slot, depth);
    hide Inv, WriteFile, List, Fields, Consistent;
    var owner1 := FileStep(st, [v]);
    InvIsFsInv(st, owner, slot, depth);
    WriteStepExact(st, owner, slot, depth, 1, 0, [v]);
    FirstBlockTaken(st, owner, v);
    assert !st.inodes[5].Live() by { RestFree(st); }
    SameContentSameList(st, WriteFile(st, 1, 0, [v], true).0);
  }

  lemma RestFree(st: State)
    requires Fields(st, 1)
    ensures !st.inodes[5].Live()
  {
  }

  lemma SameContentSameList(st: State, st1: State)
    requires Content(st1, 0) == Content(st, 0)
    ensures List(st1, 0) == List(st, 0)
  {
  }

  lemma FirstBlockTaken(st: State, owner: Owners, v: Byte)
    requires FsInv(st, owner) && EmptyFile(st.inodes[1]) && st.firstBlock == 1 && st.freeBlocks == SPACE - 1
    ensures WriteFile(st, 1, 0, [v], true).0.inodes[1].loc[0] == Blk(1)
  {
    hide WriteFile, FsInv;
    BlockOneTaken(st, owner, 1, 0, [v]);
    SameForFiles(st, [v]);
  }

  lemma NextCall(x: Session, req: Request, reqs: seq<Request>, y: Session)
    requires x.fds != [] && ServeAsWritten(x, req) == Served(y)
    ensures y.fds != [] && RunAsWritten(x, [req] + reqs) == RunAsWritten(y, reqs)
  {
    hide ServeAsWritten;
    assert ([req] + reqs)[1..] == reqs;
  }

  /** The root's only entry after byte 14 of its block has become 5. */
  lemma RootEntryChanged(st: State, y: State)
    requires st.inodes[0].size == ENTRY && st.inodes[0].loc[0] == Blk(0) && y.inodes[0] == st.inodes[0]
    requires y.disk[0] == Data(BytesOf(st.disk[0])[14 := 5]) && List(st, 0)[0].inode == 1
    ensures List(y, 0)[0].inode == 5
  {
    hide CString;
    var c, d := Content(st, 0), Content(y, 0);
    assert List(st, 0)[0] == Decode(Raw(c, 0)) && List(y, 0)[0] == Decode(Raw(d, 0));
    forall q | 0 <= q < ENTRY ensures d[q] == if q == 14 then 5 else c[q] {
      assert d[q] == ByteAt(y, 0, q) && c[q] == ByteAt(st, 0, q);
    }
    assert Raw(c, 0)[14] == c[14] && Raw(c, 0)[15] == c[15] && Raw(d, 0)[14] == d[14] && Raw(d, 0)[15] == d[15];
  }

  /** An entry of the root that names a number not in use. */
  lemma DeadEntry(st: State, j: nat)
    requires j < INODES && List(st, 0) != [] && List(st, 0)[0].inode == j && !st.inodes[j].Live()
    ensures !Consistent(st)
  {
    forall owner: Owners, slot: PerInode, depth: PerInode ensures !Inv(st, owner, slot, depth) {
      hide FsInv, InodeInv, List, NamedInv;
      assert !DirInv(st, 0, slot);
    }
  }

  /** One byte written at position -242 of a file whose first block is block 1. */
  lemma NegativeByte(st: State, owner: Owners)
    requires FsInv(st, owner) && st.inodes[1].loc[0] == Blk(1) && st.inodes[1].size == 1
    requires st.inodes[0].Live() && st.inodes[0].loc[0] == Blk(0)
    ensures var x := Session(st, [Desc(0, 0), Desc(1, -242)]);
            var r := NegativePut(x, 1, [5]);
            && r.Served? && r.x.st.inodes[0] == st.inodes[0]
            && r.x.st.disk[0] == Data(BytesOf(st.disk[0])[14 := 5])
            && r.x.st.inodes[5] == st.inodes[5]
  {
    assert At(st.inodes, st.disk, DataOf(0, 0)) == Blk(0);
    assert !st.disk[0].Index? by { assert TypeOk(st.disk[0], owner[0]); }
    hide FsInv;
    var disk1 := st.disk[0 := Data(BytesOf(st.disk[0])[14 := 5])];
    assert SwitchAt(st.inodes[1].loc, st.disk, -242) == Addr(Blk(1), -242);
    assert [5][..1] == [5] && [5][1..] == [];
    assert Stores(st.disk, 14, [5]) == Stores(disk1, 15, []) == Some(disk1);
    assert PutBytes(st.(disk := disk1), 1, 0, []) == (st.(disk := disk1), 0);
  }

  /** A seek to -242, which the source accepts, and a byte written there: it lands in the block of the root
      directory, on the number that the first entry names. */
  lemma SeekingFails()
    ensures var reqs := [MAKE] + ([OPEN] + ([Request.Put(1, [7])] + ([Request.Seek(1, -242)] + ([Request.Put(1, [5])] + []))));
            var r := RunAsWritten(FirstSession(), reqs);
            r.Served? && |List(r.x.st, 0)| == 1 && List(r.x.st, 0)[0].inode == 5 && !Consistent(r.x.st)
  {
    hide Run, Init, List, Consistent, WriteFile, IsExist, CreateIn, Fields, RunAsWritten, NegativePut, Stores;
    OpenedFile();
    var st := Run(Init(), Makes(1));
    var x := Serve(Serve(FirstSession(), MAKE), OPEN);
    TwoCalls(FirstSession(), MAKE, OPEN);
    FirstByte(st, 7);
    FileIsRegular(st);
    FirstEntry(st, 1);
    RootSize(st, 1);
    var st1 := WriteFile(st, 1, 0, [7], true).0;
    var x1, x2 := Session(st1, [Desc(0, 0), Desc(1, 1)]), Session(st1, [Desc(0, 0), Desc(1, -242)]);
    assert ServeAsWritten(x, Request.Put(1, [7])) == Served(x1);
    assert ServeAsWritten(x1, Request.Seek(1, -242)) == Served(x2);
    var owner := OwnerOfConsistent(st1);
    RootFields(st, 1);
    RootBlock(st);
    NegativeByte(st1, owner);
    var y := NegativePut(x2, 1, [5]).x;
    assert ServeAsWritten(x2, Request.Put(1, [5])) == Served(y);
    RootEntryChanged(st1, y.st);
    DeadEntry(y.st, 5);
    NextCall(FirstSession(), MAKE, [OPEN] + ([Request.Put(1, [7])] + ([Request.Seek(1, -242)] + ([Request.Put(1, [5])] + []))),
             Serve(FirstSession(), MAKE));
    NextCall(Serve(FirstSession(), MAKE), OPEN, [Request.Put(1, [7])] + ([Request.Seek(1, -242)] + ([Request.Put(1, [5])] + [])), x);
    NextCall(x, Request.Put(1, [7]), [Request.Seek(1, -242)] + ([Request.Put(1, [5])] + []), x1);
    NextCall(x1, Request.Seek(1, -242), [Request.Put(1, [5])] + [], x2);
    NextCall(x2, Request.Put(1, [5]), [], y);
    NoCalls(y);
  }

  lemma NoCalls(x: Session)
    requires x.fds != []
    ensures RunAsWritten(x, []) == Served(x)
  {
  }

  lemma RootBlock(st: State)
    requires Fields(st, 1)
    ensures st.inodes[0].loc[0] == Blk(0)
  {
  }

  lemma OwnerOfConsistent(st: State) returns (owner: Owners)
    requires Consistent(st)
    ensures FsInv(st, owner)
  {
    var slot, depth;
    owner, slot, depth :| Inv(st, owner, slot, depth);
  }

  const REMOVE: Request := Request.Remove(true, [], NameOf(0))

  /** A second process has created a file, opened it and unlinked it. */
  function StaleWorld(): (w: World)
    ensures Peopled(w) && |w.tables| == 2
  {
    CalledAll(World(Init(), [[Desc(0, 0)], [Desc(0, 0)]]), [(1, MAKE), (1, OPEN), (1, REMOVE)])
  }

  /** Another process than the first one can unlink the file it has just opened. */
  lemma UnlinkingFails()
    ensures var w1 := StaleWorld();
            && w1.tables == [[Desc(0, 0)], [Desc(0, 0), Desc(1, 0)]] && !InFile(w1.st, Desc(1, 0))
            && Consistent(w1.st) && Freed(w1.st.inodes[1]) && w1.st.freeBlocks >= 1
  {
    hide Run, List, Consistent, IsExist, Fields, Serve, ServeWith, Called, CalledAll, Init;
    var st := Run(Init(), Makes(1));
    var own := [Desc(0, 0)];
    var w := World(Init(), [own, own]);
    FirstCalls(w, st, own);
    var w2 := World(st, [own, [Desc(0, 0), Desc(1, 0)]]);
    OpenedFile();
    RemovesOpen(st, w2);
    ThreeCalls(w, 1, MAKE, OPEN, REMOVE);
  }

  lemma ThreeCalls(w: World, j: nat, a: Request, b: Request, c: Request)
    requires Peopled(w) && j < |w.tables|
    ensures CalledAll(w, [(j, a), (j, b), (j, c)]) == Called(Called(Called(w, j, a), j, b), j, c)
  {
    hide Called;
    var w1, w2 := Called(w, j, a), Called(Called(w, j, a), j, b);
    assert [(j, a), (j, b), (j, c)][1..] == [(j, b), (j, c)] && [(j, b), (j, c)][1..] == [(j, c)] && [(j, c)][1..] == [];
    assert CalledAll(w2, [(j, c)]) == CalledAll(Called(w2, j, c), []);
    assert CalledAll(w1, [(j, b), (j, c)]) == CalledAll(w2, [(j, c)]);
  }

  /** Creating and opening as in a single process. */
  lemma FirstCalls(w: World, st: State, own: seq<Desc>)
    requires own == [Desc(0, 0)] && w == World(Init(), [own, own]) && st == Run(Init(), Makes(1))
    ensures Called(Called(w, 1, MAKE), 1, OPEN) == World(st, [own, [Desc(0, 0), Desc(1, 0)]])
  {
    hide Run, Init, List, Consistent, IsExist, Fields, CreateIn;
    OpenedFile();
    TwoCalls(FirstSession(), MAKE, OPEN);
    var x := Serve(FirstSession(), MAKE);
    assert x.fds == own;
    assert Called(w, 1, MAKE) == World(x.st, [own, own]);
    var y := Serve(x, OPEN);
    assert Called(World(x.st, [own, own]), 1, OPEN) == World(y.st, [own, y.fds]);
  }

  /** As written isOpen does not find the file in the first table. */
  lemma RemovesOpen(st: State, w: World)
    requires Rooted(st, 1) && w == World(st, [[Desc(0, 0)], [Desc(0, 0), Desc(1, 0)]])
    ensures var w1 := Called(w, 1, REMOVE); w1.tables == w.tables && Consistent(w1.st) && Freed(w1.st.inodes[1]) && w1.st.freeBlocks >= 1
  {
    var owner, slot, depth := InvOfConsistent(st);
    hide Inv, List, Consistent, IsExist, UnlinkIn, Find;
    FirstEntry(st, 1);
    FileIsRegular(st);
    var open := OpenSet([Desc(0, 0)]);
    assert 1 !in open;
    UnlinkInExact(st, owner, slot, depth, 0, NameOf(0), open);
    ResetLast(st, NameOf(0), open);
    assert Step(st, Unlink(0, [], NameOf(0), open)) == UnlinkIn(st, 0, NameOf(0), open);
  }

  /** The fields that free_inode leaves. */
  predicate Freed(inode: Inode) {
    !inode.Live() && inode.kind.Nul? && inode.blockNumber == 0
  }

  lemma ResetLast(st: State, name: Name, open: set<nat>)
    requires UnlinkIn(st, 0, name, open).1 && IsExist(st, 0, name) == Some(1)
    ensures Freed(UnlinkIn(st, 0, name, open).0.inodes[1])
  {
    hide IsExist, FreeBlock, RemoveEntry;
  }

  /** A write through that descriptor gives blocks to the freed number. */
  lemma StaleWriteFails(v: Byte)
    ensures Consistent(StaleWorld().st) && !Consistent(Called(StaleWorld(), 1, Request.Put(1, [v])).st)
  {
    hide Consistent, WriteFile, StaleWorld;
    UnlinkingFails();
    var w1 := StaleWorld();
    DeadWritten(w1.st, v);
    assert Called(w1, 1, Request.Put(1, [v])).st == WriteFile(w1.st, 1, 0, [v], true).0;
  }

  /** Inode 1 has a pointer although it is not in use. */
  predicate Haunted(st: State) {
    !st.inodes[1].Live() && st.inodes[1].loc[1].Blk?
  }

  lemma HauntedIsBroken(st: State)
    requires Haunted(st)
    ensures !Consistent(st)
  {
    forall owner: Owners, slot: PerInode, depth: PerInode ensures !Inv(st, owner, slot, depth) {
      hide InodeInv, TreeInv, OwnInv;
      assert At(st.inodes, st.disk, DataOf(1, 1)) == st.inodes[1].loc[1];
      assert !Shape(st, 1);
    }
  }

  lemma NoFirstBlock(st: State, owner: Owners, slot: PerInode, depth: PerInode)
    requires Inv(st, owner, slot, depth) && !st.inodes[1].Live() && st.freeBlocks >= 1
    ensures st.inodes[1].loc[0].Null? && 0 <= st.firstBlock < SPACE
  {
    assert Shape(st, 1) && At(st.inodes, st.disk, DataOf(1, 0)) == st.inodes[1].loc[0];
    FirstBlockUsable(st);
  }

  /** Taking more blocks leaves it so. */
  lemma StaysHaunted(st: State)
    requires Haunted(st) && st.inodes[1].loc[0].Null? && 1 <= st.inodes[1].blockNumber <= 2
    ensures match AllocateBlock(st, 1)
            case None => true
            case Some(st1) => Haunted(st1) && st1.inodes[1].loc[0].Null? && st1.inodes[1].blockNumber == st.inodes[1].blockNumber + 1
                              && st1.inodes[1].kind == st.inodes[1].kind
  {
    var b, s := st.inodes[1].blockNumber + 1, Bump(st, 1);
    assert RolesNeeded(st, 1, b) == [DataOf(1, b)] && [DataOf(1, b)][1..] == [];
    assert AttachAll(s, [DataOf(1, b)]) == AttachAll(Attach(s, DataOf(1, b)), []) == Attach(s, DataOf(1, b));
    hide AttachAll;
  }

  /** With nothing in its first slot a byte for the inode takes a block and is not stored. */
  lemma ByteLost(st: State, v: Byte)
    requires st.inodes[1].loc[0].Null?
    requires AllocateBlock(st, 1).Some? ==> AllocateBlock(st, 1).value.inodes[1].loc[0].Null?
    ensures PutBytes(st, 1, 0, [v]).0 == match AllocateBlock(st, 1) case None => st case Some(st1) => st1
  {
    hide AllocateBlock;
    assert [v][1..] == [];
  }

  lemma {:induction false} DeadWritten(st: State, v: Byte)
    requires Consistent(st) && Freed(st.inodes[1]) && st.freeBlocks >= 1
    ensures !Consistent(WriteFile(st, 1, 0, [v], true).0)
  {
    var owner, slot, depth := InvOfConsistent(st);
    assert st.inodes[1].loc[0].Null? && 0 <= st.firstBlock < SPACE by { NoFirstBlock(st, owner, slot, depth); }
    hide Consistent, Inv, AllocateBlock;
    Attached(st, 1, 1);
    var st1 := AllocateBlock(st, 1).value;
    assert Haunted(st1) && st1.inodes[1].loc[0].Null? && st1.inodes[1].blockNumber == 1;
    StaysHaunted(st1);
    if AllocateBlock(st1, 1).Some? {
      var st2 := AllocateBlock(st1, 1).value;
      StaysHaunted(st2);
      ByteLost(st2, v);
    }
    HauntedIsBroken(WriteFile(st, 1, 0, [v], true).0);
  }
}
