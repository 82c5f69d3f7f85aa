/** A run from start-up after which freeing an empty directory crashes: it once had 128 entries. */
module EmptiedDirectory {
  import opened Disk
  import opened BlockIndex
  import opened FileData
  import opened Directory
  import opened Inodes
  import opened Namespace
  import opened Tree
  import opened Runs
  import opened WriteLength
  import opened AsWritten
  import opened Failures

  const MAKE_DIR: Op := Create(0, [], NameOf(0), true, 0, PAD)

  function MakeIn(k: nat): Op
    requires k < 128
  {
    Create(1, [], NameOf(k), false, 0, PAD)
  }

  function DropFrom(k: nat): Op
    requires k < 128
  {
    Unlink(1, [], NameOf(k), {})
  }

  /** A directory, and m files in it. */
  function Grown(m: nat): State
    requires m <= 128
  {
    if m == 0 then Step(Init(), MAKE_DIR).0 else Step(Grown(m - 1), MakeIn(m - 1)).0
  }

  /** After that all but the first m are removed, the last ones first. */
  function Shrunk(m: nat): State
    requires m <= 128
    decreases 128 - m
  {
    if m == 128 then Grown(128) else Step(Shrunk(m + 1), DropFrom(m)).0
  }

  /** The directory has entries for m files, in n blocks, and is the only entry of the root. */
  ghost predicate Filled(st: State, m: nat, n: nat) {
    && m <= 128 && Consistent(st) && IsDir(st, 0) && IsDir(st, 1) && st.inodes[1].size == ENTRY * m && st.inodes[1].BlockCount() == n
    && List(st, 0) == [Entry(NameOf(0), 1)] && |List(st, 1)| == m
    && forall e :: 0 <= e < m ==> List(st, 1)[e].name == NameOf(e) && IsFile(st, List(st, 1)[e].inode)
  }

  predicate IsFile(st: State, j: nat) {
    j < INODES && st.inodes[j].Live() && st.inodes[j].kind.Reg?
  }

  /** While it grows it has just the blocks that it needs. */
  ghost predicate Growing(st: State, m: nat) {
    && Filled(st, m, Covering(ENTRY * m))
    && st.freeInodes == INODES - 2 - m && st.freeBlocks == SPACE - 1 - Cost(Covering(ENTRY * m))
  }

  lemma EntryOfDir(st: State)
    requires Rooted(st, 0)
    ensures Consistent(st) && IsDir(st, 0) && st.inodes[0].size == 0 && IsExist(st, 0, NameOf(0)) == None && |List(st, 0)| == 0
    ensures st.firstInode == 1 && st.freeInodes == INODES - 1 && st.freeBlocks == SPACE - 1
    ensures var (st1, w) := WriteFile(st, 0, 0, Encode(NameOf(0), 1, PAD), false);
            w != -1 && st1.freeBlocks == st.freeBlocks && IsDir(st1, 0)
  {
    var owner, slot, depth := InvOfConsistent(st);
    hide Inv, List, Consistent, WriteFile, Encode, FsInv, Fields, Find, IsExist;
    InvIsFsInv(st, owner, slot, depth);
    RootFields(st, 0);
    NameIsNew(st, 0);
    RootSize(st, 0);
    EntryWritten(st, 0, owner, Encode(NameOf(0), 1, PAD));
  }

  lemma DirCreated(st: State)
    requires Rooted(st, 0)
    ensures var (st1, ok) := CreateIn(st, 0, NameOf(0), true, 0, PAD);
            && ok && Consistent(st1) && IsDir(st1, 0) && IsDir(st1, 1) && st1.inodes[1].BlockCount() == 0 && |Content(st1, 1)| == 0
            && List(st1, 0) == [Entry(NameOf(0), 1)] && st1.freeInodes == INODES - 2 && st1.freeBlocks == SPACE - 1
            && Step(st, MAKE_DIR).0 == st1
  {
    EntryOfDir(st);
    hide List, Consistent, WriteFile, CreateIn, Content, Encode, Rooted, IsExist;
    Created(st, 0, NameOf(0), true);
    assert List(st, 0) + [Entry(NameOf(0), 1)] == [Entry(NameOf(0), 1)];
  }

  lemma DirMade()
    ensures Growing(Grown(0), 0)
  {
    InitRooted();
    hide Init, Rooted, CreateIn, Step, Consistent, EntryList;
    DirCreated(Init());
  }

  lemma NewName(st: State, m: nat, n: nat)
    requires Filled(st, m, n) && m < 128
    ensures Find(List(st, 1), NameOf(m)) == None && IsExist(st, 1, NameOf(m)) == None
  {
    hide Consistent, List, Find;
    var l := List(st, 1);
    FindSome(l, NameOf(m));
    forall e | 0 <= e < m ensures l[e].name != NameOf(m) {
      assert NameOf(e)[0] != NameOf(m)[0];
    }
  }

  lemma FreeNumber(st: State)
    requires Consistent(st) && IsDir(st, 1) && IsDir(st, 0) && st.freeInodes >= 1
    ensures 1 < st.firstInode < INODES && !st.inodes[st.firstInode].Live()
  {
    hide FsInv, TreeInv, Consistent, FreeInodeCount;
    var owner, slot, depth := InvOfConsistent(st);
    FirstInodeUsable(st);
  }

  lemma SizeOfList(st: State, d: nat)
    requires Consistent(st) && IsDir(st, d)
    ensures st.inodes[d].size == ENTRY * |List(st, d)|
  {
    var owner, slot, depth := InvOfConsistent(st);
    hide FsInv, InodeInv;
    assert DirInv(st, d, slot);
  }

  /** The entry of one more file can be written. */
  lemma EntryOfFile(st: State, m: nat)
    requires Growing(st, m) && m < 128
    ensures 1 < st.firstInode < INODES && !st.inodes[st.firstInode].Live()
    ensures var (st1, w) := WriteFile(st, 1, st.inodes[1].size, Encode(NameOf(m), st.firstInode, PAD), false);
            && w != -1 && st1.inodes[1].BlockCount() == Covering(ENTRY * (m + 1))
            && st1.freeBlocks == SPACE - 1 - Cost(Covering(ENTRY * (m + 1)))
  {
    FreeNumber(st);
    var owner, slot, depth := InvOfConsistent(st);
    hide Inv, List, Consistent, WriteFile, Encode, FsInv;
    InvIsFsInv(st, owner, slot, depth);
    EntryFits(st, owner, 1, m, Encode(NameOf(m), st.firstInode, PAD));
  }

  lemma FileMade(st: State, m: nat)
    requires Growing(st, m) && m < 128
    ensures Growing(Step(st, MakeIn(m)).0, m + 1)
  {
    EntryOfFile(st, m);
    NewName(st, m, Covering(ENTRY * m));
    hide List, Consistent, WriteFile, CreateIn, Content, Encode, IsExist, Find, Step;
    Created(st, 1, NameOf(m), false);
    var st1 := CreateIn(st, 1, NameOf(m), false, 0, PAD).0;
    StepMakes(st, m);
    SizeOfList(st1, 1);
    SameContentSameList(st, st1);
    EntriesKept(st, st1, List(st, 1), m, st.firstInode);
  }

  /** Files keep their numbers when another number is taken. */
  lemma EntriesKept(st: State, st1: State, l: seq<Entry>, m: nat, f: nat)
    requires |l| == m <= 127 && forall e :: 0 <= e < m ==> l[e].name == NameOf(e) && IsFile(st, l[e].inode)
    requires f < INODES && !st.inodes[f].Live() && IsDir(st, 1) && IsFile(st1, f)
    requires forall j :: 0 <= j < INODES && j != 1 && j != f ==> st1.inodes[j] == st.inodes[j]
    ensures var l1 := l + [Entry(NameOf(m), f)];
            forall e :: 0 <= e < m + 1 ==> l1[e].name == NameOf(e) && IsFile(st1, l1[e].inode)
  {
    forall e | 0 <= e < m ensures IsFile(st1, l[e].inode) { assert IsFile(st, l[e].inode); }
  }

  lemma EntryLive(st: State, d: nat, e: nat)
    requires Consistent(st) && IsDir(st, d) && e < |List(st, d)|
    ensures List(st, d)[e].inode < INODES && st.inodes[List(st, d)[e].inode].Live()
  {
    var owner, slot, depth := InvOfConsistent(st);
    hide FsInv, InodeInv;
    assert DirInv(st, d, slot);
  }

  lemma LastFound(st: State, m: nat, n: nat)
    requires Filled(st, m + 1, n)
    ensures Find(List(st, 1), NameOf(m)) == Some(m) && IsExist(st, 1, NameOf(m)) == Some(List(st, 1)[m].inode)
  {
    hide Consistent, List;
    var l := List(st, 1);
    assert l[m].name == NameOf(m);
    forall e | 0 <= e < m ensures l[e].name != NameOf(m) {
      assert NameOf(e)[0] != NameOf(m)[0];
    }
  }

  /** The removal of the last entry, whose number is i. */
  lemma LastUnlinked(st: State, name: Name, m: nat, i: nat)
    requires Consistent(st) && IsDir(st, 1) && |List(st, 1)| == m + 1 && IsFile(st, i)
    requires Find(List(st, 1), name) == Some(m) && IsExist(st, 1, name) == Some(i)
    ensures var (st1, ok) := UnlinkIn(st, 1, name, {});
            && ok && Consistent(st1) && IsDir(st1, 1) && List(st1, 1) == List(st, 1)[..m] && SameBlocks(st, st1, 1)
            && !st1.inodes[i].Live()
            && forall j :: 0 <= j < INODES && j != 1 && j != i ==> Content(st1, j) == Content(st, j) && st1.inodes[j] == st.inodes[j]
  {
    var owner, slot, depth := InvOfConsistent(st);
    hide Inv, List, Consistent, UnlinkIn, IsExist, Find, FsInv, Unlinked, SwapRemove, SameBlocks;
    InvIsFsInv(st, owner, slot, depth);
    UnlinkInExact(st, owner, slot, depth, 1, name, {});
    SwapLast(List(st, 1), m);
    ReadUnlinked(st, owner, UnlinkIn(st, 1, name, {}).0, 1, i);
  }

  lemma SwapLast(l: seq<Entry>, m: nat)
    requires |l| == m + 1
    ensures SwapRemove(l, m) == l[..m]
  {
  }

  lemma ReadUnlinked(st: State, owner: Owners, st1: State, d: nat, i: nat)
    requires FsInv(st, owner) && i < INODES && IsDir(st, d) && i != d && Unlinked(st, owner, st1, d, i)
    ensures IsDir(st1, d) && !st1.inodes[i].Live()
    ensures forall j :: 0 <= j < INODES && j != d && j != i ==> Content(st1, j) == Content(st, j) && st1.inodes[j] == st.inodes[j]
  {
    hide FsInv, Content;
    assert SameNode(st, st1, d);
  }

  /** The removal of the last file makes no block of the directory free. */
  lemma FileDropped(st: State, m: nat, n: nat)
    requires Filled(st, m + 1, n)
    ensures Filled(Step(st, DropFrom(m)).0, m, n)
  {
    hide List, Content, Consistent, UnlinkIn, Step, IsExist, Find, SameBlocks;
    LastFound(st, m, n);
    var i := List(st, 1)[m].inode;
    assert IsFile(st, i);
    LastUnlinked(st, NameOf(m), m, i);
    var st1 := UnlinkIn(st, 1, NameOf(m), {}).0;
    StepDrops(st, m);
    SameBlockCount(st, st1);
    SameContentSameList(st, st1);
    SizeOfList(st1, 1);
    FilesKept(st, st1, m, i);
  }

  lemma SameBlockCount(st: State, st1: State)
    requires SameBlocks(st, st1, 1)
    ensures st1.inodes[1].BlockCount() == st.inodes[1].BlockCount()
  {
  }

  lemma StepDrops(st: State, m: nat)
    requires IsDir(st, 1) && m < 128
    ensures Step(st, DropFrom(m)) == UnlinkIn(st, 1, NameOf(m), {})
  {
    hide UnlinkIn;
  }

  lemma StepMakes(st: State, m: nat)
    requires IsDir(st, 1) && m < 128 && st.freeBlocks >= 1 && st.freeInodes >= 1
    ensures Step(st, MakeIn(m)) == CreateIn(st, 1, NameOf(m), false, 0, PAD)
  {
    hide CreateIn;
  }

  lemma FilesKept(st: State, st1: State, m: nat, i: nat)
    requires IsDir(st, 1) && Consistent(st1) && IsDir(st1, 1) && |List(st, 1)| == m + 1 <= 128 && List(st1, 1) == List(st, 1)[..m]
    requires i < INODES && !st1.inodes[i].Live() && forall j :: 0 <= j < INODES && j != 1 && j != i ==> st1.inodes[j] == st.inodes[j]
    requires forall e :: 0 <= e < m + 1 ==> List(st, 1)[e].name == NameOf(e) && IsFile(st, List(st, 1)[e].inode)
    ensures forall e :: 0 <= e < m ==> List(st1, 1)[e].name == NameOf(e) && IsFile(st1, List(st1, 1)[e].inode)
  {
    hide List, Consistent;
    var l, l1 := List(st, 1), List(st1, 1);
    forall e | 0 <= e < m ensures l1[e].name == NameOf(e) && IsFile(st1, l1[e].inode) {
      EntryLive(st1, 1, e);
      assert l1[e] == l[e] && IsFile(st, l[e].inode);
    }
  }

  lemma {:induction false} GrownFilled(m: nat)
    requires m <= 128
    ensures Growing(Grown(m), m)
  {
    hide Growing, Step;
    if m == 0 {
      DirMade();
    } else {
      GrownFilled(m - 1);
      FileMade(Grown(m - 1), m - 1);
    }
  }

  lemma {:induction false} ShrunkFilled(m: nat)
    requires m <= 128
    ensures Filled(Shrunk(m), m, 8)
    decreases 128 - m
  {
    hide Filled, Step, Grown;
    if m == 128 {
      GrownFilled(128);
      assert Covering(ENTRY * 128) == 8;
    } else {
      ShrunkFilled(m + 1);
      FileDropped(Shrunk(m + 1), m, 8);
    }
  }

  /** The directory is empty, so that rd_unlink removes it, but block_number is still 8 and free_block crashes. */
  lemma EmptiedDirectoryFails()
    ensures NumberLeft(Grown(128).inodes[1]) == 8
    ensures var st := Shrunk(0);
            && Consistent(st) && IsDir(st, 1) && List(st, 1) == [] && UnlinkIn(st, 0, NameOf(0), {}).1
            && FreeBlockAsWritten(st, 1, 8).Crashed?
  {
    hide Grown, Shrunk, EntryList, Consistent, FreeBlockAsWritten, UnlinkIn;
    GrownFilled(128);
    ShrunkFilled(0);
    EmptyOneCrashes(Shrunk(0));
  }

  lemma EmptyOneCrashes(st: State)
    requires Filled(st, 0, 8)
    ensures UnlinkIn(st, 0, NameOf(0), {}).1 && FreeBlockAsWritten(st, 1, 8).Crashed?
  {
    var owner, slot, depth := InvOfConsistent(st);
    hide Inv, FsInv, List, Consistent, FreeBlockAsWritten, UnlinkIn, Find;
    InvIsFsInv(st, owner, slot, depth);
    FullBlocksCrash(st, owner, 1, 8);
    OnlyEntry(List(st, 0));
    UnlinkInExact(st, owner, slot, depth, 0, NameOf(0), {});
  }

  lemma OnlyEntry(l: seq<Entry>)
    requires l == [Entry(NameOf(0), 1)]
    ensures Find(l, NameOf(0)) == Some(0)
  {
  }
}
