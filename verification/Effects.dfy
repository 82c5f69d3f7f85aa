/** What one call does, told by the files' contents, the directories' lists and the paths between them. */
module Effects {
  import opened Disk
  import opened BlockIndex
  import opened FileData
  import opened FreeBlocks
  import opened Directory
  import opened Inodes
  import opened Namespace
  import opened Runs
  import opened WriteLength

  /** Entry e of directory d is the name and number of what a lookup should find. */
  ghost predicate Listed(st: State, d: nat, name: Name, j: nat) {
    d < INODES && exists e :: 0 <= e < |List(st, d)| && List(st, d)[e] == Entry(name, j)
  }

  /** The inodes ds lie on the way that the names lead from ds[0] on, and all are directories in use. */
  ghost predicate Way(st: State, ds: seq<nat>, comps: seq<Name>) {
    && |ds| == |comps| + 1
    && (forall k :: 0 <= k < |ds| ==> IsDir(st, ds[k]))
    && (forall k :: 0 <= k < |comps| ==> Listed(st, ds[k], comps[k], ds[k + 1]))
  }

  /** A lookup finds a number exactly when an entry has that name and that number. */
  lemma {:induction false} LookupIff(st: State, d: nat, name: Name, j: nat)
    requires Consistent(st) && IsDir(st, d)
    ensures IsExist(st, d, name) == Some(j) <==> Listed(st, d, name, j)
  {
    hide FsInv, InodeInv, List;
    var owner, slot, depth :| Inv(st, owner, slot, depth);
    assert DirInv(st, d, slot);
    var l := List(st, d);
    FindSome(l, name);
    if Find(l, name).Some? { assert l[Find(l, name).value] == Entry(name, l[Find(l, name).value].inode); }
  }

  /** A path leads to a directory exactly when there is such a way. */
  lemma {:induction false} ResolveIff(st: State, d: nat, comps: seq<Name>, r: nat)
    requires Consistent(st)
    ensures Resolve(st, d, comps) == Some(r) <==> exists ds :: Way(st, ds, comps) && ds[0] == d && ds[|comps|] == r
    decreases |comps|
  {
    hide Consistent, IsExist, Listed;
    if comps == [] {
      if IsDir(st, d) { assert Way(st, [d], []); }
    } else if IsDir(st, d) {
      var found := IsExist(st, d, comps[0]);
      if found.Some? {
        LookupIff(st, d, comps[0], found.value);
        ResolveIff(st, found.value, comps[1..], r);
        if Resolve(st, found.value, comps[1..]) == Some(r) {
          var ds :| Way(st, ds, comps[1..]) && ds[0] == found.value && ds[|comps| - 1] == r;
          WayLonger(st, d, ds, comps);
        }
      }
      forall ds | Way(st, ds, comps) && ds[0] == d && ds[|comps|] == r ensures Resolve(st, d, comps) == Some(r) {
        LookupIff(st, d, comps[0], ds[1]);
        assert found == Some(ds[1]);
        WayShorter(st, ds, comps);
      }
    }
  }

  lemma WayLonger(st: State, d: nat, ds: seq<nat>, comps: seq<Name>)
    requires comps != [] && IsDir(st, d) && Way(st, ds, comps[1..]) && Listed(st, d, comps[0], ds[0])
    ensures Way(st, [d] + ds, comps)
  {
    hide Listed;
    forall k | 0 <= k < |comps| ensures Listed(st, ([d] + ds)[k], comps[k], ([d] + ds)[k + 1]) {
      if k > 0 { assert comps[1..][k - 1] == comps[k] && Listed(st, ds[k - 1], comps[1..][k - 1], ds[k - 1 + 1]); }
    }
  }

  lemma WayShorter(st: State, ds: seq<nat>, comps: seq<Name>)
    requires comps != [] && Way(st, ds, comps)
    ensures Way(st, ds[1..], comps[1..])
  {
    hide Listed;
    forall k | 0 <= k < |comps| - 1 ensures Listed(st, ds[1..][k], comps[1..][k], ds[1..][k + 1]) {
      assert Listed(st, ds[k + 1], comps[k + 1], ds[k + 1 + 1]);
    }
  }

  /** The names lead from inode `start` to directory d. */
  ghost predicate Leads(st: State, start: nat, comps: seq<Name>, d: nat) {
    exists ds :: Way(st, ds, comps) && ds[0] == start && ds[|comps|] == d
  }

  /** Position p, which is at most at the end of inode i's blocks, is in a block that it has or can get. */
  predicate HasRoom(st: State, i: nat, p: nat)
    requires i < INODES
  {
    var n := st.inodes[i].BlockCount();
    0 <= n <= MAX_BLOCKS && p < BLOCK_SIZE * Room(n, st.freeBlocks)
  }

  /** As much of s as there is room for has gone to position p of file i, and nothing else has changed. */
  ghost predicate WriteDone(st: State, i: nat, p: nat, s: seq<Byte>, st1: State) {
    && i < INODES && p <= st.inodes[i].size && HasRoom(st, i, p)
    && var w := Min(|s|, BLOCK_SIZE * Room(st.inodes[i].BlockCount(), st.freeBlocks) - p);
    && Content(st1, i) == Splice(Content(st, i), p, s[..w]) && OnlyWrites(st, st1, i)
    && forall j :: 0 <= j < INODES && j != i ==> Content(st1, j) == Content(st, j)
  }

  /** Directory d can take one more entry with this name. */
  ghost predicate CanHold(st: State, d: nat, name: Name) {
    && d < INODES && st.freeBlocks >= 1 && st.freeInodes >= 1 && |name| <= 13
    && (forall j: nat :: !Listed(st, d, name, j)) && HasRoom(st, d, st.inodes[d].size)
  }

  /** The name is the last entry of d, for an empty file of this kind and mode with the least free number. */
  ghost predicate CreateDone(st: State, d: nat, name: Name, kind: Kind, mode: int, st1: State) {
    && d < INODES && 0 <= st.firstInode < INODES && Made(st, st1, d, name, kind)
    && st1.inodes[st.firstInode].mode == mode && Listed(st1, d, name, st.firstInode)
  }

  /** Inode i is no directory with entries, and not open. */
  ghost predicate MayGo(st: State, i: nat, open: set<nat>) {
    i < INODES && !(IsDir(st, i) && List(st, i) != []) && i !in open
  }

  /** The entry of d that names i is gone, the last one is in its place, and i is a freed inode without pointers. */
  ghost predicate UnlinkDone(st: State, d: nat, name: Name, i: nat, st1: State) {
    && d < INODES && i < INODES && st1.inodes[i] == FREE_INODE
    && (exists owner :: FsInv(st, owner) && Unlinked(st, owner, st1, d, i))
    && exists e :: 0 <= e < |List(st, d)| && List(st, d)[e] == Entry(name, i) && List(st1, d) == SwapRemove(List(st, d), e)
  }

  /** The flag is true exactly when the call can do its work, and then it has done it; otherwise nothing has changed. */
  ghost predicate Effect(st: State, op: Op, st1: State, ok: bool) {
    && (!ok ==> st1 == st)
    && match op
       case Write(i, p, s) =>
         && (ok <==> i < INODES && st.inodes[i].Live() && !st.inodes[i].kind.Dir? && p <= st.inodes[i].size && HasRoom(st, i, p))
         && (ok ==> WriteDone(st, i, p, s, st1))
       case Create(start, comps, name, isDir, mode, pad) =>
         && (ok <==> exists d :: Leads(st, start, comps, d) && CanHold(st, d, name))
         && (ok ==> exists d :: Leads(st, start, comps, d) && CreateDone(st, d, name, if isDir then Dir else Reg, mode, st1))
       case Unlink(start, comps, name, open) =>
         && (ok <==> exists d, i :: Leads(st, start, comps, d) && Listed(st, d, name, i) && MayGo(st, i, open))
         && (ok ==> exists d, i :: Leads(st, start, comps, d) && UnlinkDone(st, d, name, i, st1))
  }

  lemma {:induction false} WriteCall(st: State, i: nat, p: nat, s: seq<Byte>)
    requires Consistent(st)
    ensures Effect(st, Write(i, p, s), Step(st, Write(i, p, s)).0, Step(st, Write(i, p, s)).1)
  {
    hide Inv, WriteFile, Content, Splice, Room;
    if i < INODES && st.inodes[i].Live() && p <= st.inodes[i].size {
      var owner, slot, depth :| Inv(st, owner, slot, depth);
      WriteStepExact(st, owner, slot, depth, i, p, s);
      InvIsFsInv(st, owner, slot, depth);
      WriteLengthExact(st, owner, i, p, s, true);
      RoomSteps(st.inodes[i].BlockCount(), st.freeBlocks, p);
    }
  }

  lemma {:induction false} LeadsIff(st: State, start: nat, comps: seq<Name>)
    requires Consistent(st)
    ensures forall d: nat :: Leads(st, start, comps, d) <==> Resolve(st, start, comps) == Some(d)
  {
    hide Consistent, Resolve;
    forall d: nat ensures Leads(st, start, comps, d) <==> Resolve(st, start, comps) == Some(d) {
      ResolveIff(st, start, comps, d);
    }
  }

  lemma {:induction false} ListedIff(st: State, d: nat, name: Name)
    requires Consistent(st) && IsDir(st, d)
    ensures forall j: nat :: Listed(st, d, name, j) <==> IsExist(st, d, name) == Some(j)
  {
    hide Consistent, IsExist, Listed;
    forall j: nat ensures Listed(st, d, name, j) <==> IsExist(st, d, name) == Some(j) { LookupIff(st, d, name, j); }
  }

  /** The entry is written exactly when there is room, and the new record has the mode. */
  lemma {:induction false} EntryWritten(st: State, owner: Owners, d: nat, name: Name, isDir: bool, mode: int, pad: Pad)
    requires FsInv(st, owner) && IsDir(st, d) && |name| <= 13 && IsExist(st, d, name) == None && 0 <= st.firstInode < INODES
    ensures var (st1, ok) := CreateIn(st, d, name, isDir, mode, pad);
            && (ok <==> HasRoom(st, d, st.inodes[d].size))
            && (ok ==> st1.inodes[st.firstInode].mode == mode)
  {
    hide FsInv, WriteFile, IsExist, Room, Content, Splice, Encode;
    var size, e := st.inodes[d].size, Encode(name, st.firstInode, pad);
    var owner1 := WriteFileSplices(st, owner, d, size, e, false);
    WriteLengthExact(st, owner, d, size, e, false);
    RoomSteps(st.inodes[d].BlockCount(), st.freeBlocks, size);
    var (st0, w) := WriteFile(st, d, size, e, false);
    assert st0.firstInode == st.firstInode;
    assert AllocateInode(st0, d, mode, if isDir then Dir else Reg).inodes[st.firstInode].mode == mode;
  }

  lemma {:induction false} CreateCall(st: State, start: nat, comps: seq<Name>, name: Name, isDir: bool, mode: int, pad: Pad)
    requires Consistent(st)
    ensures var op := Create(start, comps, name, isDir, mode, pad); Effect(st, op, Step(st, op).0, Step(st, op).1)
  {
    hide Inv, CreateIn, Resolve, Leads, Listed, Room, IsExist, List, Made;
    LeadsIff(st, start, comps);
    var r := Resolve(st, start, comps);
    if r.Some? && st.freeBlocks >= 1 && st.freeInodes >= 1 {
      var d := r.value;
      var owner, slot, depth :| Inv(st, owner, slot, depth);
      InvIsFsInv(st, owner, slot, depth);
      CreateInExact(st, owner, slot, depth, d, name, isDir, mode, pad);
      ListedIff(st, d, name);
      MadeListed(st, CreateIn(st, d, name, isDir, mode, pad).0, d, name, if isDir then Dir else Reg);
      if |name| <= 13 && IsExist(st, d, name).None? { EntryWritten(st, owner, d, name, isDir, mode, pad); }
    }
  }

  lemma MadeListed(st: State, st1: State, d: nat, name: Name, kind: Kind)
    requires d < INODES && 0 <= st.firstInode < INODES
    ensures Made(st, st1, d, name, kind) ==> |name| <= 13 && IsExist(st, d, name) == None && Listed(st1, d, name, st.firstInode)
  {
    hide List;
    if Made(st, st1, d, name, kind) { assert List(st1, d)[|List(st, d)|] == Entry(name, st.firstInode); }
  }

  /** A number not in use has no pointers. */
  lemma {:induction false} NoPointers(st: State, owner: Owners, i: nat)
    requires FsInv(st, owner) && i < INODES && !st.inodes[i].Live()
    ensures st.inodes[i].loc == NO_LOCS
  {
    assert Shape(st, i);
    forall k | 0 <= k < 10 ensures st.inodes[i].loc[k] == Null {
      var r := if k < 8 then DataOf(i, k) else if k == 8 then SingleOf(i) else DoubleOf(i);
      assert At(st.inodes, st.disk, r) == st.inodes[i].loc[k];
    }
  }

  lemma FreedRecord(st: State, d: nat, name: Name, open: set<nat>, i: nat)
    requires d < INODES && i < INODES && IsExist(st, d, name) == Some(i) && UnlinkIn(st, d, name, open).1
    ensures UnlinkIn(st, d, name, open).0.inodes[i] == FREE_INODE.(loc := UnlinkIn(st, d, name, open).0.inodes[i].loc)
  {
    hide IsExist, FreeBlock, RemoveEntry;
  }

  lemma {:induction false} UnlinkCall(st: State, start: nat, comps: seq<Name>, name: Name, open: set<nat>)
    requires Consistent(st)
    ensures var op := Unlink(start, comps, name, open); Effect(st, op, Step(st, op).0, Step(st, op).1)
  {
    hide Inv, UnlinkIn, Resolve, Leads, IsExist, List, UnlinkDone;
    LeadsIff(st, start, comps);
    var r := Resolve(st, start, comps);
    if r.Some? {
      var d := r.value;
      var owner, slot, depth :| Inv(st, owner, slot, depth);
      UnlinkInExact(st, owner, slot, depth, d, name, open);
      ListedIff(st, d, name);
      UnlinkTarget(st, owner, slot, depth, d, name);
      if UnlinkIn(st, d, name, open).1 { EntryGone(st, owner, slot, depth, d, name, open, IsExist(st, d, name).value); }
    }
  }

  lemma {:induction false} EntryGone(st: State, owner: Owners, slot: PerInode, depth: PerInode, d: nat, name: Name, open: set<nat>, i: nat)
    requires Inv(st, owner, slot, depth) && IsDir(st, d) && IsExist(st, d, name) == Some(i) && UnlinkIn(st, d, name, open).1
    ensures UnlinkDone(st, d, name, i, UnlinkIn(st, d, name, open).0)
  {
    hide FsInv, InodeInv, TreeInv, UnlinkIn, IsExist, List, Find, Unlinked;
    InvIsFsInv(st, owner, slot, depth);
    UnlinkInExact(st, owner, slot, depth, d, name, open);
    UnlinkTarget(st, owner, slot, depth, d, name);
    FindSome(List(st, d), name);
    var st1 := UnlinkIn(st, d, name, open).0;
    FreedRecord(st, d, name, open, i);
    NotLive(st, owner, st1, d, i);
    var owner1, slot1, depth1 :| Inv(st1, owner1, slot1, depth1);
    NoPointers(st1, owner1, i);
    assert FREE_INODE.loc == NO_LOCS;
    var e := Find(List(st, d), name).value;
    assert List(st, d)[e] == Entry(name, i) && List(st1, d) == SwapRemove(List(st, d), e);
  }

  lemma NotLive(st: State, owner: Owners, st1: State, d: nat, i: nat)
    requires FsInv(st, owner) && i < INODES && Unlinked(st, owner, st1, d, i)
    ensures !st1.inodes[i].Live()
  {
  }

  /** Every call, in every consistent state, has just the effect that is asked of it. */
  lemma {:induction false} StepExact(st: State, op: Op)
    requires Consistent(st)
    ensures Effect(st, op, Step(st, op).0, Step(st, op).1)
  {
    hide Consistent, Effect, Step;
    match op
    case Create(start, comps, name, isDir, mode, pad) => CreateCall(st, start, comps, name, isDir, mode, pad);
    case Write(i, p, s) => WriteCall(st, i, p, s);
    case Unlink(start, comps, name, open) => UnlinkCall(st, start, comps, name, open);
  }

  /** What there is at start-up: an empty root with the first block, and nothing else. */
  lemma {:induction false} InitExact()
    ensures var st := Init();
            && IsDir(st, 0) && List(st, 0) == [] && st.inodes[0].BlockCount() == 1 && st.inodes[0].loc[0] == Blk(0)
            && st.inodes[0].parent == -2 && st.inodes[0].mode == 0
            && (forall j :: 1 <= j < INODES ==> st.inodes[j] == ZERO_INODE)
            && (forall b :: 0 <= b < SPACE ==> st.disk[b] == Zero && (st.bits[b] <==> b == 0))
            && st.freeBlocks == SPACE - 1 && st.firstBlock == 1 && st.freeInodes == INODES - 1 && st.firstInode == 1
  {
    hide Content;
  }
}
