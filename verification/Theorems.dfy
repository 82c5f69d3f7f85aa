/** What holds of every state that any run of create, write and unlink can reach. */
module Theorems {
  import opened Disk
  import opened Allocator
  import opened BlockIndex
  import opened FileData
  import opened FreeBlocks
  import opened Directory
  import opened Inodes
  import opened Namespace
  import opened Tree
  import opened Runs

  /** Both roles are played, by one and the same block. */
  ghost predicate SameBlock(st: State, r: Role, r': Role) {
    && InRange(r) && InRange(r')
    && At(st.inodes, st.disk, r).Blk? && At(st.inodes, st.disk, r') == At(st.inodes, st.disk, r)
  }

  /** The set bits are exactly the blocks in use, in use once each, by inodes in use; all
      other blocks are zero. */
  lemma {:induction false} BitmapIsOwnership(ops: seq<Op>)
    ensures var st := Run(Init(), ops);
            && (forall b: BlockNo :: st.bits[b] <==> exists r :: InRange(r) && At(st.inodes, st.disk, r) == Blk(b))
            && (forall r, r' :: SameBlock(st, r, r') ==> r' == r)
            && (forall r :: InRange(r) && At(st.inodes, st.disk, r).Blk? ==> st.inodes[r.i].Live())
            && (forall b: BlockNo :: !st.bits[b] ==> st.disk[b] == Zero)
  {
    InitConsistent();
    RunConsistent(Init(), ops);
    hide Run, Init;
    OwnershipOfConsistent(Run(Init(), ops));
  }

  lemma {:induction false} OwnershipOfConsistent(st: State)
    requires Consistent(st)
    ensures forall b: BlockNo :: st.bits[b] <==> exists r :: InRange(r) && At(st.inodes, st.disk, r) == Blk(b)
    ensures forall r, r' :: SameBlock(st, r, r') ==> r' == r
    ensures forall r :: InRange(r) && At(st.inodes, st.disk, r).Blk? ==> st.inodes[r.i].Live()
    ensures forall b: BlockNo :: !st.bits[b] ==> st.disk[b] == Zero
  {
    hide At;
    var owner: Owners, slot, depth :| Inv(st, owner, slot, depth);
    forall r | InRange(r) && At(st.inodes, st.disk, r).Blk? ensures st.inodes[r.i].Live() {
      assert Shape(st, r.i);
    }
    forall b: BlockNo | st.bits[b] ensures exists r :: InRange(r) && At(st.inodes, st.disk, r) == Blk(b) {
      assert At(st.inodes, st.disk, owner[b].value) == Blk(b);
    }
  }

  /** Blocks that the inodes below k take. */
  function Used(st: State, k: nat): nat
    requires k <= INODES
  {
    if k == 0 then 0
    else Used(st, k - 1) + (var n := st.inodes[k - 1].BlockCount(); if n < 0 then 0 else Cost(n))
  }

  function RolesBelow(st: State, k: nat): seq<Role>
    requires k <= INODES
  {
    if k == 0 then []
    else RolesBelow(st, k - 1) + (var n := st.inodes[k - 1].BlockCount(); if n < 0 then [] else RolesOf(k - 1, n))
  }

  lemma {:induction false} RolesBelowExact(st: State, owner: Owners, k: nat)
    requires FsInv(st, owner) && k <= INODES
    ensures var rs := RolesBelow(st, k);
            && NoDup(rs) && |rs| == Used(st, k)
            && (forall r :: r in rs ==> InRange(r) && At(st.inodes, st.disk, r).Blk?)
            && (forall r :: InRange(r) && r.i < k && At(st.inodes, st.disk, r).Blk? ==> r in rs)
            && (forall r :: r in rs ==> r.i < k)
  {
    hide RolesOf, At, FsInv, NoDup;
    if k == 0 {
      NoDupShort<Role>([]);
    } else {
      RolesBelowExact(st, owner, k - 1);
      OwnedBlocks(st, owner, k - 1);
      var n := st.inodes[k - 1].BlockCount();
      RolesOfExact(k - 1, n);
      NoDupConcat(RolesBelow(st, k - 1), RolesOf(k - 1, n));
    }
  }

  /** A duplicate-free list of the marked blocks is as long as there are marked blocks. */
  lemma {:induction false} CountOfList(bits: seq<bool>, bs: seq<BlockNo>)
    requires NoDup(bs) && forall m :: 0 <= m < |bs| ==> bs[m] < |bits|
    requires forall b: BlockNo :: b < |bits| ==> (bits[b] <==> b in bs)
    requires |bits| <= SPACE
    ensures FreeCount(bits, |bits|) == |bits| - |bs|
    decreases |bs|
  {
    if bs == [] {
      AllFree(bits, |bits|);
    } else {
      var b, rest := bs[|bs| - 1], bs[..|bs| - 1];
      var bits1 := bits[b := false];
      assert b in bs && bs == rest + [b];
      FreeCountUpdate(bits, |bits|, b, false);
      CountOfList(bits1, rest);
    }
  }

  lemma {:induction false} FreeCountPrefix(bits: seq<bool>, n: nat, m: nat)
    requires n <= m <= |bits|
    ensures FreeCount(bits[..m], n) == FreeCount(bits, n)
  {
    if n > 0 { FreeCountPrefix(bits, n - 1, m); }
  }

  /** Conservation: in every state of every run, the free blocks and what the inodes' block
      counts cost add up to the whole space. */
  lemma {:induction false} BlocksConserved(ops: seq<Op>)
    ensures var st := Run(Init(), ops);
            st.freeBlocks + Used(st, INODES) == SPACE
  {
    hide Run, Init;
    var owner, slot, depth := Reachable(ops);
    var st := Run(Init(), ops);
    hide Inv, FsInv;
    assert FsInv(st, owner) by { InvIsFsInv(st, owner, slot, depth); }
    RolesBelowExact(st, owner, INODES);
    ListOfUsed(st, owner, RolesBelow(st, INODES));
  }

  lemma {:induction false} ListOfUsed(st: State, owner: Owners, rs: seq<Role>)
    requires FsInv(st, owner) && NoDup(rs)
    requires forall r :: r in rs ==> InRange(r) && At(st.inodes, st.disk, r).Blk?
    requires forall r :: InRange(r) && At(st.inodes, st.disk, r).Blk? ==> r in rs
    ensures st.freeBlocks == SPACE - |rs|
  {
    BitsAreOwned(st, owner);
    BlocksOfRoles(st, owner, rs);
    var bs, bits := BlocksOf(st, rs), st.bits[..SPACE];
    forall b: BlockNo ensures bits[b] <==> b in bs {
      if owner[b].Some? { assert At(st.inodes, st.disk, owner[b].value) == Blk(b); }
    }
    CountOfList(bits, bs);
    FreeCountPrefix(st.bits, SPACE, SPACE);
  }

  lemma {:induction false} AllFree(bits: seq<bool>, n: nat)
    requires n <= |bits| && forall b :: 0 <= b < n ==> !bits[b]
    ensures FreeCount(bits, n) == n
  {
    if n > 0 { AllFree(bits, n - 1); }
  }

  /** The inode reached from j by following parent_index k times. */
  function Ancestor(st: State, j: nat, k: nat): int
    requires j < INODES
    decreases k
  {
    if k == 0 then j
    else
      var p := st.inodes[j].parent;
      if 0 <= p < INODES then Ancestor(st, p, k - 1) else p
  }

  lemma {:induction false} ChainToRoot(st: State, slot: PerInode, depth: PerInode, j: nat)
    requires TreeInv(st, slot, depth) && j < INODES && st.inodes[j].Live()
    ensures exists k: nat :: Ancestor(st, j, k) == 0
    decreases depth[j]
  {
    if j == 0 {
      assert Ancestor(st, 0, 0) == 0;
    } else {
      assert NamedInv(st, j, slot, depth);
      var p := st.inodes[j].parent;
      ChainToRoot(st, slot, depth, p);
      var k: nat :| Ancestor(st, p, k) == 0;
      assert Ancestor(st, j, k + 1) == 0;
    }
  }

  /** In every state of every run, following parent_index from any inode in use ends at the
      root, although freed numbers are used again. */
  lemma {:induction false} ParentsReachRoot(ops: seq<Op>, j: nat)
    requires j < INODES && Run(Init(), ops).inodes[j].Live()
    ensures exists k: nat :: Ancestor(Run(Init(), ops), j, k) == 0
  {
    hide Run, Init;
    var owner, slot, depth := Reachable(ops);
    var st := Run(Init(), ops);
    ChainToRoot(st, slot, depth, j);
  }

  lemma {:induction false} ResolveAppend(st: State, d: nat, comps: seq<Name>, name: Name)
    requires Resolve(st, d, comps).Some?
    ensures Resolve(st, d, comps + [name]) ==
            match IsExist(st, Resolve(st, d, comps).value, name)
            case None => None
            case Some(j) => Resolve(st, j, [])
    decreases |comps|
  {
    hide IsExist;
    if comps == [] {
      assert comps + [name] == [name] && [name][1..] == [];
    } else {
      assert (comps + [name])[1..] == comps[1..] + [name];
      ResolveAppend(st, IsExist(st, d, comps[0]).value, comps[1..], name);
    }
  }

  lemma {:induction false} PathTo(st: State, slot: PerInode, depth: PerInode, d: nat) returns (comps: seq<Name>)
    requires TreeInv(st, slot, depth) && IsDir(st, d)
    ensures Resolve(st, 0, comps) == Some(d)
    decreases depth[d]
  {
    if d == 0 {
      comps := [];
    } else {
      assert NamedInv(st, d, slot, depth);
      var p := st.inodes[d].parent;
      var up := PathTo(st, slot, depth, p);
      var name := List(st, p)[slot[d]].name;
      assert DirInv(st, p, slot);
      FirstMatch(List(st, p), slot[d]);
      ResolveAppend(st, 0, up, name);
      comps := up + [name];
    }
  }

  lemma FirstMatch(l: seq<Entry>, e: nat)
    requires e < |l| && forall a, b :: 0 <= a < b < |l| ==> l[a].name != l[b].name
    ensures Find(l, l[e].name) == Some(e)
  {
  }

  /** Entry e of directory d names inode j. */
  ghost predicate EntryOf(st: State, d: nat, e: nat, j: nat) {
    d < INODES && IsDir(st, d) && e < |List(st, d)| && List(st, d)[e].inode == j
  }

  lemma {:induction false} Reachable(ops: seq<Op>) returns (owner: Owners, slot: PerInode, depth: PerInode)
    ensures Inv(Run(Init(), ops), owner, slot, depth)
  {
    InitConsistent();
    RunConsistent(Init(), ops);
    hide Run, Init, Inv;
    owner, slot, depth :| Inv(Run(Init(), ops), owner, slot, depth);
  }

  /** In every state of every run, every directory can be reached by names from the root. */
  lemma {:induction false} DirectoryHasPath(ops: seq<Op>, d: nat) returns (comps: seq<Name>)
    requires IsDir(Run(Init(), ops), d)
    ensures Resolve(Run(Init(), ops), 0, comps) == Some(d)
  {
    hide Run, Init;
    var owner, slot, depth := Reachable(ops);
    comps := PathTo(Run(Init(), ops), slot, depth, d);
  }

  /** In every state of every run, every inode in use but the root is what exactly one entry of
      exactly one directory, its parent, names. */
  lemma {:induction false} NamedOnce(ops: seq<Op>, j: nat) returns (d: nat, e: nat)
    requires 0 < j < INODES && Run(Init(), ops).inodes[j].Live()
    ensures EntryOf(Run(Init(), ops), d, e, j) && Run(Init(), ops).inodes[j].parent == d
    ensures forall d': nat, e': nat :: EntryOf(Run(Init(), ops), d', e', j) ==> d' == d && e' == e
  {
    hide Run, Init, FsInv, InodeInv, List;
    var owner, slot, depth := Reachable(ops);
    var st := Run(Init(), ops);
    assert NamedInv(st, j, slot, depth);
    d, e := st.inodes[j].parent, slot[j];
    forall d': nat, e': nat | EntryOf(st, d', e', j) ensures d' == d && e' == e {
      assert DirInv(st, d', slot);
    }
  }

  /** In every state of every run, what an entry names is in use, and looking its name up finds it. */
  lemma {:induction false} EntryFound(ops: seq<Op>, d: nat, e: nat, j: nat)
    requires EntryOf(Run(Init(), ops), d, e, j)
    ensures var st := Run(Init(), ops);
            0 < j < INODES && st.inodes[j].Live() && st.inodes[j].parent == d && IsExist(st, d, List(st, d)[e].name) == Some(j)
  {
    hide Run, Init, FsInv, InodeInv, List;
    var owner, slot, depth := Reachable(ops);
    var st := Run(Init(), ops);
    assert DirInv(st, d, slot);
    FirstMatch(List(st, d), e);
  }

  /** The allocators' caches in every state of every run: the least free block and its count,
      the least free inode and its count. */
  lemma {:induction false} CachesExact(ops: seq<Op>)
    ensures var st := Run(Init(), ops);
            && (forall b: BlockNo :: b < st.firstBlock ==> st.bits[b])
            && (st.freeBlocks >= 1 <==> 0 <= st.firstBlock < SPACE && !st.bits[st.firstBlock])
            && (forall j :: 0 <= j < st.firstInode && j < INODES ==> st.inodes[j].Live())
            && (st.freeInodes >= 1 <==> 0 <= st.firstInode < INODES && !st.inodes[st.firstInode].Live())
  {
    hide Run, Init;
    var owner, slot, depth := Reachable(ops);
    var st := Run(Init(), ops);
    FirstBlockUsable(st);
    FirstInodeUsable(st);
  }

  /** `st3` has the entries, contents of other files and inode accounting of `st`. */
  ghost predicate Undone(st: State, st3: State, d: nat, f: nat)
    requires d < INODES && f < INODES
  {
    && Consistent(st3) && List(st3, d) == List(st, d) && !st3.inodes[f].Live()
    && st3.freeInodes == st.freeInodes && st3.firstInode == st.firstInode
    && forall j :: 0 <= j < INODES && j != d && j != f ==> Content(st3, j) == Content(st, j)
  }

  /** Unlinking a file just created, whatever was written into it, succeeds and brings back
      the parent's entries, every other file's content and the inode accounting. */
  lemma {:induction false} UnlinkUndoesCreate(st: State, d: nat, name: Name, mode: int, pad: Pad, s: seq<Byte>)
    requires Consistent(st) && IsDir(st, d) && st.freeInodes >= 1
    requires CreateIn(st, d, name, false, mode, pad).1
    ensures 0 <= st.firstInode < INODES
    ensures var st1 := CreateIn(st, d, name, false, mode, pad).0;
            var st2 := WriteFile(st1, st.firstInode, 0, s, true).0;
            var (st3, ok) := UnlinkIn(st2, d, name, {});
            ok && Undone(st, st3, d, st.firstInode)
  {
    hide Inv, CreateIn, UnlinkIn, WriteFile, EntryList, Content, Find, RolesOf;
    var owner: Owners, slot, depth :| Inv(st, owner, slot, depth);
    var f, st1 := st.firstInode, CreateIn(st, d, name, false, mode, pad).0;
    CreateInExact(st, owner, slot, depth, d, name, false, mode, pad);
    assert SameNode(st, st1, d);
    var owner1: Owners, slot1, depth1 :| Inv(st1, owner1, slot1, depth1);
    FindAppended(List(st, d), name, f);
    WriteThenUnlink(st1, owner1, slot1, depth1, d, f, name, s);
  }

  /** The list and the other contents after a write to file f, the last entry of d, and its unlinking. */
  lemma {:induction false} WriteThenUnlink(st: State, owner: Owners, slot: PerInode, depth: PerInode,
                                           d: nat, f: nat, name: Name, s: seq<Byte>)
    requires Inv(st, owner, slot, depth) && IsDir(st, d) && f < INODES && st.inodes[f].Live() && !st.inodes[f].kind.Dir?
    requires IsExist(st, d, name) == Some(f) && |List(st, d)| > 0 && Find(List(st, d), name) == Some(|List(st, d)| - 1)
    ensures var st2 := WriteFile(st, f, 0, s, true).0;
            var (st3, ok) := UnlinkIn(st2, d, name, {});
            && ok && Consistent(st3) && !st3.inodes[f].Live()
            && List(st3, d) == List(st, d)[..|List(st, d)| - 1]
            && st3.freeInodes == st.freeInodes + 1
            && st3.firstInode == (if f < st.firstInode then f else st.firstInode)
            && (forall j :: 0 <= j < INODES && j != d && j != f ==> Content(st3, j) == Content(st, j))
  {
    hide Inv, UnlinkIn, WriteFile, EntryList, Content, Find, RolesOf;
    var st2 := WriteFile(st, f, 0, s, true).0;
    WriteStepExact(st, owner, slot, depth, f, 0, s);
    var owner2: Owners, slot2, depth2 :| Inv(st2, owner2, slot2, depth2);
    UnlinkInExact(st2, owner2, slot2, depth2, d, name, {});
  }
}
