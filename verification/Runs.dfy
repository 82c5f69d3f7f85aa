/** Every create, write and unlink keeps the file system invariant, over every run, and does
    to the files and directories just what it should. */
module Runs {
  import opened Disk
  import opened Allocator
  import opened BlockIndex
  import opened FileData
  import opened FreeBlocks
  import opened Directory
  import opened Inodes
  import opened Namespace
  import opened Tree

  lemma InvIsFsInv(st: State, owner: Owners, slot: PerInode, depth: PerInode)
    requires Inv(st, owner, slot, depth)
    ensures FsInv(st, owner)
  {
  }

  lemma {:induction false} ContentOfWrote(st: State, st1: State, owner1: Owners, i: nat, p: nat, s: seq<Byte>)
    requires i < INODES && Wrote(st, st1, i, p, s) && Shape(st, i) && p + |s| <= st.inodes[i].size
    ensures Content(st1, i) == Splice(Content(st, i), p, s)
  {
    hide ByteAt;
  }

  lemma {:induction false} OthersOfWrote(st: State, st1: State, i: nat, p: nat, s: seq<Byte>)
    requires i < INODES && Wrote(st, st1, i, p, s)
    requires forall j :: 0 <= j < INODES ==> Shape(st, j)
    ensures forall j :: 0 <= j < INODES && j != i ==> Content(st1, j) == Content(st, j)
  {
    forall j | 0 <= j < INODES && j != i ensures Content(st1, j) == Content(st, j) {
      assert Shape(st, j) && SameBytes(st, st1, j);
      hide ByteAt;
    }
  }

  /** Writing inside the blocks a file has always succeeds in full and takes no block. */
  lemma {:induction false} PutBytesInside(st: State, owner: Owners, i: nat, p: nat, s: seq<Byte>)
    requires FsInv(st, owner) && i < INODES && p + |s| <= BLOCK_SIZE * st.inodes[i].BlockCount()
    ensures var (st1, w) := PutBytes(st, i, p, s);
            w == |s| && FsInv(st1, owner) && Wrote(st, st1, i, p, s) && st1 == st.(disk := st1.disk)
    decreases |s|
  {
    hide FsInv, PokeByte, ByteAt, EnsureBlock;
    if s != [] {
      EnsureBlockPresent(st, owner, i, p);
      PokeByteFrame(st, owner, i, p, s[0]);
      var st1 := PokeByte(st, i, p, s[0]);
      assert Wrote(st, st1, i, p, [s[0]]);
      PutBytesInside(st1, owner, i, p + 1, s[1..]);
      WroteCompose(st, st1, PutBytes(st1, i, p + 1, s[1..]).0, i, p, [s[0]], s[1..]);
      assert [s[0]] + s[1..] == s;
    }
  }

  lemma EnsureBlockPresent(st: State, owner: Owners, i: nat, p: nat)
    requires FsInv(st, owner) && i < INODES && p < BLOCK_SIZE * st.inodes[i].BlockCount()
    ensures EnsureBlock(st, i, p / BLOCK_SIZE) == Some(st)
  {
    assert Shape(st, i);
    assert At(st.inodes, st.disk, DataOf(i, p / BLOCK_SIZE)).Blk?;
  }

  lemma {:induction false} SpliceInside(st: State, owner: Owners, i: nat, p: nat, s: seq<Byte>)
    requires FsInv(st, owner) && i < INODES && p + |s| <= st.inodes[i].size
    ensures var st1 := PutBytes(st, i, p, s).0;
            && FsInv(st1, owner) && st1 == st.(disk := st1.disk)
            && Content(st1, i) == Splice(Content(st, i), p, s)
            && (forall j :: 0 <= j < INODES && j != i ==> Content(st1, j) == Content(st, j))
  {
    assert Shape(st, i);
    InvShape(st, owner);
    hide FsInv, PutBytes, ByteAt, Content;
    PutBytesInside(st, owner, i, p, s);
    ContentOfWrote(st, PutBytes(st, i, p, s).0, owner, i, p, s);
    OthersOfWrote(st, PutBytes(st, i, p, s).0, i, p, s);
  }

  lemma {:induction false} TruncateContent(st: State, owner: Owners, i: nat, size: nat)
    requires FsInv(st, owner) && i < INODES && st.inodes[i].Live() && size <= st.inodes[i].size
    ensures FsInv(SetSize(st, i, size), owner) && OnlyWrites(st, SetSize(st, i, size), i)
    ensures SetSize(st, i, size).inodes[i].size == size
    ensures Content(SetSize(st, i, size), i) == Content(st, i)[..size]
    ensures forall j :: 0 <= j < INODES && j != i ==> Content(SetSize(st, i, size), j) == Content(st, j)
  {
    assert Shape(st, i);
    SetSizeKeepsInv(st, owner, i, size);
    forall j, q: nat | 0 <= j < INODES ensures ByteAt(SetSize(st, i, size), j, q) == ByteAt(st, j, q) {}
  }

  /** Inode i has the blocks it had. */
  predicate SameBlocks(st: State, st1: State, i: nat)
    requires i < INODES
  {
    st1.inodes[i].loc == st.inodes[i].loc && st1.inodes[i].BlockCount() == st.inodes[i].BlockCount()
  }

  /** free_parent_directory_entry removes just the named entry; the last one takes its
      place. No block is taken or released. */
  lemma {:induction false} RemoveEntryExact(st: State, owner: Owners, d: nat, name: Name)
    requires FsInv(st, owner) && IsDir(st, d) && st.inodes[d].size % ENTRY == 0
    requires Find(List(st, d), name).Some?
    requires |List(st, d)[|List(st, d)| - 1].name| <= 13
    ensures var st1 := RemoveEntry(st, d, name);
            && FsInv(st1, owner) && st1 == st.(disk := st1.disk, inodes := st1.inodes) && OnlyWrites(st, st1, d)
            && List(st1, d) == SwapRemove(List(st, d), Find(List(st, d), name).value)
            && st1.inodes[d].size == st.inodes[d].size - ENTRY && SameBlocks(st, st1, d)
            && (forall j :: 0 <= j < INODES && j != d ==> Content(st1, j) == Content(st, j))
  {
    hide FsInv, PutBytes, Content, Splice, Find, Raw, CString, EntryList;
    var e := Find(List(st, d), name).value;
    var c := Content(st, d);
    var last := Raw(c, |c| / ENTRY - 1);
    var a := CString(last[..14]) + [0];
    SpliceInside(st, owner, d, ENTRY * e, a);
    var st1 := PutBytes(st, d, ENTRY * e, a).0;
    SpliceInside(st1, owner, d, ENTRY * e + 14, last[14..]);
    var st2 := PutBytes(st1, d, ENTRY * e + 14, last[14..]).0;
    TruncateContent(st2, owner, d, |c| - ENTRY);
    MovedLastIsSwapRemove(c, e);
  }

  /** The directory's content after create's write of one aligned 16-byte entry. */
  lemma {:induction false} WriteEntry(st: State, owner: Owners, d: nat, name: Name, f: nat, pad: Pad) returns (owner1: Owners)
    requires FsInv(st, owner) && IsDir(st, d) && st.inodes[d].size % ENTRY == 0
    requires |name| <= 13 && f < INODES
    ensures var (st1, w) := WriteFile(st, d, st.inodes[d].size, Encode(name, f, pad), false);
            && FsInv(st1, owner1) && OnlyWrites(st, st1, d)
            && (w == -1 ==> st1 == st)
            && (w != -1 ==> List(st1, d) == List(st, d) + [Entry(name, f)] && st1.inodes[d].size == st.inodes[d].size + ENTRY)
            && (forall j :: 0 <= j < INODES && j != d ==> Content(st1, j) == Content(st, j))
  {
    hide FsInv, WriteFile, Content, Encode, Decode, Shape;
    var p, s := st.inodes[d].size, Encode(name, f, pad);
    owner1 := WriteFileSplices(st, owner, d, p, s, false);
    var (st1, w) := WriteFile(st, d, p, s, false);
    if w != -1 {
      assert w == ENTRY;
      assert s[..w] == s;
      var c := Content(st, d);
      assert Splice(c, p, s) == c + s;
      EntryListAppend(c, s);
      EncodeDecode(name, f, pad);
    }
  }

  lemma {:induction false} InodeInvFrame(st: State, st1: State)
    requires InodeInv(st) && st1.freeInodes == st.freeInodes && st1.firstInode == st.firstInode
    requires forall j :: 0 <= j < INODES ==> st1.inodes[j].Live() == st.inodes[j].Live()
    ensures InodeInv(st1)
  {
    FreeInodeCountFrame(st.inodes, st1.inodes, INODES);
  }

  /** allocate_inode takes the cached number for an empty file and changes no content. */
  lemma {:induction false} AllocateInodeEffect(st: State, owner: Owners, d: nat, mode: int, kind: Kind)
    requires FsInv(st, owner) && InodeInv(st) && st.freeInodes >= 1
    ensures var f, st1 := st.firstInode, AllocateInode(st, d, mode, kind);
            && 0 <= f < INODES && !st.inodes[f].Live() && FsInv(st1, owner) && InodeInv(st1)
            && st1.inodes == st.inodes[f := Inode(kind, 0, st.inodes[f].loc, IN_USE, d, -1, 0, mode)]
            && (forall j :: 0 <= j < INODES ==> Content(st1, j) == Content(st, j))
            && Content(st1, f) == [] && st1.freeInodes == st.freeInodes - 1 && f < st1.firstInode
  {
    AllocateInodeKeepsInv(st, d, mode, kind);
    assert Shape(st, st.firstInode);
    LivenessKeepsFsInv(st, AllocateInode(st, d, mode, kind), owner, st.firstInode);
    assert Content(st, st.firstInode) == [];
  }

  lemma {:induction false} EntryAdded(st: State, st1: State, st2: State, d: nat, name: Name, mode: int, kind: Kind)
    requires IsDir(st, d) && 0 < st.firstInode < INODES && !st.inodes[st.firstInode].Live()
    requires |name| <= 13 && !kind.Nul? && Find(List(st, d), name) == None && OnlyWrites(st, st1, d)
    requires List(st1, d) == List(st, d) + [Entry(name, st.firstInode)] && st1.inodes[d].size % ENTRY == 0
    requires forall j :: 0 <= j < INODES && j != d ==> Content(st1, j) == Content(st, j)
    requires forall j :: 0 <= j < INODES ==> Content(st2, j) == Content(st1, j)
    requires st2.inodes == st1.inodes[st.firstInode := Inode(kind, 0, st1.inodes[st.firstInode].loc, IN_USE, d, -1, 0, mode)]
    ensures LeafAdded(st, st2, d, st.firstInode, name)
    ensures List(st2, d) == List(st1, d) && IsExist(st2, d, name) == Some(st.firstInode)
  {
    hide Content, EntryList, Find;
    forall d' | 0 <= d' < INODES && d' != d && d' != st.firstInode ensures SameList(st, st2, d') {}
    FindAppended(List(st, d), name, st.firstInode);
  }

  /** From st to st1 directory d has gained the name as its last entry, with the number that the inode
      allocator hands out, for an empty file or directory; no other content has changed. */
  ghost predicate Made(st: State, st1: State, d: nat, name: Name, kind: Kind)
    requires d < INODES && 0 <= st.firstInode < INODES
  {
    var f := st.firstInode;
    && |name| <= 13 && Find(List(st, d), name) == None && !st.inodes[f].Live()
    && List(st1, d) == List(st, d) + [Entry(name, f)] && LeafAdded(st, st1, d, f, name)
    && IsExist(st1, d, name) == Some(f)
    && st1.inodes[f].Live() && st1.inodes[f].parent == d && st1.inodes[f].kind == kind && Content(st1, f) == []
    && st1.freeInodes == st.freeInodes - 1 && f < st1.firstInode && st1.inodes[f].BlockCount() == 0
    && (forall j :: 0 <= j < INODES && j != d ==> Content(st1, j) == Content(st, j))
    && (forall j :: 0 <= j < INODES && j != d && j != f ==> st1.inodes[j] == st.inodes[j])
  }

  /** The new inode after the entry was written. */
  lemma {:induction false} CreateFinish(st: State, owner: Owners, slot: PerInode, depth: PerInode, d: nat, name: Name,
                                        mode: int, kind: Kind, st1: State, owner1: Owners)
    requires Inv(st, owner, slot, depth) && IsDir(st, d) && st.freeInodes >= 1 && |name| <= 13 && !kind.Nul?
    requires Find(List(st, d), name) == None && 0 < st.firstInode
    requires FsInv(st1, owner1) && OnlyWrites(st, st1, d)
    requires List(st1, d) == List(st, d) + [Entry(name, st.firstInode)] && st1.inodes[d].size % ENTRY == 0
    requires forall j :: 0 <= j < INODES && j != d ==> Content(st1, j) == Content(st, j)
    ensures st.firstInode < INODES && Consistent(AllocateInode(st1, d, mode, kind))
    ensures Made(st, AllocateInode(st1, d, mode, kind), d, name, kind)
  {
    hide FsInv, InodeInv, TreeInv, Find, Content, List, AllocateInode, LeafAdded, IsExist;
    var f, st2 := st.firstInode, AllocateInode(st1, d, mode, kind);
    InodeInvFrame(st, st1);
    AllocateInodeEffect(st1, owner1, d, mode, kind);
    EntryAdded(st, st1, st2, d, name, mode, kind);
    TreeGrows(st, st2, slot, depth, d, f, name);
    assert Inv(st2, owner1, slot[f := |List(st, d)|], depth[f := depth[d] + 1]);
  }

  /** create in directory d: on success just the new name and its empty file are made; on error nothing
      changes. */
  lemma {:induction false} CreateInExact(st: State, owner: Owners, slot: PerInode, depth: PerInode,
                                         d: nat, name: Name, isDir: bool, mode: int, pad: Pad)
    requires Inv(st, owner, slot, depth) && IsDir(st, d) && st.freeInodes >= 1
    ensures 0 <= st.firstInode < INODES
    ensures var (st1, ok) := CreateIn(st, d, name, isDir, mode, pad);
            && Consistent(st1)
            && (if ok then Made(st, st1, d, name, if isDir then Dir else Reg) else st1 == st)
  {
    hide FsInv, InodeInv, EntryList, Content, Made, WriteFile, AllocateInode, Find, LeafAdded, OnlyWrites, Encode;
    FirstInodeUsable(st) by { assert InodeInv(st); }
    var f := st.firstInode;
    DirectoryFacts(st, owner, slot, depth, d);
    if |name| <= 13 && IsExist(st, d, name).None? {
      var (st1, w) := WriteFile(st, d, st.inodes[d].size, Encode(name, f, pad), false);
      var owner1 := WriteEntry(st, owner, d, name, f, pad);
      if w != -1 {
        CreateFinish(st, owner, slot, depth, d, name, mode, if isDir then Dir else Reg, st1, owner1);
      }
    }
  }

  /** The size of a directory in use, and the root's number, which is never free. */
  lemma DirectoryFacts(st: State, owner: Owners, slot: PerInode, depth: PerInode, d: nat)
    requires Inv(st, owner, slot, depth) && IsDir(st, d)
    ensures st.inodes[d].size % ENTRY == 0 && (st.freeInodes >= 1 ==> 0 < st.firstInode < INODES)
  {
    hide FsInv, List, FreeInodeCount;
    assert DirInv(st, d, slot) && IsDir(st, 0);
    FirstInodeUsable(st);
  }

  lemma {:induction false} SameElsewhereContent(st: State, owner: Owners, st1: State, i: nat, j: nat)
    requires FsInv(st, owner) && i < INODES && j < INODES && j != i && SameElsewhere(st, st1, i)
    requires st1.inodes[j] == st.inodes[j]
    ensures Content(st1, j) == Content(st, j)
  {
    assert Shape(st, j);
    forall q | 0 <= q < st.inodes[j].size ensures ByteAt(st1, j, q) == ByteAt(st, j, q) {
      assert At(st.inodes, st.disk, DataOf(j, q / BLOCK_SIZE)).Blk?;
    }
  }

  lemma {:induction false} FreeBlockExact(st: State, owner: Owners, i: nat)
    requires FsInv(st, owner) && i < INODES && st.inodes[i].Live()
    ensures var st1 := FreeBlock(st, i);
            && FsInv(st1, Disown(owner, i))
            && (forall j :: 0 <= j < INODES && j != i ==> Content(st1, j) == Content(st, j))
            && (forall j :: 0 <= j < INODES && j != i ==> st1.inodes[j] == st.inodes[j])
            && st1.inodes[i].Live() && st1.inodes[i].blockNumber == -1
            && st1.freeInodes == st.freeInodes && st1.firstInode == st.firstInode
            && (forall b: BlockNo :: st1.bits[b] <==> st.bits[b] && owner[b].value.i != i)
            && st1.freeBlocks == st.freeBlocks + |RolesOf(i, st.inodes[i].BlockCount())|
  {
    FreeBlockReleases(st, owner, i);
    var st1 := FreeBlock(st, i);
    hide FsInv, FreeBlock, Content, SameElsewhere, Disown, RolesOf;
    forall j | 0 <= j < INODES && j != i ensures Content(st1, j) == Content(st, j) {
      SameElsewhereContent(st, owner, st1, i, j);
    }
  }

  /** Inode i, named in directory d, and exactly its blocks are free again; all other content is as it was. */
  ghost predicate Unlinked(st: State, owner: Owners, st1: State, d: nat, i: nat)
    requires FsInv(st, owner) && i < INODES
  {
    && !st1.inodes[i].Live()
    && (forall j :: 0 <= j < INODES && j != i ==> SameNode(st, st1, j))
    && (forall j :: 0 <= j < INODES && j != i && j != d ==>
          Content(st1, j) == Content(st, j) && st1.inodes[j] == st.inodes[j])
    && (forall b: BlockNo :: st1.bits[b] <==> st.bits[b] && owner[b].value.i != i)
    && st1.freeBlocks == st.freeBlocks + |RolesOf(i, st.inodes[i].BlockCount())|
    && st1.freeInodes == st.freeInodes + 1
    && st1.firstInode == if i < st.firstInode then i else st.firstInode
  }

  /** free_inode of inode i, named `name` in its parent d. */
  lemma {:induction false} FreeInodeExact(st: State, owner: Owners, i: nat, name: Name)
    requires FsInv(st, owner) && InodeInv(st) && i < INODES && st.inodes[i].Live()
    requires var d := st.inodes[i].parent;
             && 0 <= d < INODES && d != i && IsDir(st, d) && st.inodes[d].size % ENTRY == 0
             && Find(List(st, d), name).Some? && |List(st, d)[|List(st, d)| - 1].name| <= 13
    ensures var d, st1 := st.inodes[i].parent, FreeInode(st, name, i);
            && FsInv(st1, Disown(owner, i)) && InodeInv(st1) && Unlinked(st, owner, st1, d, i)
            && List(st1, d) == SwapRemove(List(st, d), Find(List(st, d), name).value)
            && st1.inodes[d].size == st.inodes[d].size - ENTRY && SameBlocks(st, st1, d)
  {
    hide FsInv, InodeInv, FreeBlock, RemoveEntry, Content, EntryList, Find, Disown, RolesOf;
    var d := st.inodes[i].parent;
    var st1, owner1 := FreeBlock(st, i), Disown(owner, i);
    FreeBlockExact(st, owner, i);
    RemoveEntryExact(st1, owner1, d, name);
    var st2 := RemoveEntry(st1, d, name);
    InodeInvFrame(st, st2);
    ResetInodeKeepsInv(st2, i);
    LivenessKeepsFsInv(st2, ResetInode(st2, i), owner1, i);
  }

  /** rd_unlink in directory d. It succeeds just when the name is there, does not name a
      non-empty directory and is not open. Then the last entry of d takes the entry's place,
      the inode is free, exactly its blocks are free again, and no other content changes. */
  lemma {:induction false} UnlinkInExact(st: State, owner: Owners, slot: PerInode, depth: PerInode,
                                         d: nat, name: Name, open: set<nat>)
    requires Inv(st, owner, slot, depth) && IsDir(st, d)
    ensures var (st1, ok) := UnlinkIn(st, d, name, open);
            var found := IsExist(st, d, name);
            && Consistent(st1)
            && (!ok ==> st1 == st)
            && (ok <==> found.Some? && !(IsDir(st, found.value) && List(st, found.value) != []) && found.value !in open)
            && (ok ==>
                  var i := found.value;
                  && i < INODES && st.inodes[i].Live() && Unlinked(st, owner, st1, d, i) && SameBlocks(st, st1, d)
                  && List(st1, d) == SwapRemove(List(st, d), Find(List(st, d), name).value))
  {
    hide FsInv, InodeInv, TreeInv, FreeInode, Find, List, Content, RolesOf, Unlinked, IsExist;
    UnlinkTarget(st, owner, slot, depth, d, name);
    var found := IsExist(st, d, name);
    if found.Some? && !(st.inodes[found.value].kind.Dir? && st.inodes[found.value].size > 0) && found.value !in open {
      UnlinkFinish(st, owner, slot, depth, d, name, found.value);
    }
  }

  /** A name found in a directory is that of a live inode below it. */
  lemma UnlinkTarget(st: State, owner: Owners, slot: PerInode, depth: PerInode, d: nat, name: Name)
    requires Inv(st, owner, slot, depth) && IsDir(st, d)
    ensures var found, r := IsExist(st, d, name), Find(List(st, d), name);
            found.Some? ==>
              var i := found.value;
              && 0 < i < INODES && st.inodes[i].Live() && st.inodes[i].parent == d
              && r.Some? && r.value < |List(st, d)| && List(st, d)[r.value].inode == i
              && (IsDir(st, i) ==> (List(st, i) == [] <==> st.inodes[i].size == 0))
  {
    hide FsInv, InodeInv, Find, List;
    assert DirInv(st, d, slot);
    var found := IsExist(st, d, name);
    FindSome(List(st, d), name);
    if found.Some? {
      assert List(st, d)[Find(List(st, d), name).value].inode == found.value;
      assert NamedInv(st, found.value, slot, depth);
      EmptyDirSize(st, found.value, slot);
    }
  }

  lemma FindSome(l: seq<Entry>, name: Name)
    ensures var r := Find(l, name); r.Some? ==> r.value < |l| && l[r.value].name == name
  {
  }

  lemma EmptyDirSize(st: State, i: nat, slot: PerInode)
    requires i < INODES && (IsDir(st, i) ==> DirInv(st, i, slot))
    ensures IsDir(st, i) ==> (List(st, i) == [] <==> st.inodes[i].size == 0)
  {
  }

  lemma {:induction false} UnlinkFinish(st: State, owner: Owners, slot: PerInode, depth: PerInode, d: nat, name: Name, i: nat)
    requires Inv(st, owner, slot, depth) && IsDir(st, d) && 0 < i < INODES && st.inodes[i].Live() && st.inodes[i].parent == d
    requires var e := Find(List(st, d), name); e.Some? && e.value < |List(st, d)| && List(st, d)[e.value].inode == i
    requires IsDir(st, i) ==> List(st, i) == []
    ensures var e, st1 := Find(List(st, d), name).value, FreeInode(st, name, i);
            && Consistent(st1) && Unlinked(st, owner, st1, d, i) && SameBlocks(st, st1, d)
            && List(st1, d) == SwapRemove(List(st, d), e)
  {
    hide FsInv, InodeInv, TreeInv, FreeInode, Find, EntryList, List, Content, RolesOf, Disown, Unlinked, SwapRemove;
    EntryFacts(st, slot, depth, d, i);
    FreeInodeExact(st, owner, i, name);
    var st1 := FreeInode(st, name, i);
    assert slot[i] == Find(List(st, d), name).value by { SlotOfEntry(st, slot, depth, d, Find(List(st, d), name).value); }
    UnlinkedIsLeaf(st, owner, st1, slot, d, i);
    TreeShrinks(st, st1, slot, depth, d, i);
    var slot1 :| TreeInv(st1, slot1, depth);
    assert Inv(st1, Disown(owner, i), slot1, depth);
  }

  lemma EntryFacts(st: State, slot: PerInode, depth: PerInode, d: nat, i: nat)
    requires TreeInv(st, slot, depth) && IsDir(st, d) && 0 < i < INODES && st.inodes[i].Live() && st.inodes[i].parent == d
    ensures i != d && st.inodes[d].size % ENTRY == 0 && |List(st, d)| >= 1 && |List(st, d)[|List(st, d)| - 1].name| <= 13
  {
    hide List;
    assert DirInv(st, d, slot) && NamedInv(st, i, slot, depth);
  }

  lemma SlotOfEntry(st: State, slot: PerInode, depth: PerInode, d: nat, e: nat)
    requires TreeInv(st, slot, depth) && IsDir(st, d) && e < |List(st, d)|
    ensures List(st, d)[e].inode < INODES && slot[List(st, d)[e].inode] == e
  {
    hide List;
    assert DirInv(st, d, slot);
  }

  lemma UnlinkedIsLeaf(st: State, owner: Owners, st1: State, slot: PerInode, d: nat, i: nat)
    requires FsInv(st, owner) && d < INODES && 0 < i < INODES && st.inodes[i].Live() && st.inodes[i].parent == d && i != d
    requires Unlinked(st, owner, st1, d, i) && (IsDir(st, i) ==> List(st, i) == [])
    requires slot[i] < |List(st, d)| && List(st1, d) == SwapRemove(List(st, d), slot[i])
    requires st.inodes[d].size % ENTRY == 0 && st1.inodes[d].size == st.inodes[d].size - ENTRY
    ensures LeafGone(st, st1, slot, d, i)
  {
    hide EntryList, Content, RolesOf, FsInv, SwapRemove;
    forall d' | 0 <= d' < INODES && d' != d && d' != i && IsDir(st, d') ensures SameList(st, st1, d') {}
  }

  /** rd_write at p <= size: a splice of this file only. */
  lemma {:induction false} WriteStepExact(st: State, owner: Owners, slot: PerInode, depth: PerInode, i: nat, p: nat, s: seq<Byte>)
    requires Inv(st, owner, slot, depth) && i < INODES && st.inodes[i].Live() && p <= st.inodes[i].size
    ensures var (st1, w) := WriteFile(st, i, p, s, true);
            && Consistent(st1) && OnlyWrites(st, st1, i)
            && (w == -1 ==> st1 == st)
            && (w != -1 ==> 0 <= w <= |s| && Content(st1, i) == Splice(Content(st, i), p, s[..w]))
            && (forall j :: 0 <= j < INODES && j != i ==> Content(st1, j) == Content(st, j))
  {
    hide FsInv, InodeInv, WriteFile, Content, Splice;
    var (st1, w) := WriteFile(st, i, p, s, true);
    var owner1 := WriteFileSplices(st, owner, i, p, s, true);
    InodeInvFrame(st, st1);
    if w != -1 {
      assert !IsDir(st, i);
      TreeFrame(st, st1, slot, depth);
      assert Inv(st1, owner1, slot, depth);
    }
  }

  /** One call keeps the invariant, and a call that reports ERROR changes nothing. */
  lemma {:induction false} StepKeepsConsistent(st: State, op: Op)
    requires Consistent(st)
    ensures Consistent(Step(st, op).0)
    ensures !Step(st, op).1 ==> Step(st, op).0 == st
  {
    hide Inv, CreateIn, UnlinkIn, WriteFile, Resolve;
    var owner, slot, depth :| Inv(st, owner, slot, depth);
    match op
    case Create(start, comps, name, isDir, mode, pad) =>
      var d := Resolve(st, start, comps);
      if d.Some? && st.freeInodes >= 1 { CreateInExact(st, owner, slot, depth, d.value, name, isDir, mode, pad); }
    case Write(i, p, s) =>
      if i < INODES && st.inodes[i].Live() && p <= st.inodes[i].size {
        WriteStepExact(st, owner, slot, depth, i, p, s);
      }
    case Unlink(start, comps, name, open) =>
      var d := Resolve(st, start, comps);
      if d.Some? { UnlinkInExact(st, owner, slot, depth, d.value, name, open); }
  }

  lemma {:induction false} CountsOfInit(bits: seq<bool>, t: seq<Inode>, n: nat, m: nat)
    requires n <= |bits| && m <= |t|
    requires forall b :: 0 <= b < |bits| ==> bits[b] == (b == 0)
    requires forall j :: 0 <= j < |t| ==> t[j].Live() == (j == 0)
    ensures FreeCount(bits, n) == if n == 0 then 0 else n - 1
    ensures FreeInodeCount(t, m) == if m == 0 then 0 else m - 1
  {
    if n > 0 { CountsOfInit(bits, t, n - 1, m); }
    else if m > 0 { CountsOfInit(bits, t, n, m - 1); }
  }

  lemma {:induction false} InitRoles(r: Role)
    requires InRange(r)
    ensures At(Init().inodes, Init().disk, r) == if r == DataOf(0, 0) then Blk(0) else Null
  {
    var st := Init();
    assert st.inodes[r.i].loc == if r.i == 0 then NO_LOCS[0 := Blk(0)] else NO_LOCS;
  }

  lemma {:induction false} InitAlloc()
    ensures AllocInv(Init()) && InodeInv(Init())
  {
    CountsOfInit(Init().bits, Init().inodes, SPACE, INODES);
  }

  lemma {:induction false} InitOwned() returns (owner: Owners)
    ensures FsInv(Init(), owner)
  {
    owner := Repeat(None, SPACE)[0 := Some(DataOf(0, 0))];
    var st := Init();
    InitAlloc();
    forall r | InRange(r) ensures At(st.inodes, st.disk, r) == if r == DataOf(0, 0) then Blk(0) else Null {
      InitRoles(r);
    }
    InitFields();
    hide Init, At, AllocInv, InodeInv;
    assert OwnInv(st, owner) by { hide Shape; }
    forall i | 0 <= i < INODES ensures Shape(st, i) { hide OwnInv; }
  }

  lemma InitFields()
    ensures forall b :: 0 <= b < SPACE ==> (Init().bits[b] <==> b == 0) && Init().disk[b] == Zero
    ensures forall i :: 0 <= i < INODES ==>
              Init().inodes[i].size == 0 && Init().inodes[i].BlockCount() == if i == 0 then 1 else 0
  {
  }

  /** init_datastructure establishes the invariant. */
  lemma {:induction false} InitConsistent()
    ensures Consistent(Init())
  {
    var owner := InitOwned();
    InitAlloc();
    var zeros: PerInode := Repeat(0, INODES);
    assert TreeInv(Init(), zeros, zeros) by {
      forall d | 0 <= d < INODES && IsDir(Init(), d) ensures DirInv(Init(), d, zeros) { assert List(Init(), d) == []; }
    }
    hide FsInv, InodeInv, TreeInv, Init;
    assert Inv(Init(), owner, zeros, zeros);
  }

  /** Every state of every run is consistent. */
  lemma {:induction false} RunConsistent(st: State, ops: seq<Op>)
    requires Consistent(st)
    ensures Consistent(Run(st, ops))
    decreases |ops|
  {
    hide Consistent, Step;
    if ops != [] {
      StepKeepsConsistent(st, ops[0]);
      RunConsistent(Step(st, ops[0]).0, ops[1..]);
    }
  }
}
