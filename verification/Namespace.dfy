/** create, write and unlink over the whole disk, and what every run of them keeps:
    block ownership, inode accounting and the directory tree. */
module Namespace {
  import opened Disk
  import opened BlockIndex
  import opened FileData
  import opened FreeBlocks
  import opened Directory
  import opened Inodes

  /** The entries of directory `d`. */
  function List(st: State, d: nat): (l: seq<Entry>)
    requires d < INODES
    ensures |l| == st.inodes[d].size / ENTRY
  {
    EntryList(Content(st, d))
  }

  predicate IsDir(st: State, d: nat) {
    d < INODES && st.inodes[d].Live() && st.inodes[d].kind.Dir?
  }

  /** isExist: the inode number of the first entry with this name. */
  function IsExist(st: State, d: nat, name: Name): Option<nat>
    requires d < INODES
  {
    if |name| > 13 then None
    else match Find(List(st, d), name)
      case None => None
      case Some(e) => Some(List(st, d)[e].inode)
  }

  /** The directory named by the path components, each looked up in the one before it. */
  function Resolve(st: State, d: nat, comps: seq<Name>): (r: Option<nat>)
    ensures r.Some? ==> IsDir(st, r.value)
    decreases |comps|
  {
    if !IsDir(st, d) then None
    else if comps == [] then Some(d)
    else match IsExist(st, d, comps[0])
      case None => None
      case Some(j) => Resolve(st, j, comps[1..])
  }

  datatype Op =
    | Create(start: nat, comps: seq<Name>, name: Name, isDir: bool, mode: int, pad: Pad)
    | Write(i: nat, p: nat, s: seq<Byte>)
    | Unlink(start: nat, comps: seq<Name>, name: Name, open: set<nat>)

  /** create in directory d. */
  function CreateIn(st: State, d: nat, name: Name, isDir: bool, mode: int, pad: Pad): (State, bool)
    requires d < INODES
  {
    if |name| > 13 || IsExist(st, d, name).Some? || !(0 <= st.firstInode < INODES) then (st, false)
    else
      var (st1, w) := WriteFile(st, d, st.inodes[d].size, Encode(name, st.firstInode, pad), false);
      if w == -1 then (st1, false) else (AllocateInode(st1, d, mode, if isDir then Dir else Reg), true)
  }

  /** free_parent_directory_entry, with the last entry located from the directory's size. */
  function RemoveEntry(st: State, d: nat, name: Name): State
    requires d < INODES
  {
    match Find(List(st, d), name)
    case None => st
    case Some(e) =>
      var c := Content(st, d);
      var last := Raw(c, |c| / ENTRY - 1);
      var st1 := PutBytes(st, d, ENTRY * e, CString(last[..14]) + [0]).0;
      var st2 := PutBytes(st1, d, ENTRY * e + 14, last[14..]).0;
      SetSize(st2, d, |c| - ENTRY)
  }

  /** free_inode. */
  function FreeInode(st: State, name: Name, i: nat): State
    requires i < INODES
  {
    var d := st.inodes[i].parent;
    var st1 := FreeBlock(st, i);
    ResetInode(if 0 <= d < INODES then RemoveEntry(st1, d, name) else st1, i)
  }

  /** rd_unlink of `name` in directory d; `open` are the inodes with an open descriptor. */
  function UnlinkIn(st: State, d: nat, name: Name, open: set<nat>): (State, bool)
    requires d < INODES
  {
    match IsExist(st, d, name)
    case None => (st, false)
    case Some(i) =>
      if i >= INODES || (st.inodes[i].kind.Dir? && st.inodes[i].size > 0) || i in open then (st, false)
      else (FreeInode(st, name, i), true)
  }

  /** One call; the flag tells SUCCESS from ERROR. */
  function Step(st: State, op: Op): (State, bool) {
    match op
    case Create(start, comps, name, isDir, mode, pad) =>
      if st.freeBlocks < 1 || st.freeInodes < 1 then (st, false)
      else (match Resolve(st, start, comps)
        case None => (st, false)
        case Some(d) => CreateIn(st, d, name, isDir, mode, pad))
    case Write(i, p, s) =>
      if i < INODES && st.inodes[i].Live() && p <= st.inodes[i].size then
        var (st1, w) := WriteFile(st, i, p, s, true);
        (st1, w >= 0)
      else (st, false)
    case Unlink(start, comps, name, open) =>
      match Resolve(st, start, comps)
      case None => (st, false)
      case Some(d) => UnlinkIn(st, d, name, open)
  }

  function Run(st: State, ops: seq<Op>): State
    decreases |ops|
  {
    if ops == [] then st else Run(Step(st, ops[0]).0, ops[1..])
  }

  /** The ramdisk after init_datastructure. */
  function Init(): State {
    State(Repeat(false, BITMAP_BITS)[0 := true], SPACE - 1, 1,
          Repeat(ZERO_INODE, INODES)[0 := Inode(Dir, 0, NO_LOCS[0 := Blk(0)], IN_USE, -2, 0, 0, 0)],
          INODES - 1, 1, Repeat(Zero, SPACE))
  }

  type PerInode = s: seq<nat> | |s| == INODES witness Repeat(0, 1024)

  /** The entries of directory `d`: distinct names, and each entry names a live inode whose
      parent is `d` and whose place in `d`'s list is `slot`. */
  ghost predicate DirInv(st: State, d: nat, slot: PerInode)
    requires d < INODES
  {
    var l := List(st, d);
    && st.inodes[d].size % ENTRY == 0
    && (forall e :: 0 <= e < |l| ==>
          && |l[e].name| <= 13 && 0 < l[e].inode < INODES && st.inodes[l[e].inode].Live()
          && st.inodes[l[e].inode].parent == d && slot[l[e].inode] == e)
    && (forall e, e' :: 0 <= e < e' < |l| ==> l[e].name != l[e'].name)
  }

  /** A live inode other than the root is named by an entry of its parent, a live directory
      one level nearer to the root. */
  ghost predicate NamedInv(st: State, j: nat, slot: PerInode, depth: PerInode)
    requires j < INODES
  {
    var d := st.inodes[j].parent;
    && 0 <= d < INODES && IsDir(st, d)
    && slot[j] < |List(st, d)| && List(st, d)[slot[j]].inode == j
    && depth[j] == depth[d] + 1
  }

  ghost predicate TreeInv(st: State, slot: PerInode, depth: PerInode) {
    && IsDir(st, 0)
    && (forall d :: 0 <= d < INODES && IsDir(st, d) ==> DirInv(st, d, slot))
    && (forall j :: 0 < j < INODES && st.inodes[j].Live() ==> NamedInv(st, j, slot, depth))
    && (forall j :: 0 <= j < INODES && st.inodes[j].Live() ==> !st.inodes[j].kind.Nul?)
  }

  /** The file system invariant, with its witnesses. */
  ghost predicate Inv(st: State, owner: Owners, slot: PerInode, depth: PerInode) {
    FsInv(st, owner) && InodeInv(st) && TreeInv(st, slot, depth)
  }

  ghost predicate Consistent(st: State) {
    exists owner, slot, depth :: Inv(st, owner, slot, depth)
  }
}
