/** The inode allocator: lowest free number first, with a cached index and a count. */
module Inodes {
  import opened Disk
  import opened BlockIndex
  import opened FileData

  const IN_USE := 0x100

  function FreeInodeCount(t: seq<Inode>, n: nat): (c: nat)
    requires n <= |t|
    ensures c <= n
  {
    if n == 0 then 0 else FreeInodeCount(t, n - 1) + if t[n - 1].Live() then 0 else 1
  }

  /** The scan of allocate_inode: the first free inode at or after `from`, |t| if none. */
  function NextFreeInode(t: seq<Inode>, from: nat): (r: nat)
    requires from <= |t|
    ensures from <= r <= |t|
    ensures forall j :: from <= j < r ==> t[j].Live()
    ensures r < |t| ==> !t[r].Live()
    decreases |t| - from
  {
    if from == |t| || !t[from].Live() then from else NextFreeInode(t, from + 1)
  }

  /** The cached index is the least free inode and the count is the number of free ones. */
  ghost predicate InodeInv(st: State) {
    && 0 <= st.firstInode <= INODES
    && (forall j :: 0 <= j < st.firstInode ==> st.inodes[j].Live())
    && (st.firstInode < INODES ==> !st.inodes[st.firstInode].Live())
    && st.freeInodes == FreeInodeCount(st.inodes, INODES)
  }

  /** allocate_inode: location[] is left as it was. */
  function AllocateInode(st: State, parent: nat, mode: int, kind: Kind): State {
    var f := st.firstInode;
    if !(0 <= f < INODES) then st else
    var t := st.inodes[f := Inode(kind, 0, st.inodes[f].loc, IN_USE, parent, -1, 0, mode)];
    st.(inodes := t, firstInode := NextFreeInode(t, f + 1), freeInodes := st.freeInodes - 1)
  }

  /** The end of free_inode: the record is reset and its number is free again. */
  function ResetInode(st: State, i: nat): State
    requires i < INODES
  {
    st.(inodes := st.inodes[i := Inode(Nul, 0, st.inodes[i].loc, 0, 0, 0, 0, -1)],
        freeInodes := st.freeInodes + 1,
        firstInode := if st.firstInode > i then i else st.firstInode)
  }

  lemma {:induction false} FreeInodeCountUpdate(t: seq<Inode>, n: nat, j: nat, x: Inode)
    requires n <= |t| && j < |t|
    ensures FreeInodeCount(t[j := x], n) ==
            FreeInodeCount(t, n) + if j >= n || t[j].Live() == x.Live() then 0 else if x.Live() then -1 else 1
  {
    if n > 0 {
      FreeInodeCountUpdate(t, n - 1, j, x);
    }
  }

  lemma {:induction false} FreeInodeCountZero(t: seq<Inode>, n: nat)
    requires n <= |t|
    ensures FreeInodeCount(t, n) == 0 <==> forall j :: 0 <= j < n ==> t[j].Live()
  {
    if n > 0 {
      FreeInodeCountZero(t, n - 1);
    }
  }

  lemma {:induction false} FreeInodeCountFrame(t: seq<Inode>, t': seq<Inode>, n: nat)
    requires n <= |t| && |t'| == |t| && forall j :: 0 <= j < |t| ==> t'[j].Live() == t[j].Live()
    ensures FreeInodeCount(t', n) == FreeInodeCount(t, n)
  {
    if n > 0 {
      FreeInodeCountFrame(t, t', n - 1);
    }
  }

  /** create's test of the count says exactly that the cached index names a free slot. */
  lemma {:induction false} FirstInodeUsable(st: State)
    requires InodeInv(st)
    ensures st.freeInodes >= 1 <==> st.firstInode < INODES
  {
    FreeInodeCountZero(st.inodes, INODES);
  }

  lemma {:induction false} AllocateInodeKeepsInv(st: State, parent: nat, mode: int, kind: Kind)
    requires InodeInv(st) && st.freeInodes >= 1
    ensures st.firstInode < INODES && !st.inodes[st.firstInode].Live()
    ensures InodeInv(AllocateInode(st, parent, mode, kind))
  {
    FirstInodeUsable(st);
    var f := st.firstInode;
    FreeInodeCountUpdate(st.inodes, INODES, f, Inode(kind, 0, st.inodes[f].loc, IN_USE, parent, -1, 0, mode));
  }

  lemma {:induction false} ResetInodeKeepsInv(st: State, i: nat)
    requires InodeInv(st) && i < INODES && st.inodes[i].Live()
    ensures InodeInv(ResetInode(st, i))
  {
    FreeInodeCountUpdate(st.inodes, INODES, i, Inode(Nul, 0, st.inodes[i].loc, 0, 0, 0, 0, -1));
  }

  /** Inode allocation and reset touch no block. */
  lemma {:induction false} LivenessKeepsFsInv(st: State, st1: State, owner: Owners, i: nat)
    requires FsInv(st, owner) && i < INODES
    requires st1.bits == st.bits && st1.disk == st.disk && st1.freeBlocks == st.freeBlocks && st1.firstBlock == st.firstBlock
    requires st1.inodes == st.inodes[i := st1.inodes[i]] && st1.inodes[i].loc == st.inodes[i].loc
    requires st1.inodes[i].BlockCount() == st.inodes[i].BlockCount() && st1.inodes[i].size <= BLOCK_SIZE * st.inodes[i].BlockCount()
    ensures FsInv(st1, owner)
    ensures forall j :: 0 <= j < INODES && j != i ==> Content(st1, j) == Content(st, j)
  {
    forall r | InRange(r) ensures At(st1.inodes, st1.disk, r) == At(st.inodes, st.disk, r) {}
    forall j | 0 <= j < INODES ensures Shape(st1, j) { assert Shape(st, j); }
  }
}
