/** The directory tree alone: adding a leaf and removing a leaf keep it a tree. */
module Tree {
  import opened Disk
  import opened Directory
  import opened Namespace

  /** Inode `j` is in use, of the same kind and under the same parent. */
  ghost predicate SameNode(st: State, st1: State, j: nat)
    requires j < INODES
  {
    && st1.inodes[j].Live() == st.inodes[j].Live()
    && st1.inodes[j].kind == st.inodes[j].kind
    && st1.inodes[j].parent == st.inodes[j].parent
  }

  ghost predicate SameList(st: State, st1: State, d: nat)
    requires d < INODES
  {
    List(st1, d) == List(st, d) && st1.inodes[d].size % ENTRY == st.inodes[d].size % ENTRY
  }

  lemma DirKept(st: State, st1: State, slot: PerInode, slot1: PerInode, d: nat)
    requires d < INODES && DirInv(st, d, slot) && SameList(st, st1, d)
    requires forall e :: 0 <= e < |List(st, d)| ==>
               SameNode(st, st1, List(st, d)[e].inode) && slot1[List(st, d)[e].inode] == e
    ensures DirInv(st1, d, slot1)
  {
    hide List;
  }

  lemma {:induction false} TreeFrame(st: State, st1: State, slot: PerInode, depth: PerInode)
    requires TreeInv(st, slot, depth)
    requires forall j :: 0 <= j < INODES ==> SameNode(st, st1, j)
    requires forall d :: 0 <= d < INODES && IsDir(st, d) ==> SameList(st, st1, d)
    ensures TreeInv(st1, slot, depth)
  {
    hide List;
    forall d | 0 <= d < INODES && IsDir(st1, d) ensures DirInv(st1, d, slot) {
      assert SameNode(st, st1, d) && SameList(st, st1, d) && DirInv(st, d, slot);
      DirKept(st, st1, slot, slot, d);
    }
    forall j | 0 < j < INODES && st1.inodes[j].Live() ensures NamedInv(st1, j, slot, depth) {
      assert SameNode(st, st1, j) && NamedInv(st, j, slot, depth);
      assert SameNode(st, st1, st.inodes[j].parent) && SameList(st, st1, st.inodes[j].parent);
    }
    assert SameNode(st, st1, 0);
    forall j | 0 <= j < INODES && st1.inodes[j].Live() ensures !st1.inodes[j].kind.Nul? {
      assert SameNode(st, st1, j);
    }
  }

  /** `st1` is `st` with inode f in use as a leaf named `name` of directory d. */
  ghost predicate LeafAdded(st: State, st1: State, d: nat, f: nat, name: Name) {
    && IsDir(st, d) && 0 < f < INODES && !st.inodes[f].Live()
    && |name| <= 13 && (forall e :: 0 <= e < |List(st, d)| ==> List(st, d)[e].name != name)
    && st1.inodes[f].Live() && st1.inodes[f].parent == d && !st1.inodes[f].kind.Nul? && st1.inodes[f].size == 0
    && List(st1, d) == List(st, d) + [Entry(name, f)] && st1.inodes[d].size % ENTRY == 0
    && (forall j :: 0 <= j < INODES && j != f ==> SameNode(st, st1, j))
    && (forall d' :: 0 <= d' < INODES && d' != d && d' != f && IsDir(st, d') ==> SameList(st, st1, d'))
  }

  /** A new leaf keeps the tree a tree. */
  lemma {:induction false} TreeGrows(st: State, st1: State, slot: PerInode, depth: PerInode, d: nat, f: nat, name: Name)
    requires TreeInv(st, slot, depth) && LeafAdded(st, st1, d, f, name)
    ensures TreeInv(st1, slot[f := |List(st, d)|], depth[f := depth[d] + 1])
  {
    var slot1, depth1 := slot[f := |List(st, d)|], depth[f := depth[d] + 1];
    hide List, DirInv, NamedInv;
    forall d' | 0 <= d' < INODES && IsDir(st1, d') ensures DirInv(st1, d', slot1) {
      DirOfGrown(st, st1, slot, depth, d, f, name, d');
    }
    forall j | 0 < j < INODES && st1.inodes[j].Live() ensures NamedInv(st1, j, slot1, depth1) {
      NamedOfGrown(st, st1, slot, depth, d, f, name, j);
    }
    assert SameNode(st, st1, 0);
    forall j | 0 <= j < INODES && st1.inodes[j].Live() ensures !st1.inodes[j].kind.Nul? {
      if j != f { assert SameNode(st, st1, j); }
    }
  }

  lemma {:induction false} DirOfGrown(st: State, st1: State, slot: PerInode, depth: PerInode, d: nat, f: nat, name: Name, d': nat)
    requires TreeInv(st, slot, depth) && LeafAdded(st, st1, d, f, name) && IsDir(st1, d')
    ensures DirInv(st1, d', slot[f := |List(st, d)|])
  {
    hide List;
    if d' != f {
      assert SameNode(st, st1, d') && DirInv(st, d', slot);
      if d' == d { DirGrows(st, st1, slot, d, f, name); }
      else { DirKept(st, st1, slot, slot[f := |List(st, d)|], d'); }
    }
  }

  lemma {:induction false} NamedOfGrown(st: State, st1: State, slot: PerInode, depth: PerInode, d: nat, f: nat, name: Name, j: nat)
    requires TreeInv(st, slot, depth) && LeafAdded(st, st1, d, f, name) && 0 < j < INODES && st1.inodes[j].Live()
    ensures NamedInv(st1, j, slot[f := |List(st, d)|], depth[f := depth[d] + 1])
  {
    hide List, DirInv;
    assert SameNode(st, st1, d);
    if j != f {
      var p := st.inodes[j].parent;
      assert SameNode(st, st1, j) && NamedInv(st, j, slot, depth);
      assert SameNode(st, st1, p);
      if p != d { assert SameList(st, st1, p); }
    }
  }

  lemma {:induction false} DirGrows(st: State, st1: State, slot: PerInode, d: nat, f: nat, name: Name)
    requires d < INODES && DirInv(st, d, slot) && 0 < f < INODES && !st.inodes[f].Live()
    requires |name| <= 13 && forall e :: 0 <= e < |List(st, d)| ==> List(st, d)[e].name != name
    requires st1.inodes[f].Live() && st1.inodes[f].parent == d
    requires List(st1, d) == List(st, d) + [Entry(name, f)] && st1.inodes[d].size % ENTRY == 0
    requires forall j :: 0 <= j < INODES && j != f ==> SameNode(st, st1, j)
    ensures DirInv(st1, d, slot[f := |List(st, d)|])
  {
    hide List;
    var l, l1 := List(st, d), List(st1, d);
    forall e | 0 <= e < |l|
      ensures st1.inodes[l[e].inode].Live() && l[e].inode != f && st1.inodes[l[e].inode].parent == d {
      assert SameNode(st, st1, l[e].inode);
    }
  }

  /** `st1` is `st` with leaf i taken from under directory d, its entry's place filled by the last entry. */
  ghost predicate LeafGone(st: State, st1: State, slot: PerInode, d: nat, i: nat) {
    && d < INODES && 0 < i < INODES && st.inodes[i].Live() && st.inodes[i].parent == d
    && (st.inodes[i].kind.Dir? ==> |List(st, i)| == 0)
    && !st1.inodes[i].Live() && slot[i] < |List(st, d)|
    && List(st1, d) == SwapRemove(List(st, d), slot[i]) && st1.inodes[d].size % ENTRY == 0
    && (forall j :: 0 <= j < INODES && j != i ==> SameNode(st, st1, j))
    && (forall d' :: 0 <= d' < INODES && d' != d && d' != i && IsDir(st, d') ==> SameList(st, st1, d'))
  }

  /** Taking a leaf away keeps the tree a tree. */
  lemma {:induction false} TreeShrinks(st: State, st1: State, slot: PerInode, depth: PerInode, d: nat, i: nat)
    requires TreeInv(st, slot, depth) && LeafGone(st, st1, slot, d, i)
    ensures exists slot1 :: TreeInv(st1, slot1, depth)
  {
    hide List;
    var l := List(st, d);
    assert NamedInv(st, i, slot, depth) && DirInv(st, d, slot);
    var m := l[|l| - 1].inode;
    var slot1 := slot[m := slot[i]];
    assert d != i;
    forall d' | 0 <= d' < INODES && IsDir(st1, d') ensures DirInv(st1, d', slot1) {
      assert SameNode(st, st1, d') && DirInv(st, d', slot);
      if d' == d {
        DirShrinks(st, st1, slot, d, i);
      } else {
        DirKept(st, st1, slot, slot1, d');
      }
    }
    forall j | 0 < j < INODES && st1.inodes[j].Live() ensures NamedInv(st1, j, slot1, depth) {
      assert SameNode(st, st1, j);
      NamedOfShrunk(st, st1, slot, depth, d, i, j);
    }
    assert SameNode(st, st1, 0);
    forall j | 0 <= j < INODES && st1.inodes[j].Live() ensures !st1.inodes[j].kind.Nul? {
      assert SameNode(st, st1, j);
    }
    assert TreeInv(st1, slot1, depth);
  }

  lemma {:induction false} NamedOfShrunk(st: State, st1: State, slot: PerInode, depth: PerInode, d: nat, i: nat, j: nat)
    requires TreeInv(st, slot, depth) && LeafGone(st, st1, slot, d, i)
    requires 0 < j < INODES && j != i && st.inodes[j].Live()
    ensures NamedInv(st1, j, slot[List(st, d)[|List(st, d)| - 1].inode := slot[i]], depth)
  {
    hide List;
    var p := st.inodes[j].parent;
    assert SameNode(st, st1, j) && NamedInv(st, j, slot, depth) && NamedInv(st, i, slot, depth);
    assert DirInv(st, p, slot) && SameNode(st, st1, p);
    if p != d { assert SameList(st, st1, p); }
  }

  lemma {:induction false} DirShrinks(st: State, st1: State, slot: PerInode, d: nat, i: nat)
    requires d < INODES && DirInv(st, d, slot) && i < INODES && slot[i] < |List(st, d)|
    requires List(st, d)[slot[i]].inode == i
    requires List(st1, d) == SwapRemove(List(st, d), slot[i]) && st1.inodes[d].size % ENTRY == 0
    requires forall j :: 0 <= j < INODES && j != i ==> SameNode(st, st1, j)
    ensures DirInv(st1, d, slot[List(st, d)[|List(st, d)| - 1].inode := slot[i]])
  {
    hide List;
    var l, l1 := List(st, d), List(st1, d);
    var m := l[|l| - 1].inode;
    forall e | 0 <= e < |l1|
      ensures l1[e].inode != i && st1.inodes[l1[e].inode].Live() && st1.inodes[l1[e].inode].parent == d
      ensures slot[m := slot[i]][l1[e].inode] == e {
      var e0 := if e == slot[i] then |l| - 1 else e;
      assert l1[e] == l[e0] && slot[l[e0].inode] == e0;
      assert SameNode(st, st1, l[e0].inode);
    }
  }
}
