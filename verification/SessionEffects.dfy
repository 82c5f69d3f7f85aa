/** What one call of a session does, told by the paths, the entries and the contents of the files. */
module SessionEffects {
  import opened Disk
  import opened BlockIndex
  import opened FileData
  import opened Directory
  import opened Inodes
  import opened Namespace
  import opened WriteLength
  import opened Effects
  import opened Sessions

  /** The call has had its effect, whether it could do its work or not. */
  ghost predicate Called(st: State, op: Op, st1: State) {
    exists ok :: Effect(st, op, st1, ok)
  }

  /** What is open in this table. */
  function OpenIn(x: Session): set<nat> {
    set k | 0 <= k < |x.fds| :: x.fds[k].inode
  }

  /** The path names inode i: from the root, or from the current directory, to an entry. */
  ghost predicate PathNames(x: Session, atRoot: bool, comps: seq<Name>, name: Name, i: nat)
    requires x.fds != []
  {
    exists d :: Leads(x.st, if atRoot then 0 else x.fds[0].inode, comps, d) && Listed(x.st, d, name, i)
  }

  /** The table after opening inode i: a file is opened at its start, after all others; a directory alone, at its start. */
  ghost predicate Opened(x: Session, y: Session, i: nat) {
    y.st == x.st && y.fds == if IsDir(x.st, i) then [Desc(i, 0)] else x.fds + [Desc(i, 0)]
  }

  /** From the directory that is current one goes up to the one that lists it, and stays in the root. */
  ghost predicate WentUp(x: Session, y: Session)
    requires x.fds != []
  {
    var i := x.fds[0].inode;
    if i == 0 then y == x
    else exists d, name :: IsDir(x.st, d) && Listed(x.st, d, name, i) && y == x.(fds := x.fds[0 := Desc(d, 0)])
  }

  /** The number of bytes that a write of s at p to file i takes. */
  function Taken(st: State, i: nat, p: nat, s: seq<Byte>): int
    requires i < INODES
  {
    if HasRoom(st, i, p) then Min(|s|, BLOCK_SIZE * Room(st.inodes[i].BlockCount(), st.freeBlocks) - p) else 0
  }

  /** A write through descriptor k: at its position, which moves past what was taken. */
  ghost predicate PutDone(x: Session, y: Session, k: nat, s: seq<Byte>) {
    && k < |x.fds| && x.fds[k].inode < INODES && x.fds[k].position >= 0
    && var i, p := x.fds[k].inode, x.fds[k].position;
    && Called(x.st, Write(i, p, s), y.st)
    && y.fds == x.fds[k := Desc(i, p + Taken(x.st, i, p, s))]
  }

  /** From x the call leads to y. */
  ghost predicate Does(x: Session, req: Request, y: Session)
    requires x.fds != []
  {
    match req
    case Make(atRoot, comps, name, isDir, mode, pad) =>
      y.fds == x.fds && Called(x.st, Create(if atRoot then 0 else x.fds[0].inode, comps, name, isDir, mode, pad), y.st)
    case Remove(atRoot, comps, name) =>
      y.fds == x.fds && Called(x.st, Unlink(if atRoot then 0 else x.fds[0].inode, comps, name, OpenIn(x)), y.st)
    case Open(atRoot, comps, name) =>
      && (forall i :: PathNames(x, atRoot, comps, name, i) ==> if i in OpenIn(x) then y == x else Opened(x, y, i))
      && ((forall i :: !PathNames(x, atRoot, comps, name, i)) ==> y == x)
    case Close(k) =>
      if k == 0 then WentUp(x, y)
      else if 0 < k < |x.fds| then y == x.(fds := x.fds[..k] + x.fds[k + 1..])
      else y == x
    case Seek(k, position) =>
      var n := if k < 0 then 0 else k;
      if k == 0 || n >= |x.fds| then y == x
      else
        && x.fds[n].inode < INODES
        && var size := x.st.inodes[x.fds[n].inode].size;
           y == x.(fds := x.fds[n := Desc(x.fds[n].inode, if position < 0 then 0 else if position > size then size else position)])
    case Put(k, s) => if 1 <= k < |x.fds| then PutDone(x, y, k, s) else y == x
  }

  lemma StepCalled(st: State, op: Op)
    requires Consistent(st)
    ensures Called(st, op, Step(st, op).0)
  {
    hide Consistent, Effect, Step;
    StepExact(st, op);
    assert Effect(st, op, Step(st, op).0, Step(st, op).1);
  }

  lemma ServeMake(x: Session, atRoot: bool, comps: seq<Name>, name: Name, isDir: bool, mode: int, pad: Pad)
    requires SessionInv(x)
    ensures x.fds != [] && Does(x, Make(atRoot, comps, name, isDir, mode, pad), Serve(x, Make(atRoot, comps, name, isDir, mode, pad)))
  {
    hide Consistent, Step, Called;
    StepCalled(x.st, Create(From(x, atRoot), comps, name, isDir, mode, pad));
  }

  lemma ServeRemove(x: Session, atRoot: bool, comps: seq<Name>, name: Name)
    requires SessionInv(x)
    ensures x.fds != [] && Does(x, Remove(atRoot, comps, name), Serve(x, Remove(atRoot, comps, name)))
  {
    hide Consistent, Step, Called;
    assert OpenIn(x) == OpenSet(x.fds);
    StepCalled(x.st, Unlink(From(x, atRoot), comps, name, OpenSet(x.fds)));
  }

  /** A path names just what the two lookups find. */
  lemma PathIff(x: Session, atRoot: bool, comps: seq<Name>, name: Name, i: nat)
    requires SessionInv(x)
    ensures x.fds != []
    ensures var r := Resolve(x.st, From(x, atRoot), comps);
            PathNames(x, atRoot, comps, name, i) <==> r.Some? && IsExist(x.st, r.value, name) == Some(i)
  {
    hide Consistent, Leads, Listed, IsExist, Resolve;
    LeadsIff(x.st, From(x, atRoot), comps);
    var r := Resolve(x.st, From(x, atRoot), comps);
    if r.Some? {
      assert IsDir(x.st, r.value) by { ResolvedDir(x.st, From(x, atRoot), comps); }
      ListedIff(x.st, r.value, name);
    }
  }

  lemma ResolvedDir(st: State, d: nat, comps: seq<Name>)
    requires Resolve(st, d, comps).Some?
    ensures IsDir(st, Resolve(st, d, comps).value)
  {
  }

  lemma ServeOpen(x: Session, atRoot: bool, comps: seq<Name>, name: Name)
    requires SessionInv(x)
    ensures x.fds != [] && Does(x, Open(atRoot, comps, name), Serve(x, Open(atRoot, comps, name)))
  {
    hide Consistent, PathNames, IsExist, Resolve, PutAt, Step;
    forall i: nat ensures var r := Resolve(x.st, From(x, atRoot), comps);
                          x.fds != [] && (PathNames(x, atRoot, comps, name, i) <==> r.Some? && IsExist(x.st, r.value, name) == Some(i)) {
      PathIff(x, atRoot, comps, name, i);
    }
    var r := Resolve(x.st, From(x, atRoot), comps);
    if r.Some? && IsExist(x.st, r.value, name).Some? {
      var i := IsExist(x.st, r.value, name).value;
      FoundIsLive(x.st, r.value, name, i) by { ResolvedDir(x.st, From(x, atRoot), comps); }
      assert PathNames(x, atRoot, comps, name, i);
      assert OpenIn(x) == OpenSet(x.fds);
    }
  }

  lemma UpIsParent(x: Session)
    requires SessionInv(x)
    ensures x.fds != [] && WentUp(x, Up(x))
  {
    hide FsInv, InodeInv, List;
    var owner, slot, depth :| Inv(x.st, owner, slot, depth);
    var i := x.fds[0].inode;
    if i != 0 {
      assert NamedInv(x.st, i, slot, depth);
      var d := x.st.inodes[i].parent;
      assert DirInv(x.st, d, slot);
      var e := List(x.st, d)[slot[i]];
      assert e.inode == i && e == Entry(e.name, i);
      assert Listed(x.st, d, e.name, i);
    }
  }

  lemma ServeClose(x: Session, k: int)
    requires SessionInv(x)
    ensures x.fds != [] && Does(x, Close(k), Serve(x, Close(k)))
  {
    hide SessionInv, WentUp, Up, PutAt, Step;
    UpIsParent(x);
  }

  lemma ServeSeek(x: Session, k: int, position: int)
    requires SessionInv(x)
    ensures x.fds != [] && Does(x, Seek(k, position), Serve(x, Seek(k, position)))
  {
    hide Consistent, PutAt, Step;
    if 1 <= k < |x.fds| { assert InFile(x.st, x.fds[k]); }
  }

  lemma ServePut(x: Session, k: int, s: seq<Byte>)
    requires SessionInv(x)
    ensures x.fds != [] && Does(x, Put(k, s), Serve(x, Put(k, s)))
  {
    hide Consistent, Step, WriteFile, Room;
    if k < 0 {
      DirectoryIsNotWritten(x, k, s);
    } else if 1 <= k < |x.fds| {
      var f := x.fds[k];
      assert InFile(x.st, f);
      StepCalled(x.st, Write(f.inode, f.position, s));
      WriteTakes(x.st, f.inode, f.position, s);
    }
  }

  /** The count that write_file returns. */
  lemma {:induction false} WriteTakes(st: State, i: nat, p: nat, s: seq<Byte>)
    requires Consistent(st) && i < INODES && st.inodes[i].Live() && !st.inodes[i].kind.Dir? && p <= st.inodes[i].size
    ensures Step(st, Write(i, p, s)).0 == WriteFile(st, i, p, s, true).0
    ensures Max(WriteFile(st, i, p, s, true).1, 0) == Taken(st, i, p, s)
  {
    hide FsInv, InodeInv, TreeInv, WriteFile, Room;
    var owner, slot, depth :| Inv(st, owner, slot, depth);
    WriteLengthExact(st, owner, i, p, s, true);
    RoomSteps(st.inodes[i].BlockCount(), st.freeBlocks, p);
  }

  /** Every call of every session does what it should to the files and to the table. */
  lemma ServeExact(x: Session, req: Request)
    requires SessionInv(x)
    ensures x.fds != [] && Does(x, req, Serve(x, req))
  {
    hide SessionInv, Does, Serve;
    match req
    case Make(atRoot, comps, name, isDir, mode, pad) => ServeMake(x, atRoot, comps, name, isDir, mode, pad);
    case Remove(atRoot, comps, name) => ServeRemove(x, atRoot, comps, name);
    case Open(atRoot, comps, name) => ServeOpen(x, atRoot, comps, name);
    case Close(k) => ServeClose(x, k);
    case Seek(k, position) => ServeSeek(x, k, position);
    case Put(k, s) => ServePut(x, k, s);
  }

  /** A file that is opened and not open yet gets a new last descriptor, and a write through that goes to its start. */
  lemma {:induction false} OpenedAtStart(x: Session, atRoot: bool, comps: seq<Name>, name: Name, i: nat, s: seq<Byte>)
    requires SessionInv(x) && x.fds != [] && PathNames(x, atRoot, comps, name, i) && i !in OpenIn(x) && !IsDir(x.st, i)
    ensures var k, y := |x.fds|, Serve(x, Open(atRoot, comps, name));
            var z := Serve(y, Put(k, s));
            && i < INODES && y == x.(fds := x.fds + [Desc(i, 0)]) && |z.fds| == k + 1
            && var w := z.fds[k].position;
               && 0 <= w == Taken(x.st, i, 0, s) <= |s| && Content(z.st, i) == Splice(Content(x.st, i), 0, s[..w])
               && forall j :: 0 <= j < INODES && j != i ==> Content(z.st, j) == Content(x.st, j)
  {
    hide SessionInv, PathNames, Serve, Content, Splice, Room, Called, HasRoom;
    ServeOpen(x, atRoot, comps, name);
    ServeKeeps(x, Open(atRoot, comps, name));
    var y := Serve(x, Open(atRoot, comps, name));
    PutKeeps(y, |x.fds|, s);
    ServePut(y, |x.fds|, s);
  }
}
