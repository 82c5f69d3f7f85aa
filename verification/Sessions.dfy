/** One process's calls through its descriptor table: what its open files and its current directory can rely on. */
module Sessions {
  import opened Disk
  import opened BlockIndex
  import opened FileData
  import opened Directory
  import opened Inodes
  import opened Namespace
  import opened Tree
  import opened Runs

  /** A file object; the first one of a table is the current directory. */
  datatype Desc = Desc(inode: nat, position: int)

  datatype Session = Session(st: State, fds: seq<Desc>)

  /** Paths start at the root or at the current directory; k is any descriptor number. */
  datatype Request =
    | Make(atRoot: bool, comps: seq<Name>, name: Name, isDir: bool, mode: int, pad: Pad)
    | Remove(atRoot: bool, comps: seq<Name>, name: Name)
    | Open(atRoot: bool, comps: seq<Name>, name: Name)
    | Close(k: int)
    | Seek(k: int, position: int)
    | Put(k: int, s: seq<Byte>)

  function From(x: Session, atRoot: bool): nat
    requires x.fds != []
  {
    if atRoot then 0 else x.fds[0].inode
  }

  /** The inodes for which isOpen, asked about this table, answers open. */
  function OpenSet(fds: seq<Desc>): set<nat> {
    set k | 0 <= k < |fds| :: fds[k].inode
  }

  /** rd_open: a file gets the next descriptor; a directory becomes the only one. */
  function OpenAt(x: Session, i: nat, open: set<nat>): Session {
    if i >= INODES || i in open then x
    else if x.st.inodes[i].kind.Dir? then x.(fds := [Desc(i, 0)])
    else x.(fds := x.fds + [Desc(i, 0)])
  }

  /** rd_close of the current directory goes up to its parent. */
  function Up(x: Session): Session
    requires x.fds != []
  {
    var i := x.fds[0].inode;
    if i == 0 || i >= INODES || x.st.inodes[i].parent < 0 then x
    else x.(fds := x.fds[0 := Desc(x.st.inodes[i].parent, 0)])
  }

  /** The walk along the list for descriptor k: a negative number stops at the first file object. */
  function Slot(k: int): nat { if k < 0 then 0 else k }

  function Clamp(position: int, size: nat): nat {
    if position < 0 then 0 else if size < position then size else position
  }

  /** One call, when `open` are the inodes that isOpen finds open. */
  function ServeWith(x: Session, req: Request, open: set<nat>): (y: Session)
    requires x.fds != []
    ensures y.fds != []
  {
    match req
    case Make(atRoot, comps, name, isDir, mode, pad) =>
      x.(st := Step(x.st, Create(From(x, atRoot), comps, name, isDir, mode, pad)).0)
    case Remove(atRoot, comps, name) =>
      x.(st := Step(x.st, Unlink(From(x, atRoot), comps, name, open)).0)
    case Open(atRoot, comps, name) =>
      (match Resolve(x.st, From(x, atRoot), comps)
       case None => x
       case Some(d) =>
         match IsExist(x.st, d, name)
         case None => x
         case Some(i) => OpenAt(x, i, open))
    case Close(k) =>
      if k == 0 then Up(x)
      else if k < 0 || k >= |x.fds| then x
      else x.(fds := x.fds[..k] + x.fds[k + 1..])
    case Seek(k, position) =>
      if !Names(x, k) then x
      else MoveTo(x, Slot(k), Clamp(position, x.st.inodes[x.fds[Slot(k)].inode].size))
    case Put(k, s) =>
      if !Names(x, k) || x.fds[Slot(k)].position < 0 then x
      else PutAt(x, Slot(k), s)
  }

  /** Does the call find a file object for descriptor k? Number 0 is refused. */
  predicate Names(x: Session, k: int) {
    k != 0 && Slot(k) < |x.fds| && x.fds[Slot(k)].inode < INODES
  }

  function MoveTo(x: Session, k: nat, position: int): Session
    requires k < |x.fds|
  {
    x.(fds := x.fds[k := x.fds[k].(position := position)])
  }

  /** rd_write: the position moves past what was written. */
  function PutAt(x: Session, k: nat, s: seq<Byte>): Session
    requires k < |x.fds| && x.fds[k].inode < INODES && x.fds[k].position >= 0
  {
    var p := x.fds[k].position;
    var (st1, w) := WriteFile(x.st, x.fds[k].inode, p, s, true);
    MoveTo(x.(st := st1), k, p + Max(w, 0))
  }

  /** One call, with isOpen asked about this process's table. */
  function Serve(x: Session, req: Request): (y: Session)
    requires x.fds != []
    ensures y.fds != []
  {
    ServeWith(x, req, OpenSet(x.fds))
  }

  /** After loading the module and the process's first call. */
  function FirstSession(): (x: Session)
    ensures x.fds != []
  {
    Session(Init(), [Desc(0, 0)])
  }

  function RunAll(x: Session, reqs: seq<Request>): (y: Session)
    requires x.fds != []
    ensures y.fds != []
    decreases |reqs|
  {
    if reqs == [] then x else RunAll(Serve(x, reqs[0]), reqs[1..])
  }

  /** The descriptor names a file in use, at a position inside it or at its end. */
  predicate InFile(st: State, f: Desc) {
    && f.inode < INODES && st.inodes[f.inode].Live() && !st.inodes[f.inode].kind.Dir?
    && 0 <= f.position <= st.inodes[f.inode].size
  }

  ghost predicate SessionInv(x: Session) {
    && Consistent(x.st) && x.fds != [] && IsDir(x.st, x.fds[0].inode)
    && forall k :: 1 <= k < |x.fds| ==> InFile(x.st, x.fds[k])
  }

  /** A change of state that keeps the nodes of these inodes and shrinks none of the files. */
  lemma FrameKeeps(x: Session, st1: State)
    requires SessionInv(x) && Consistent(st1)
    requires forall i :: i in OpenSet(x.fds) && i < INODES ==> SameNode(x.st, st1, i)
    requires forall i :: i in OpenSet(x.fds) && i < INODES && !x.st.inodes[i].kind.Dir? ==>
               st1.inodes[i].size >= x.st.inodes[i].size
    ensures SessionInv(x.(st := st1))
  {
    hide Consistent;
    assert x.fds[0].inode in OpenSet(x.fds);
    forall k | 1 <= k < |x.fds|
      ensures InFile(st1, x.fds[k])
    {
      assert InFile(x.st, x.fds[k]) && x.fds[k].inode in OpenSet(x.fds);
    }
  }

  lemma MakeKeeps(x: Session, d: nat, name: Name, isDir: bool, mode: int, pad: Pad)
    requires SessionInv(x) && IsDir(x.st, d) && x.st.freeInodes >= 1
    ensures SessionInv(x.(st := CreateIn(x.st, d, name, isDir, mode, pad).0))
  {
    hide Inv, CreateIn, Content, List, Find, IsExist;
    var owner, slot, depth :| Inv(x.st, owner, slot, depth);
    CreateInExact(x.st, owner, slot, depth, d, name, isDir, mode, pad);
    var (st1, ok) := CreateIn(x.st, d, name, isDir, mode, pad);
    if ok {
      forall i | i in OpenSet(x.fds) && i < INODES
        ensures SameNode(x.st, st1, i)
        ensures !x.st.inodes[i].kind.Dir? ==> st1.inodes[i].size >= x.st.inodes[i].size
      {
        OpenIsLive(x, i);
        assert i != x.st.firstInode && (i != d ==> |Content(st1, i)| == |Content(x.st, i)|);
      }
      FrameKeeps(x, st1);
    }
  }

  lemma OpenIsLive(x: Session, i: nat)
    requires SessionInv(x) && i in OpenSet(x.fds)
    ensures i < INODES && x.st.inodes[i].Live()
  {
    var k :| 0 <= k < |x.fds| && x.fds[k].inode == i;
    assert k > 0 ==> InFile(x.st, x.fds[k]);
  }

  lemma RemoveKeeps(x: Session, d: nat, name: Name)
    requires SessionInv(x) && IsDir(x.st, d)
    ensures SessionInv(x.(st := UnlinkIn(x.st, d, name, OpenSet(x.fds)).0))
  {
    hide Inv, UnlinkIn, Content, List, Find, IsExist;
    var owner, slot, depth :| Inv(x.st, owner, slot, depth);
    UnlinkInExact(x.st, owner, slot, depth, d, name, OpenSet(x.fds));
    var (st1, ok) := UnlinkIn(x.st, d, name, OpenSet(x.fds));
    if ok {
      forall i | i in OpenSet(x.fds) && i < INODES
        ensures SameNode(x.st, st1, i)
        ensures !x.st.inodes[i].kind.Dir? ==> st1.inodes[i].size >= x.st.inodes[i].size
      {
        assert i != d ==> |Content(st1, i)| == |Content(x.st, i)|;
      }
      FrameKeeps(x, st1);
    }
  }

  /** From x to y the bytes of a prefix of s went into descriptor k's file at its position, which moved past them. */
  ghost predicate WroteThrough(x: Session, y: Session, k: nat, s: seq<Byte>) {
    && k < |x.fds| && |y.fds| == |x.fds| && InFile(x.st, x.fds[k])
    && var f, w := x.fds[k], y.fds[k].position - x.fds[k].position;
    && 0 <= w <= |s| && Content(y.st, f.inode) == Splice(Content(x.st, f.inode), f.position, s[..w])
    && forall j :: 0 <= j < INODES && j != f.inode ==> Content(y.st, j) == Content(x.st, j)
  }

  lemma PutKeeps(x: Session, k: nat, s: seq<Byte>)
    requires SessionInv(x) && 1 <= k < |x.fds|
    ensures SessionInv(Serve(x, Put(k, s)))
    ensures WroteThrough(x, Serve(x, Put(k, s)), k, s)
  {
    hide Inv, WriteFile, Content, List;
    var f := x.fds[k];
    assert InFile(x.st, f);
    var owner, slot, depth :| Inv(x.st, owner, slot, depth);
    WriteStepExact(x.st, owner, slot, depth, f.inode, f.position, s);
    var (st1, w) := WriteFile(x.st, f.inode, f.position, s, true);
    if w == -1 {
      SpliceNone(Content(x.st, f.inode), f.position);
      assert s[..0] == [];
      assert x.fds[k := f] == x.fds;
    } else {
      SpliceSize(Content(x.st, f.inode), f.position, s[..w]);
      assert |Content(st1, f.inode)| == st1.inodes[f.inode].size;
      FrameKeeps(x, st1);
    }
  }

  lemma OpenKeeps(x: Session, d: nat, name: Name, i: nat)
    requires SessionInv(x) && IsDir(x.st, d) && IsExist(x.st, d, name) == Some(i)
    ensures SessionInv(OpenAt(x, i, OpenSet(x.fds)))
  {
    hide Consistent;
    FoundIsLive(x.st, d, name, i);
  }

  lemma FoundIsLive(st: State, d: nat, name: Name, i: nat)
    requires Consistent(st) && IsDir(st, d) && IsExist(st, d, name) == Some(i)
    ensures 0 < i < INODES && st.inodes[i].Live()
  {
    hide FsInv, InodeInv, TreeInv, List, IsExist;
    var owner, slot, depth :| Inv(st, owner, slot, depth);
    UnlinkTarget(st, owner, slot, depth, d, name);
  }

  /** The parent of a directory other than the root is a directory in use. */
  lemma UpKeeps(x: Session)
    requires SessionInv(x)
    ensures SessionInv(Up(x))
  {
    hide FsInv, InodeInv;
    var owner, slot, depth :| Inv(x.st, owner, slot, depth);
    var i := x.fds[0].inode;
    if i != 0 { assert NamedInv(x.st, i, slot, depth); }
  }

  lemma ServeKeeps(x: Session, req: Request)
    requires SessionInv(x)
    ensures SessionInv(Serve(x, req))
  {
    hide Consistent, CreateIn, UnlinkIn, WriteFile, Resolve, IsExist, OpenAt, Up;
    match req
    case Make(atRoot, comps, name, isDir, mode, pad) =>
      var d := Resolve(x.st, From(x, atRoot), comps);
      if d.Some? && x.st.freeBlocks >= 1 && x.st.freeInodes >= 1 { MakeKeeps(x, d.value, name, isDir, mode, pad); }
    case Remove(atRoot, comps, name) =>
      var d := Resolve(x.st, From(x, atRoot), comps);
      if d.Some? { RemoveKeeps(x, d.value, name); }
    case Open(atRoot, comps, name) =>
      var d := Resolve(x.st, From(x, atRoot), comps);
      if d.Some? && IsExist(x.st, d.value, name).Some? {
        OpenKeeps(x, d.value, name, IsExist(x.st, d.value, name).value);
      }
    case Close(k) => if k == 0 { UpKeeps(x); }
    case Seek(k, position) =>
    case Put(k, s) => if k < 0 { DirectoryIsNotWritten(x, k, s); } else if 1 <= k < |x.fds| { PutKeeps(x, k, s); }
  }

  /** A negative descriptor number comes to the current directory, which a user may not write to. */
  lemma DirectoryIsNotWritten(x: Session, k: int, s: seq<Byte>)
    requires SessionInv(x) && k < 0
    ensures Serve(x, Put(k, s)) == x
  {
    hide Consistent;
    assert x.fds[0 := x.fds[0]] == x.fds;
  }

  /**
   * Over every sequence of calls of one process: its current directory stays a directory in use, no open
   * file is taken away, and every descriptor's position stays within its file, so that each write starts
   * inside the file or at its end, which is where write_file splices.
   */
  lemma {:induction false} SessionsStayInside(x: Session, reqs: seq<Request>)
    requires SessionInv(x)
    ensures SessionInv(RunAll(x, reqs))
    decreases |reqs|
  {
    hide SessionInv, Serve;
    if reqs != [] {
      assert x.fds != [] by { NonEmpty(x); }
      ServeKeeps(x, reqs[0]);
      SessionsStayInside(Serve(x, reqs[0]), reqs[1..]);
    }
  }

  lemma NonEmpty(x: Session)
    requires SessionInv(x)
    ensures x.fds != []
  {
  }

  lemma FirstSessionInv()
    ensures SessionInv(FirstSession())
  {
    InitConsistent();
    hide Consistent;
  }

  /** What a write through a descriptor does, in every session: a splice at the descriptor's position. */
  lemma WriteThroughDescriptor(reqs: seq<Request>, k: nat, s: seq<Byte>)
    requires 1 <= k < |RunAll(FirstSession(), reqs).fds|
    ensures WroteThrough(RunAll(FirstSession(), reqs), Serve(RunAll(FirstSession(), reqs), Put(k, s)), k, s)
  {
    hide FirstSession, RunAll, Serve, WroteThrough, SessionInv;
    FirstSessionInv();
    SessionsStayInside(FirstSession(), reqs);
    PutKeeps(RunAll(FirstSession(), reqs), k, s);
  }
}
