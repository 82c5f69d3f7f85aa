/** Descriptor calls as the source writes them: negative positions and numbers, and the table isOpen looks at. */
module SessionsAsWritten {
  import opened Disk
  import opened BlockIndex
  import opened FileData
  import opened Directory
  import opened FreeBlocks
  import opened Inodes
  import opened Namespace
  import opened AsWritten
  import opened Runs
  import opened Sessions
  import Lists = Descriptors

  /** A call follows a NULL pointer, or stores bytes where the model has none, or ends in a session. */
  datatype Reply = Crash | Lost | Served(x: Session)

  // ----- rd_lseek, rd_write and rd_close -----

  /** Bytes stored one after the other from address a of the space; None outside it or over pointers. */
  function Stores(disk: Space, a: int, s: seq<Byte>): Option<Space>
    decreases |s|
  {
    if s == [] then Some(disk)
    else if !(0 <= a < BLOCK_SIZE * SPACE) || disk[a / BLOCK_SIZE].Index? then None
    else
      var b := a / BLOCK_SIZE;
      Stores(disk[b := Data(BytesOf(disk[b])[a % BLOCK_SIZE := s[0]])], a + 1, s[1..])
  }

  /**
   * write_file at a negative position p, everything else in it as designed: the offset is negative too, so
   * the first -p bytes go in front of the file's first block, and only the rest to positions 0, 1, ...
   */
  function NegativePut(x: Session, k: nat, s: seq<Byte>): Reply
    requires k < |x.fds| && x.fds[k].inode < INODES && x.fds[k].position < 0
  {
    var i, p := x.fds[k].inode, x.fds[k].position;
    match (if x.st.inodes[i].loc[0].Null? then AllocateBlock(x.st, i) else Some(x.st))
    case None => Served(x)
    case Some(st0) => if s == [] then Served(x.(st := st0)) else PutInFront(x, k, st0, s)
  }

  /** What fits in front of the block, and then the rest. */
  function PutInFront(x: Session, k: nat, st0: State, s: seq<Byte>): Reply
    requires k < |x.fds| && x.fds[k].inode < INODES && x.fds[k].position < 0
  {
    var i, p := x.fds[k].inode, x.fds[k].position;
    var a := SwitchAt(st0.inodes[i].loc, st0.disk, p);
    if !(a.Addr? && a.base.Blk?) then Lost
    else
      var n := Min(|s|, -p);
      match Stores(st0.disk, BLOCK_SIZE * a.base.n + a.offset, s[..n])
      case None => Lost
      case Some(disk1) => Served(PutRest(x, k, st0.(disk := disk1), p + n, s[n..]))
  }

  /** The rest of such a write, with the end of what went in front. */
  function PutRest(x: Session, k: nat, st0: State, from: int, rest: seq<Byte>): Session
    requires k < |x.fds| && x.fds[k].inode < INODES
  {
    var i := x.fds[k].inode;
    var (st1, w) := PutBytes(st0, i, 0, rest);
    MoveTo(x.(st := SetSize(st1, i, Max(st1.inodes[i].size, from + w))), k, from + w)
  }

  lemma NothingLeft(x: Session, k: nat, st0: State, from: int)
    requires k < |x.fds| && x.fds[k].inode < INODES && from <= 0
    requires st0.inodes[x.fds[k].inode].lastOffset == st0.inodes[x.fds[k].inode].size % BLOCK_SIZE
    ensures PutRest(x, k, st0, from, []) == Session(st0, x.fds[k := Desc(x.fds[k].inode, from)])
  {
    hide PutBytes, SetSize;
    NoBytes(st0, x.fds[k].inode);
    SizeStays(st0, x.fds[k].inode);
  }

  /** The byte at address a of the space. */
  function ByteOf(disk: Space, a: nat): Byte
    requires a < BLOCK_SIZE * SPACE
  {
    BytesOf(disk[a / BLOCK_SIZE])[a % BLOCK_SIZE]
  }

  /** The bytes lie at their addresses afterwards, all others and all pointers are as they were. */
  lemma {:induction false} StoresExact(disk: Space, a: int, s: seq<Byte>, q: nat)
    requires q < BLOCK_SIZE * SPACE
    ensures match Stores(disk, a, s)
            case None => true
            case Some(d) =>
              && (s != [] ==> 0 <= a && a + |s| <= BLOCK_SIZE * SPACE)
              && ByteOf(d, q) == (if a <= q < a + |s| then s[q - a] else ByteOf(disk, q))
              && (disk[q / BLOCK_SIZE].Index? ==> d[q / BLOCK_SIZE] == disk[q / BLOCK_SIZE])
    decreases |s|
  {
    if s != [] && 0 <= a < BLOCK_SIZE * SPACE && !disk[a / BLOCK_SIZE].Index? {
      var b := a / BLOCK_SIZE;
      StoresExact(disk[b := Data(BytesOf(disk[b])[a % BLOCK_SIZE := s[0]])], a + 1, s[1..], q);
    }
  }

  /**
   * A write that stays in front of the file's first block, at a position that it can compute: its bytes go there,
   * whatever is there, and the position moves past them; the file does not change.
   */
  lemma NegativeFront(x: Session, k: nat, s: seq<Byte>)
    requires k < |x.fds| && x.fds[k].inode < INODES && -BLOCK_SIZE < x.fds[k].position < 0
    requires x.st.inodes[x.fds[k].inode].loc[0].Blk? && 0 < |s| <= -x.fds[k].position
    requires x.st.inodes[x.fds[k].inode].lastOffset == x.st.inodes[x.fds[k].inode].size % BLOCK_SIZE
    ensures var i, p := x.fds[k].inode, x.fds[k].position;
            NegativePut(x, k, s) == match Stores(x.st.disk, BLOCK_SIZE * x.st.inodes[i].loc[0].n + p, s)
                                    case None => Lost
                                    case Some(d) => Served(Session(x.st.(disk := d), x.fds[k := Desc(i, p + |s|)]))
  {
    hide Stores, SwitchAt, AllocateBlock, PutRest, PutInFront;
    var i, p := x.fds[k].inode, x.fds[k].position;
    InFront(x.st.inodes[i].loc, x.st.disk, p);
    var stored := Stores(x.st.disk, BLOCK_SIZE * x.st.inodes[i].loc[0].n + p, s);
    if stored.Some? { NothingLeft(x, k, x.st.(disk := stored.value), p + |s|); }
    StoredInFront(x, k, s, x.st.inodes[i].loc[0].n);
  }

  /** As many bytes as fit in front go to the address. */
  lemma StoredInFront(x: Session, k: nat, s: seq<Byte>, b: nat)
    requires k < |x.fds| && x.fds[k].inode < INODES && x.fds[k].position < 0 && |s| <= -x.fds[k].position
    requires SwitchAt(x.st.inodes[x.fds[k].inode].loc, x.st.disk, x.fds[k].position) == Addr(Blk(b), x.fds[k].position)
    ensures PutInFront(x, k, x.st, s) == match Stores(x.st.disk, BLOCK_SIZE * b + x.fds[k].position, s)
                                         case None => Lost
                                         case Some(d) => Served(PutRest(x, k, x.st.(disk := d), x.fds[k].position + |s|, []))
  {
    hide Stores, SwitchAt, PutRest;
    assert s[..|s|] == s && s[|s|..] == [];
  }

  lemma SizeStays(st: State, i: nat)
    requires i < INODES && st.inodes[i].lastOffset == st.inodes[i].size % BLOCK_SIZE
    ensures SetSize(st, i, st.inodes[i].size) == st
  {
    assert st.inodes[i := st.inodes[i]] == st.inodes;
  }

  lemma InFront(loc: Locs, disk: Space, p: int)
    requires -BLOCK_SIZE < p < 0 && loc[0].Blk?
    ensures SwitchAt(loc, disk, p) == Addr(loc[0], p)
  {
  }

  /** A longer one is that, and then the write of the rest at the start of the file. */
  lemma NegativeSplits(x: Session, k: nat, s: seq<Byte>)
    requires k < |x.fds| && x.fds[k].inode < INODES && x.fds[k].position < 0 && |s| > -x.fds[k].position
    requires x.st.inodes[x.fds[k].inode].loc[0].Blk? && x.st.inodes[x.fds[k].inode].kind.Reg?
    requires x.st.inodes[x.fds[k].inode].lastOffset == x.st.inodes[x.fds[k].inode].size % BLOCK_SIZE
    ensures var p := x.fds[k].position;
            NegativePut(x, k, s) == match NegativePut(x, k, s[..-p])
                                    case Served(y) => if k < |y.fds| && y.fds[k].inode < INODES && y.fds[k].position >= 0
                                                      then Served(PutAt(y, k, s[-p..])) else Crash
                                    case r => r
  {
    hide Stores, PutBytes, AllocateBlock, SwitchAddress;
    var i, p := x.fds[k].inode, x.fds[k].position;
    var front := s[..-p];
    assert front[..-p] == front && front[-p..] == [] && |front| == -p && s[|front|..] == s[-p..];
    var a := SwitchAt(x.st.inodes[i].loc, x.st.disk, p);
    if a.Addr? && a.base.Blk? && Stores(x.st.disk, BLOCK_SIZE * a.base.n + a.offset, front).Some? {
      var st1 := x.st.(disk := Stores(x.st.disk, BLOCK_SIZE * a.base.n + a.offset, front).value);
      assert PutBytes(st1, i, 0, []) == (st1, 0) by { NoBytes(st1, i); }
      SizeStays(st1, i);
      assert WriteFile(st1, i, 0, s[-p..], true) == (SetSize(PutBytes(st1, i, 0, s[-p..]).0, i,
          Max(PutBytes(st1, i, 0, s[-p..]).0.inodes[i].size, PutBytes(st1, i, 0, s[-p..]).1)), PutBytes(st1, i, 0, s[-p..]).1);
    }
  }

  lemma NoBytes(st: State, i: nat)
    requires i < INODES
    ensures PutBytes(st, i, 0, []) == (st, 0)
  {
  }

  /** rd_lseek clips a position only from above; rd_close does not look before it follows the list. */
  function ServeAsWritten(x: Session, req: Request): (r: Reply)
    requires x.fds != []
    ensures r.Served? ==> r.x.fds != []
  {
    match req
    case Close(k) => if Lists.CloseCrashes(k, |x.fds|) then Crash else Served(Serve(x, req))
    case Seek(k, position) =>
      if !Names(x, k) then Served(x)
      else
        var size := x.st.inodes[x.fds[Slot(k)].inode].size;
        Served(MoveTo(x, Slot(k), if size < position then size else position))
    case Put(k, s) =>
      if Names(x, k) && x.fds[Slot(k)].position < 0 && !x.st.inodes[x.fds[Slot(k)].inode].kind.Dir? then
        NegativePut(x, Slot(k), s)
      else Served(Serve(x, req))
    case _ => Served(Serve(x, req))
  }

  /** A sequence of calls; it ends with a call that does not end in a session. */
  function RunAsWritten(x: Session, reqs: seq<Request>): Reply
    requires x.fds != []
    decreases |reqs|
  {
    if reqs == [] then Served(x)
    else
      match ServeAsWritten(x, reqs[0])
      case Served(y) => RunAsWritten(y, reqs[1..])
      case r => r
  }

  /** A table of a session, as the linked list holds it. */
  function ObjectsOf(fds: seq<Desc>): (vs: seq<Lists.Opened>)
    ensures |vs| == |fds| && forall k :: 0 <= k < |fds| ==> vs[k] == Lists.Opened(fds[k].inode, fds[k].position)
  {
    seq(|fds|, k requires 0 <= k < |fds| => Lists.Opened(fds[k].inode, fds[k].position))
  }

  function Parents(st: State): (ps: seq<int>)
    ensures |ps| == INODES && forall i :: 0 <= i < INODES ==> ps[i] == st.inodes[i].parent
  {
    seq(INODES, i requires 0 <= i < INODES => st.inodes[i].parent)
  }

  function Sizes(st: State): (ns: seq<int>)
    ensures |ns| == INODES && forall i :: 0 <= i < INODES ==> ns[i] == st.inodes[i].size
  {
    seq(INODES, i requires 0 <= i < INODES => st.inodes[i].size)
  }

  /** The table that create_FDT makes is that of the first session. */
  lemma FirstTable(pid: int)
    ensures ObjectsOf(FirstSession().fds) == Lists.Created(pid).objects == [Lists.Opened(0, 0)]
  {
    assert ObjectsOf([Desc(0, 0)]) == [Lists.Opened(0, 0)];
  }

  /** The calls of a session do to its table what the methods on the linked list are proved to do. */
  lemma {:induction false} CloseOnList(x: Session, fd: int, e: Lists.Entry)
    requires SessionInv(x) && e.objects == ObjectsOf(x.fds) && e.path != []
    ensures x.fds != [] && x.fds[0].inode < INODES
    ensures var r := ServeAsWritten(x, Close(fd));
            && (r.Crash? <==> Lists.CloseCrashes(fd, |e.objects|))
            && (!r.Crash? ==> r.Served? && r.x.st == x.st && ObjectsOf(r.x.fds) == Lists.Closed(e, fd, Parents(x.st)).objects)
  {
    hide SessionInv, ServeAsWritten, Lists.LastSlash;
    ParentInTable(x);
    CloseServes(x, fd);
    var r := ServeAsWritten(x, Close(fd));
    if r.Served? { assert ObjectsOf(r.x.fds) == Lists.Closed(e, fd, Parents(x.st)).objects; }
  }

  lemma SeekServes(x: Session, fd: int, position: int)
    requires x.fds != []
    ensures ServeAsWritten(x, Seek(fd, position))
            == Served(if !Names(x, fd) then x else MoveTo(x, Slot(fd), Min(position, x.st.inodes[x.fds[Slot(fd)].inode].size)))
  {
    hide NegativePut, PutAt, Step, Resolve, IsExist, OpenAt, Up;
  }

  lemma CloseServes(x: Session, fd: int)
    requires x.fds != []
    ensures ServeAsWritten(x, Close(fd))
            == if Lists.CloseCrashes(fd, |x.fds|) then Crash
               else Served(if fd == 0 then Up(x) else if fd >= |x.fds| then x else x.(fds := x.fds[..fd] + x.fds[fd + 1..]))
  {
    hide NegativePut, PutAt, Step, Resolve, IsExist, OpenAt, Up;
  }

  lemma {:induction false} SeekOnList(x: Session, fd: int, position: int, e: Lists.Entry)
    requires SessionInv(x) && e.objects == ObjectsOf(x.fds)
    ensures x.fds != []
    ensures var r, k := ServeAsWritten(x, Seek(fd, position)), Lists.Named(|e.objects|, fd);
            && r.Served? && r.x.st == x.st
            && (if k < 0 then r.x == x
                else
                  && e.objects[k].inode < INODES
                  && var v := e.objects[k];
                     ObjectsOf(r.x.fds) == e.objects[k := v.(position := Min(position, Sizes(x.st)[v.inode]))])
  {
    hide Consistent, ServeAsWritten;
    NonEmpty(x);
    SeekServes(x, fd, position);
    var r, k := ServeAsWritten(x, Seek(fd, position)), Lists.Named(|e.objects|, fd);
    if k > 0 { assert InFile(x.st, x.fds[k]); }
    if k >= 0 {
      var v := e.objects[k];
      assert ObjectsOf(r.x.fds) == e.objects[k := v.(position := Min(position, Sizes(x.st)[v.inode]))];
    }
  }

  lemma ParentInTable(x: Session)
    requires SessionInv(x)
    ensures x.fds != [] && x.fds[0].inode < INODES
    ensures x.fds[0].inode != 0 ==> x.st.inodes[x.fds[0].inode].parent >= 0
  {
    hide FsInv, InodeInv;
    var owner, slot, depth :| Inv(x.st, owner, slot, depth);
    var i := x.fds[0].inode;
    if i != 0 { assert NamedInv(x.st, i, slot, depth); }
  }

  /** The session after every call is as it should be, until a call crashes. */
  ghost predicate KeptAsWritten(x: Session, reqs: seq<Request>)
    decreases |reqs|
  {
    SessionInv(x) && (reqs == [] ||
                      match ServeAsWritten(x, reqs[0])
                      case Crash => true
                      case Lost => false
                      case Served(y) => KeptAsWritten(y, reqs[1..]))
  }

  /** A seek to a negative position on an open file. */
  predicate BadSeek(x: Session, req: Request) {
    req.Seek? && 1 <= req.k < |x.fds| && req.position < 0
  }

  /** No call is a bad seek, until a call crashes. */
  predicate NoBadSeek(x: Session, reqs: seq<Request>)
    requires x.fds != []
    decreases |reqs|
  {
    reqs == [] || (!BadSeek(x, reqs[0]) &&
                   match ServeAsWritten(x, reqs[0])
                   case Served(y) => NoBadSeek(y, reqs[1..])
                   case _ => true)
  }

  /** A call that is no bad seek crashes or does what it should; a bad one leaves its file. */
  lemma OneCall(x: Session, req: Request)
    requires SessionInv(x)
    ensures !BadSeek(x, req) ==> var r := ServeAsWritten(x, req); r.Crash? || (r.Served? && SessionInv(r.x))
    ensures BadSeek(x, req) ==> var r := ServeAsWritten(x, req); r.Served? && !SessionInv(r.x)
  {
    hide Consistent;
    if req.Seek? {
      if BadSeek(x, req) {
        assert InFile(x.st, x.fds[req.k]);
        assert !InFile(x.st, ServeAsWritten(x, req).x.fds[req.k]);
      }
    } else {
      hide Serve;
      ServeKeeps(x, req);
      if req.Put? && 1 <= req.k < |x.fds| { assert InFile(x.st, x.fds[req.k]); }
    }
  }

  /**
   * Over every sequence of one process's calls as written, the invariant of sessions is kept if and only
   * if no call seeks to a negative position on an open file.
   */
  lemma {:induction false} KeptIffNoBadSeek(x: Session, reqs: seq<Request>)
    requires SessionInv(x)
    ensures x.fds != [] && (KeptAsWritten(x, reqs) <==> NoBadSeek(x, reqs))
    decreases |reqs|
  {
    NonEmpty(x);
    hide SessionInv, ServeAsWritten, BadSeek;
    if reqs != [] {
      OneCall(x, reqs[0]);
      var r := ServeAsWritten(x, reqs[0]);
      if BadSeek(x, reqs[0]) {
        assert !KeptAsWritten(r.x, reqs[1..]);
      } else if r.Served? {
        KeptIffNoBadSeek(r.x, reqs[1..]);
      }
    }
  }

  /** Numbers and positions that the designed interface treats alike. */
  predicate Proper(x: Session, req: Request) {
    match req
    case Close(k) => !Lists.CloseCrashes(k, |x.fds|)
    case Seek(k, position) => position >= 0 || !Names(x, k)
    case _ => true
  }

  /** A call as written is the designed one exactly on these. */
  lemma ProperIsDesigned(x: Session, req: Request)
    requires SessionInv(x)
    ensures x.fds != [] && (ServeAsWritten(x, req) == Served(Serve(x, req)) <==> Proper(x, req))
  {
    hide Consistent, WriteFile, Resolve, IsExist, Step;
    NonEmpty(x);
    if req.Put? {
      if 1 <= req.k < |x.fds| { assert InFile(x.st, x.fds[req.k]); }
    }
    if req.Seek? && Names(x, req.k) && req.position < 0 {
      assert ServeAsWritten(x, req).x.fds[Slot(req.k)].position != Serve(x, req).fds[Slot(req.k)].position;
    }
  }

  /** Every call of a designed run is one of them. */
  predicate AllProper(x: Session, reqs: seq<Request>)
    requires x.fds != []
    decreases |reqs|
  {
    reqs == [] || (Proper(x, reqs[0]) && AllProper(Serve(x, reqs[0]), reqs[1..]))
  }

  /** A run in which they all are is the designed run, call by call and to its end. */
  lemma {:induction false} ProperRunIsDesigned(x: Session, reqs: seq<Request>)
    requires SessionInv(x)
    ensures x.fds != [] && (AllProper(x, reqs) ==> RunAsWritten(x, reqs) == Served(RunAll(x, reqs)))
    decreases |reqs|
  {
    hide SessionInv, ServeAsWritten, Serve, Proper;
    NonEmpty(x);
    if reqs != [] {
      ProperIsDesigned(x, reqs[0]);
      ServeKeeps(x, reqs[0]);
      ProperRunIsDesigned(Serve(x, reqs[0]), reqs[1..]);
    }
  }

  // ----- isOpen -----

  /** The disk and the tables of several processes, that of FDT_list_head first. */
  datatype World = World(st: State, tables: seq<seq<Desc>>)

  predicate Peopled(w: World) {
    |w.tables| > 0 && forall j :: 0 <= j < |w.tables| ==> w.tables[j] != []
  }

  /** A call by process j: isOpen as written looks at the first table, whoever calls. */
  function Called(w: World, j: nat, req: Request): (w1: World)
    requires Peopled(w) && j < |w.tables|
    ensures Peopled(w1) && |w1.tables| == |w.tables|
  {
    var y := ServeWith(Session(w.st, w.tables[j]), req, OpenSet(w.tables[0]));
    World(y.st, w.tables[j := y.fds])
  }

  /** What unlink comes to before it asks isOpen: an inode that may go unless it is open. */
  function Target(x: Session, atRoot: bool, comps: seq<Name>, name: Name): Option<nat>
    requires x.fds != []
  {
    match Resolve(x.st, From(x, atRoot), comps)
    case None => None
    case Some(d) =>
      match IsExist(x.st, d, name)
      case None => None
      case Some(i) => if i >= INODES || (x.st.inodes[i].kind.Dir? && x.st.inodes[i].size > 0) then None else Some(i)
  }

  /** Asked about another table, rd_unlink does what it should exactly when it has nothing to ask, or when
      the inode is open in both tables or in neither. */
  lemma UnlinkRightIff(x: Session, open: set<nat>, atRoot: bool, comps: seq<Name>, name: Name)
    requires SessionInv(x)
    ensures var t, req := Target(x, atRoot, comps, name), Remove(atRoot, comps, name);
            ServeWith(x, req, open) == Serve(x, req) <==> t.None? || (t.value in open <==> t.value in OpenSet(x.fds))
  {
    hide Consistent, FreeInode;
    var t := Target(x, atRoot, comps, name);
    if t.Some? {
      FoundIsLive(x.st, Resolve(x.st, From(x, atRoot), comps).value, name, t.value);
      FreedIsNotLive(x.st, name, t.value);
    }
  }

  lemma FreedIsNotLive(st: State, name: Name, i: nat)
    requires i < INODES
    ensures !FreeInode(st, name, i).inodes[i].Live()
  {
    hide FreeBlock, RemoveEntry;
  }

  /** What rd_open comes to before it asks isOpen. */
  function Candidate(x: Session, atRoot: bool, comps: seq<Name>, name: Name): Option<nat>
    requires x.fds != []
  {
    match Resolve(x.st, From(x, atRoot), comps)
    case None => None
    case Some(d) => IsExist(x.st, d, name)
  }

  /** And so does rd_open; only the current directory may also be opened again when nothing else is open. */
  lemma OpenRightIff(x: Session, open: set<nat>, atRoot: bool, comps: seq<Name>, name: Name)
    requires SessionInv(x)
    ensures x.fds != []
    ensures var t, req := Candidate(x, atRoot, comps, name), Request.Open(atRoot, comps, name);
            ServeWith(x, req, open) == Serve(x, req)
            <==> t.None? || (t.value in open <==> t.value in OpenSet(x.fds)) || x.fds == [Desc(t.value, 0)]
  {
    SessionConsistent(x);
    hide Consistent, SessionInv, ServeWith, IsExist, Resolve;
    OpenServes(x, open, atRoot, comps, name);
    OpenServes(x, OpenSet(x.fds), atRoot, comps, name);
    var t := Candidate(x, atRoot, comps, name);
    if t.Some? {
      var d := Resolve(x.st, From(x, atRoot), comps).value;
      FoundIsLive(x.st, d, name, t.value) by { ResolvedIsDir(x.st, From(x, atRoot), comps); }
      OpenDiffers(x, t.value);
    }
  }

  lemma OpenServes(x: Session, open: set<nat>, atRoot: bool, comps: seq<Name>, name: Name)
    requires x.fds != []
    ensures ServeWith(x, Request.Open(atRoot, comps, name), open)
            == match Candidate(x, atRoot, comps, name)
               case None => x
               case Some(i) => OpenAt(x, i, open)
  {
    hide PutAt, Step, Resolve, IsExist, OpenAt;
  }

  lemma ResolvedIsDir(st: State, d: nat, comps: seq<Name>)
    requires Resolve(st, d, comps).Some?
    ensures IsDir(st, Resolve(st, d, comps).value)
  {
  }

  lemma SessionConsistent(x: Session)
    requires SessionInv(x)
    ensures Consistent(x.st) && x.fds != [] && IsDir(x.st, x.fds[0].inode)
  {
  }

  /** A new descriptor changes the table, unless it is that of a directory alone in it. */
  lemma OpenDiffers(x: Session, i: nat)
    requires i < INODES && x.fds != [] && IsDir(x.st, x.fds[0].inode)
    ensures var fds := if x.st.inodes[i].kind.Dir? then [Desc(i, 0)] else x.fds + [Desc(i, 0)];
            fds == x.fds <==> x.fds == [Desc(i, 0)]
  {
    assert |x.fds + [Desc(i, 0)]| == |x.fds| + 1;
  }

  /** A call after which the first table is still as it should be: all its own, and of others all but writes
      through a descriptor whose file is gone. A write that is refused anyway does no harm either. */
  predicate Harmless(w: World, j: nat, req: Request)
    requires j < |w.tables|
  {
    j == 0 || !req.Put? || (
      var x := Session(w.st, w.tables[j]);
      !Names(x, req.k) || x.fds[Slot(req.k)].position < 0
      || w.st.inodes[x.fds[Slot(req.k)].inode].kind.Dir? || InFile(w.st, x.fds[Slot(req.k)]))
  }

  lemma HeadKept(w: World, j: nat, req: Request)
    requires Peopled(w) && j < |w.tables| && Harmless(w, j, req) && SessionInv(Session(w.st, w.tables[0]))
    ensures var w1 := Called(w, j, req); SessionInv(Session(w1.st, w1.tables[0]))
  {
    hide Consistent, CreateIn, UnlinkIn, Resolve, IsExist, WriteFile;
    var head := Session(w.st, w.tables[0]);
    if j == 0 {
      ServeKeeps(head, req);
    } else {
      var x := Session(w.st, w.tables[j]);
      match req
      case Make(atRoot, comps, name, isDir, mode, pad) =>
        var d := Resolve(x.st, From(x, atRoot), comps);
        if d.Some? && x.st.freeBlocks >= 1 && x.st.freeInodes >= 1 { MakeKeeps(head, d.value, name, isDir, mode, pad); }
      case Remove(atRoot, comps, name) =>
        var d := Resolve(x.st, From(x, atRoot), comps);
        if d.Some? { RemoveKeeps(head, d.value, name); }
      case Put(k, s) => OtherPut(w, j, k, s);
      case _ =>
    }
  }

  /** A write of another process into one of its files changes no number, kind or parent, and no file gets shorter. */
  lemma OtherPut(w: World, j: nat, k: int, s: seq<Byte>)
    requires Peopled(w) && 0 < j < |w.tables| && Harmless(w, j, Put(k, s)) && SessionInv(Session(w.st, w.tables[0]))
    ensures var w1 := Called(w, j, Put(k, s)); SessionInv(Session(w1.st, w1.tables[0]))
  {
    hide Inv, WriteFile, Content, List;
    var head, x := Session(w.st, w.tables[0]), Session(w.st, w.tables[j]);
    if Names(x, k) && InFile(w.st, x.fds[Slot(k)]) {
      var f := x.fds[Slot(k)];
      var owner, slot, depth :| Inv(w.st, owner, slot, depth);
      WriteStepExact(w.st, owner, slot, depth, f.inode, f.position, s);
      var (st1, v) := WriteFile(w.st, f.inode, f.position, s, true);
      if v != -1 {
        SpliceSize(Content(w.st, f.inode), f.position, s[..v]);
        assert |Content(st1, f.inode)| == st1.inodes[f.inode].size;
        FrameKeeps(head, st1);
      }
    } else if Names(x, k) && w.st.inodes[x.fds[Slot(k)].inode].kind.Dir? && x.fds[Slot(k)].position >= 0 {
      DirectoryRefuses(w.st, x.fds[Slot(k)].inode, x.fds[Slot(k)].position, s);
    }
  }

  lemma DirectoryRefuses(st: State, i: nat, p: nat, s: seq<Byte>)
    requires i < INODES && st.inodes[i].kind.Dir?
    ensures WriteFile(st, i, p, s, true) == (st, -1)
  {
  }

  function CalledAll(w: World, calls: seq<(nat, Request)>): (w1: World)
    requires Peopled(w) && forall c :: c in calls ==> c.0 < |w.tables|
    ensures Peopled(w1) && |w1.tables| == |w.tables|
    decreases |calls|
  {
    if calls == [] then w else CalledAll(Called(w, calls[0].0, calls[0].1), calls[1..])
  }

  /** Every call is harmless where it is made. */
  predicate AllHarmless(w: World, calls: seq<(nat, Request)>)
    requires Peopled(w) && forall c :: c in calls ==> c.0 < |w.tables|
    decreases |calls|
  {
    calls == [] || (Harmless(w, calls[0].0, calls[0].1) && AllHarmless(Called(w, calls[0].0, calls[0].1), calls[1..]))
  }

  /**
   * The process that owns the first table is safe with isOpen as written: its current directory and its
   * open files stay, whatever it calls and whatever other processes create, unlink, open, close or seek, and whatever
   * they write to files that they still have.
   */
  lemma {:induction false} HeadStaysInside(w: World, calls: seq<(nat, Request)>)
    requires Peopled(w) && (forall c :: c in calls ==> c.0 < |w.tables|) && AllHarmless(w, calls)
    requires SessionInv(Session(w.st, w.tables[0]))
    ensures var w1 := CalledAll(w, calls); w1.tables != [] && SessionInv(Session(w1.st, w1.tables[0]))
    decreases |calls|
  {
    hide SessionInv, Called, Harmless;
    if calls != [] {
      assert calls[0] in calls;
      HeadKept(w, calls[0].0, calls[0].1);
      HeadStaysInside(Called(w, calls[0].0, calls[0].1), calls[1..]);
    }
  }
}
