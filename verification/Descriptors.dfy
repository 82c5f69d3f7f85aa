/** The list of per-process descriptor tables, and the copy of a parent's table for a new process. */
module Descriptors {

  /** What a file object holds, and what a table holds. */
  datatype Opened = Opened(inode: int, position: int)

  datatype Entry = Entry(pid: int, path: string, objects: seq<Opened>)

  /** create_FDT: the root directory, opened at its start. */
  function Created(pid: int): Entry {
    Entry(pid, "/", [Opened(0, 0)])
  }

  predicate HasPid(es: seq<Entry>, pid: int) {
    exists i :: 0 <= i < |es| && es[i].pid == pid
  }

  /** The list after get_FDT: a process that has a table keeps it, another gets its parent's copied or a new one. */
  ghost predicate Got(es: seq<Entry>, after: seq<Entry>, cpid: int, ppid: int) {
    && (HasPid(es, cpid) ==> after == es)
    && (!HasPid(es, cpid) && !HasPid(es, ppid) ==> after == es + [Created(cpid)])
    && (!HasPid(es, cpid) && HasPid(es, ppid) ==>
          exists p :: 0 <= p < |es| && es[p].pid == ppid && after == es + [es[p].(pid := cpid)])
  }

  ghost predicate Distinct(es: seq<Entry>) {
    forall i, j :: 0 <= i < j < |es| ==> es[i].pid != es[j].pid
  }

  /** A call keeps pids distinct, changes no table that is there, and leaves the caller with one: a new one holds its
      parent's path and open files, or just the root directory at its start. */
  lemma GotKeepsDistinct(es: seq<Entry>, after: seq<Entry>, cpid: int, ppid: int)
    requires Distinct(es) && Got(es, after, cpid, ppid)
    ensures Distinct(after) && es <= after && HasPid(after, cpid)
    ensures forall pid :: HasPid(after, pid) <==> HasPid(es, pid) || pid == cpid
    ensures !HasPid(es, cpid) ==> |after| == |es| + 1 && after[|es|].pid == cpid
    ensures !HasPid(es, cpid) && !HasPid(es, ppid) ==> after[|es|].path == "/" && after[|es|].objects == [Opened(0, 0)]
    ensures !HasPid(es, cpid) ==> forall p :: 0 <= p < |es| && es[p].pid == ppid ==>
              after[|es|].path == es[p].path && after[|es|].objects == es[p].objects
  {
    if !HasPid(es, cpid) {
      assert after[|es|].pid == cpid;
      forall pid | HasPid(es, pid)
        ensures HasPid(after, pid)
      {
        var i :| 0 <= i < |es| && es[i].pid == pid;
        assert after[i].pid == pid;
      }
    }
  }

  /** With distinct pids a call has one outcome. */
  lemma GotUnique(es: seq<Entry>, a: seq<Entry>, b: seq<Entry>, cpid: int, ppid: int)
    requires Distinct(es) && Got(es, a, cpid, ppid) && Got(es, b, cpid, ppid)
    ensures a == b
  {
    if !HasPid(es, cpid) && HasPid(es, ppid) {
      var p :| 0 <= p < |es| && es[p].pid == ppid && a == es + [es[p].(pid := cpid)];
      var q :| 0 <= q < |es| && es[q].pid == ppid && b == es + [es[q].(pid := cpid)];
    }
  }

  /** rd_close follows a NULL pointer: the one kept in `fomer` for a negative number, or the one that ends the list. */
  predicate CloseCrashes(fd: int, count: nat) {
    fd < 0 || fd == count
  }

  /** What an interface call comes to. */
  datatype Outcome = Crash | Code(r: int)

  /** The place of the last slash before i, but not of one that starts the path. */
  function LastSlash(path: string, i: nat): (k: nat)
    requires i <= |path|
    ensures k <= i && (forall j :: k < j < i ==> path[j] != '/') && (k > 0 ==> k < |path| && path[k] == '/')
  {
    if i == 0 then 0 else if i < |path| && path[i] == '/' then i else LastSlash(path, i - 1)
  }

  /** No slash comes behind k, where there is one unless the path starts there. */
  predicate SlashAt(path: string, k: nat) {
    k < |path| && (k == 0 || path[k] == '/') && forall j :: k < j < |path| ==> path[j] != '/'
  }

  /** The path up to and including its last slash. */
  ghost predicate CutAtSlash(path: string, cut: string) {
    exists k: nat :: SlashAt(path, k) && cut == path[..k + 1]
  }

  lemma CutThere(path: string)
    requires path != []
    ensures LastSlash(path, |path|) < |path| && CutAtSlash(path, path[..LastSlash(path, |path|) + 1])
  {
    assert SlashAt(path, LastSlash(path, |path|));
  }

  /** The table after rd_close(fd), when that does not crash: the current directory becomes its parent, a file
      object is taken out of the list, or nothing is there to close. */
  function Closed(e: Entry, fd: int, parents: seq<int>): Entry
    requires e.path != [] && e.objects != [] && 0 <= e.objects[0].inode < |parents|
  {
    if fd == 0 && e.objects[0].inode != 0 then
      Entry(e.pid, e.path[..LastSlash(e.path, |e.path|) + 1], e.objects[0 := Opened(parents[e.objects[0].inode], 0)])
    else if 0 < fd < |e.objects| then e.(objects := e.objects[..fd] + e.objects[fd + 1..])
    else e
  }

  /** The file object that a call comes to for descriptor fd: none for 0 and past the end, the first for a
      negative number. */
  function Named(count: nat, fd: int): int {
    if fd == 0 || fd >= count then -1 else if fd < 0 then 0 else fd
  }

  class FileObject {
    var inodeIndex: int
    var position: int
    var next: FileObject?

    constructor (inodeIndex: int, position: int)
      ensures this.inodeIndex == inodeIndex && this.position == position && next == null
    {
      this.inodeIndex, this.position, next := inodeIndex, position, null;
    }

    /** The structure assignment, link included. */
    method Assign(from: FileObject)
      modifies this
      ensures inodeIndex == from.inodeIndex && position == from.position && next == from.next
    {
      inodeIndex, position, next := from.inodeIndex, from.position, from.next;
    }
  }

  /** The nodes of a null-terminated list, with the values they hold. */
  ghost predicate Chain(nodes: seq<FileObject>, vs: seq<Opened>)
    reads nodes
  {
    && |nodes| == |vs| > 0
    && (forall i :: 0 <= i < |nodes| ==> nodes[i].inodeIndex == vs[i].inode && nodes[i].position == vs[i].position)
    && (forall i :: 0 <= i < |nodes| - 1 ==> nodes[i].next == nodes[i + 1])
    && nodes[|nodes| - 1].next == null
  }

  lemma NextInChain(nodes: seq<FileObject>, vs: seq<Opened>, i: nat)
    requires Chain(nodes, vs) && i < |nodes|
    ensures nodes[i].next == if i == |nodes| - 1 then null else nodes[i + 1]
  {
  }

  lemma ChainLength(nodes: seq<FileObject>, vs: seq<Opened>)
    requires Chain(nodes, vs)
    ensures |nodes| == |vs| > 0
  {
  }

  /** A null-terminated list has no node twice. */
  lemma {:induction false} ChainApart(nodes: seq<FileObject>, vs: seq<Opened>, i: nat, j: nat)
    requires Chain(nodes, vs) && i < j < |nodes|
    ensures nodes[i] != nodes[j]
    decreases |nodes| - j
  {
    NextInChain(nodes, vs, i);
    NextInChain(nodes, vs, j);
    if j < |nodes| - 1 { ChainApart(nodes, vs, i + 1, j + 1); }
  }

  lemma AllApart(nodes: seq<FileObject>, vs: seq<Opened>)
    requires Chain(nodes, vs)
    ensures forall i, j :: 0 <= i < j < |nodes| ==> nodes[i] != nodes[j]
  {
    forall i, j | 0 <= i < j < |nodes| ensures nodes[i] != nodes[j] { ChainApart(nodes, vs, i, j); }
  }

  class FDT {
    var pid: int
    var curPath: string
    var head: FileObject
    var next: FDT?
    ghost var nodes: seq<FileObject>

    constructor (pid: int, curPath: string, head: FileObject, ghost nodes: seq<FileObject>)
      ensures this.pid == pid && this.curPath == curPath && this.head == head && this.nodes == nodes && next == null
    {
      this.pid, this.curPath, this.head, this.nodes, next := pid, curPath, head, nodes, null;
    }

    ghost predicate Holds(e: Entry)
      reads `pid, `curPath, `head, `nodes, nodes
    {
      pid == e.pid && curPath == e.path && Chain(nodes, e.objects) && head == nodes[0]
    }

    /** rd_close(0) as written: up to the parent, and the path cut behind its last slash. */
    method CloseFirst(parents: seq<int>, ghost e: Entry) returns (r: Outcome)
      requires Holds(e) && e.path != [] && 0 <= e.objects[0].inode < |parents|
      modifies `curPath, head
      ensures Holds(Closed(e, 0, parents)) && r == Code(if e.objects[0].inode == 0 then -1 else 0)
      ensures e.objects[0].inode != 0 ==>
                head.inodeIndex == parents[e.objects[0].inode] && head.position == 0 && CutAtSlash(e.path, curPath)
    {
      if head.inodeIndex == 0 {
        return Code(-1);
      }
      AllApart(nodes, e.objects);
      head.inodeIndex := parents[head.inodeIndex];
      head.position := 0;
      var i := |curPath|;
      while i > 0 && (i == |curPath| || curPath[i] != '/')
        invariant 0 <= i <= |curPath| && LastSlash(curPath, i) == LastSlash(curPath, |curPath|)
      {
        i := i - 1;
      }
      curPath := curPath[..i + 1];
      CutThere(e.path);
      r := Code(0);
    }

    /** The walk that rd_read, rd_write and rd_lseek begin with. */
    method Find(fd: int, ghost e: Entry) returns (o: FileObject?)
      requires Holds(e)
      ensures o == if fd == 0 || fd >= |nodes| then null else nodes[if fd < 0 then 0 else fd]
      ensures |nodes| == |e.objects|
    {
      if fd == 0 {
        return null;
      }
      o := head;
      var i := 0;
      while i < fd
        invariant 0 <= i <= |nodes| && (i <= fd || i == 0) && o == if i == |nodes| then null else nodes[i]
      {
        if o == null {
          return;
        }
        NextInChain(nodes, e.objects, i);
        o := o.next;
        i := i + 1;
      }
    }

    /** rd_lseek as written; `sizes` are the sizes of the inodes' files. */
    method Seek(fd: int, position: int, sizes: seq<int>, ghost e: Entry) returns (r: int)
      requires Holds(e) && forall k :: 0 <= k < |e.objects| ==> 0 <= e.objects[k].inode < |sizes|
      modifies nodes
      ensures if fd == 0 || fd >= |e.objects| then r == -1 && Holds(e)
              else
                var k := if fd < 0 then 0 else fd;
                var v := e.objects[k];
                var to := if sizes[v.inode] < position then sizes[v.inode] else position;
                r == 0 && Holds(e.(objects := e.objects[k := Opened(v.inode, to)]))
    {
      var o := Find(fd, e);
      if o == null {
        return -1;
      }
      AllApart(nodes, e.objects);
      var size := sizes[o.inodeIndex];
      o.position := if size < position then size else position;
      r := 0;
    }

    /** rd_close as written, on the list of file objects; `parents` are the inodes' parent_index fields. */
    method Close(fd: int, parents: seq<int>, ghost e: Entry) returns (r: Outcome)
      requires Holds(e) && e.path != [] && 0 <= e.objects[0].inode < |parents|
      modifies this, nodes
      ensures r == Crash <==> CloseCrashes(fd, |e.objects|)
      ensures r == Crash <==> fd < 0 || fd == |e.objects|
      ensures r == Crash ==> Holds(e)
      ensures r != Crash ==> Holds(Closed(e, fd, parents))
      ensures r != Crash ==> (r == Code(0) <==> 0 < fd < |e.objects| || (fd == 0 && e.objects[0].inode != 0))
      ensures r != Crash && r != Code(0) ==> r == Code(-1)
      ensures fd == 0 && e.objects[0].inode != 0 ==>
                && head == old(head) && head.inodeIndex == parents[e.objects[0].inode] && head.position == 0
                && CutAtSlash(e.path, curPath)
      ensures 0 < fd < |e.objects| ==> Holds(e.(objects := e.objects[..fd] + e.objects[fd + 1..]))
      ensures r == Code(-1) ==> Holds(e)
      ensures nodes == if 0 < fd < |e.objects| then old(nodes[..fd] + nodes[fd + 1..]) else old(nodes)
    {
      hide Chain;
      assert |nodes| == |e.objects| > 0 by { ChainLength(nodes, e.objects); }
      if fd == 0 {
        r := CloseFirst(parents, e);
        return;
      }
      var cursor: FileObject?, former: FileObject?, i := head, null, 0;
      while i < fd
        invariant Holds(e) && nodes == old(nodes) && 0 <= i <= |nodes| && (i <= fd || i == 0)
        invariant cursor == if i == |nodes| then null else nodes[i]
        invariant former == if i == 0 then null else nodes[i - 1]
        invariant forall o :: o in nodes ==> unchanged(o)
      {
        if cursor == null {
          return Code(-1);
        }
        NextInChain(nodes, e.objects, i);
        former := cursor;
        cursor := cursor.next;
        i := i + 1;
      }
      if former == null || cursor == null {
        return Crash;
      }
      TakeOut(former, cursor, fd, e);
      r := Code(0);
    }

    /** The list without its file object number k, which comes after `former`. */
    method TakeOut(former: FileObject, cursor: FileObject, ghost k: nat, ghost e: Entry)
      requires Holds(e) && 0 < k < |nodes| && former == nodes[k - 1] && cursor == nodes[k]
      modifies `nodes, former
      ensures Holds(e.(objects := e.objects[..k] + e.objects[k + 1..])) && nodes == old(nodes[..k] + nodes[k + 1..])
    {
      AllApart(nodes, e.objects);
      NextInChain(nodes, e.objects, k);
      former.next := cursor.next;
      nodes := nodes[..k] + nodes[k + 1..];
    }
  }

  /** Copies a list of file objects node by node. */
  method CopyList(head: FileObject, ghost nodes: seq<FileObject>, ghost vs: seq<Opened>)
    returns (copy: FileObject, ghost copies: seq<FileObject>)
    requires Chain(nodes, vs) && head == nodes[0]
    ensures Chain(copies, vs) && copy == copies[0]
    ensures forall i :: 0 <= i < |copies| ==> fresh(copies[i])
  {
    copy := new FileObject(0, 0);
    copies := [copy];
    var p, last := head, copy;
    while p.next != null
      invariant Chain(nodes, vs)
      invariant 1 <= |copies| <= |nodes| && p == nodes[|copies| - 1] && last == copies[|copies| - 1] && copy == copies[0]
      invariant forall i :: 0 <= i < |copies| ==> fresh(copies[i])
      invariant forall i, j :: 0 <= i < j < |copies| ==> copies[i] != copies[j]
      invariant forall i :: 0 <= i < |copies| - 1 ==>
                  copies[i].inodeIndex == vs[i].inode && copies[i].position == vs[i].position
      invariant forall i :: 0 <= i < |copies| - 1 ==> copies[i].next == copies[i + 1]
      decreases |nodes| - |copies|
    {
      last.Assign(p);
      var n := new FileObject(0, 0);
      last.next := n;
      last := n;
      copies := copies + [n];
      p := p.next;
    }
    NextInChain(nodes, vs, |copies| - 1);
    last.Assign(p);
    last.next := null;
  }

  ghost predicate Apart(s: seq<FileObject>, t: seq<FileObject>) {
    forall o :: o in s ==> o !in t
  }

  /** The list of tables, from FDT_list_head. */
  class Tables {
    var head: FDT?
    ghost var tables: seq<FDT>
    ghost var entries: seq<Entry>

    ghost var repr: set<FileObject>

    /** The tables in list order, no table twice. */
    ghost predicate Linked()
      reads this, tables
    {
      && (head == if tables == [] then null else tables[0])
      && (forall i :: 0 <= i < |tables| - 1 ==> tables[i].next == tables[i + 1])
      && (tables != [] ==> tables[|tables| - 1].next == null)
      && (forall i, j :: 0 <= i < j < |tables| ==> tables[i] != tables[j])
    }

    /** No file object belongs to two tables. */
    ghost predicate Unshared()
      reads this, tables`nodes
    {
      && (forall i :: 0 <= i < |tables| ==> forall o :: o in tables[i].nodes ==> o in repr)
      && (forall i, j :: 0 <= i < j < |tables| ==> Apart(tables[i].nodes, tables[j].nodes))
    }

    ghost predicate Valid()
      reads this, tables, repr
    {
      && |tables| == |entries| && Linked() && Unshared()
      && (forall i :: 0 <= i < |tables| ==> tables[i].Holds(entries[i]))
    }

    constructor ()
      ensures Valid() && entries == []
    {
      head, tables, entries, repr := null, [], [], {};
    }

    method CreateFDT(pid: int) returns (t: FDT)
      ensures fresh(t) && t.next == null && t.Holds(Created(pid))
      ensures t.pid == pid && t.curPath == "/"
      ensures t.nodes == [t.head] && t.head.inodeIndex == 0 && t.head.position == 0 && t.head.next == null
      ensures forall i :: 0 <= i < |t.nodes| ==> fresh(t.nodes[i])
    {
      var fo := new FileObject(0, 0);
      t := new FDT(pid, "/", fo, [fo]);
    }

    /** The walk along the list: the process's own table, or the last one and the parent's. */
    method Walk(cpid: int, ppid: int) returns (c: FDT?, l: FDT?, p: FDT?, ghost n: nat, ghost q: nat)
      requires Valid()
      ensures n <= |tables| && c == (if n == |tables| then null else tables[n])
      ensures c != null ==> entries[n].pid == cpid
      ensures c == null ==> !HasPid(entries, cpid) && l == if tables == [] then null else tables[|tables| - 1]
      ensures c == null && p == null ==> !HasPid(entries, ppid)
      ensures p != null ==> q < |tables| && p == tables[q] && entries[q].pid == ppid
    {
      hide Chain, Apart;
      c, l, p, n, q := head, null, null, 0, 0;
      while c != null && c.pid != cpid
        invariant n <= |tables|
        invariant c == if n == |tables| then null else tables[n]
        invariant l == if n == 0 then null else tables[n - 1]
        invariant forall i :: 0 <= i < n ==> entries[i].pid != cpid
        invariant p == null ==> forall i :: 0 <= i < n ==> entries[i].pid != ppid
        invariant p != null ==> q < n && p == tables[q] && entries[q].pid == ppid
        decreases |tables| - n
      {
        assert tables[n].Holds(entries[n]);
        if c.pid == ppid {
          p := c;
          q := n;
        }
        l := c;
        c := c.next;
        n := n + 1;
      }
      if c != null {
        assert tables[n].Holds(entries[n]);
      }
    }

    /** A copy of the parent's table, for a new process. */
    method Fork(p: FDT, cpid: int, ghost e: Entry) returns (t: FDT)
      requires p.Holds(e)
      ensures fresh(t) && t.next == null && t.Holds(e.(pid := cpid))
      ensures forall i :: 0 <= i < |t.nodes| ==> fresh(t.nodes[i])
    {
      var copy, copies := CopyList(p.head, p.nodes, e.objects);
      t := new FDT(cpid, p.curPath, copy, copies);
    }

    /** get_FDT for a process and its parent. */
    method GetFDT(cpid: int, ppid: int) returns (t: FDT)
      requires Valid()
      modifies this, tables
      ensures Valid() && Got(old(entries), entries, cpid, ppid)
      ensures exists i :: 0 <= i < |tables| && t == tables[i] && entries[i].pid == cpid
      ensures HasPid(old(entries), cpid) ==> tables == old(tables) && entries == old(entries)
      ensures !HasPid(old(entries), cpid) ==>
                tables == old(tables) + [t] && fresh(t) && forall i :: 0 <= i < |t.nodes| ==> fresh(t.nodes[i])
    {
      hide FDT.Holds, Chain, Apart, Unshared;
      if head == null {
        assert !HasPid(entries, cpid);
        t := CreateFDT(cpid);
        First(t, Created(cpid));
        return;
      }
      ghost var before := entries;
      var c, l, p, n, q := Walk(cpid, ppid);
      if c != null {
        return c;
      }
      if p == null {
        t := CreateFDT(cpid);
        Append(l, t, Created(cpid));
      } else {
        t := Fork(p, cpid, entries[q]);
        Append(l, t, entries[q].(pid := cpid));
        assert entries == before + [before[q].(pid := cpid)];
      }
    }

    /** The first table of all. */
    method First(t: FDT, ghost e: Entry)
      requires Valid() && tables == [] && t.next == null && t.Holds(e)
      modifies this
      ensures Valid() && tables == [t] && entries == [e]
    {
      head, tables, entries, repr := t, [t], [e], set o | o in t.nodes;
    }

    /** Links a new table after the last one. */
    method Append(l: FDT, t: FDT, ghost e: Entry)
      requires Valid() && tables != [] && l == tables[|tables| - 1]
      requires t !in tables && t.next == null && t.Holds(e)
      requires forall o :: o in t.nodes ==> o !in repr
      modifies this, l`next
      ensures Valid() && tables == old(tables) + [t] && entries == old(entries) + [e]
    {
      hide FDT.Holds, Chain;
      l.next := t;
      tables, entries, repr := tables + [t], entries + [e], repr + set o | o in t.nodes;
      assert Linked();
      assert Unshared();
    }

    /** A sequence of calls by any processes: two calls get the same table exactly when one process made both. */
    method Serve(calls: seq<(int, int)>) returns (results: seq<FDT>)
      requires Valid() && Distinct(entries)
      modifies this, tables
      ensures Valid() && Distinct(entries) && old(entries) <= entries && old(tables) <= tables
      ensures |results| == |calls| && forall i :: 0 <= i < |results| ==> results[i] in tables
      ensures forall i, j :: 0 <= i < j < |calls| ==> (results[i] == results[j] <==> calls[i].0 == calls[j].0)
    {
      hide Valid, Got, HasPid;
      Same();
      results := [];
      ghost var where: seq<nat> := [];
      while |results| < |calls|
        invariant Valid() && Distinct(entries) && |tables| == |entries|
        invariant old(entries) <= entries && old(tables) <= tables
        invariant forall i :: |old(tables)| <= i < |tables| ==> fresh(tables[i])
        invariant |where| == |results| <= |calls|
        invariant forall i :: 0 <= i < |where| ==>
                    where[i] < |tables| && results[i] == tables[where[i]] && entries[where[i]].pid == calls[i].0
      {
        ghost var es := entries;
        ghost var ts := tables;
        var t := GetFDT(calls[|results|].0, calls[|results|].1);
        GotKeepsDistinct(es, entries, calls[|results|].0, calls[|results|].1);
        Same();
        ghost var k :| 0 <= k < |tables| && t == tables[k] && entries[k].pid == calls[|results|].0;
        assert ts <= tables;
        results, where := results + [t], where + [k];
      }
      Same();
    }

    lemma Same()
      requires Valid()
      ensures |tables| == |entries|
      ensures forall i, j :: 0 <= i < j < |tables| ==> tables[i] != tables[j]
    {
    }

    /** isOpen as written: whatever table it is given, it answers for the first one. */
    method IsOpen(inode: int, fdt: FDT) returns (r: int)
      requires Valid() && tables != []
      ensures r == if exists k :: 0 <= k < |entries[0].objects| && entries[0].objects[k].inode == inode then -1 else 0
    {
      hide Apart, Unshared;
      assert tables[0].Holds(entries[0]);
      var fo: FileObject? := head.head;
      ghost var n := 0;
      ghost var nodes, vs := tables[0].nodes, entries[0].objects;
      while fo != null && fo.inodeIndex != inode
        invariant 0 <= n <= |nodes| && fo == if n == |nodes| then null else nodes[n]
        invariant forall i :: 0 <= i < n ==> vs[i].inode != inode
        decreases |nodes| - n
      {
        NextInChain(nodes, vs, n);
        fo := fo.next;
        n := n + 1;
      }
      r := if fo == null then 0 else -1;
      if fo != null {
        assert vs[n].inode == inode;
      }
    }
  }
}
