/** Directories: 16-byte entries of a 14-byte name and a 2-byte inode number, packed in
    the directory's content; first-match search and removal by moving the last entry. */
module Directory {
  import opened Disk
  import opened FileData

  const ENTRY := 16

  datatype Entry = Entry(name: Name, inode: nat)

  /** A C string: no NUL inside. */
  predicate IsCString(s: seq<Byte>) {
    forall k :: 0 <= k < |s| ==> s[k] != 0
  }

  type Name = s: seq<Byte> | IsCString(s)

  /** The uninitialised name field of a fresh directory entry. */
  type Pad = s: seq<Byte> | |s| == 14 witness Repeat(0, 14)

  /** The bytes before the first NUL. */
  function CString(s: seq<Byte>): (r: Name)
    ensures r <= s && (|r| < |s| ==> s[|r|] == 0)
  {
    if s == [] || s[0] == 0 then [] else [s[0]] + CString(s[1..])
  }

  lemma {:induction false} CStringUnique(s: seq<Byte>, r: seq<Byte>)
    requires r <= s && IsCString(r) && |r| < |s| && s[|r|] == 0
    ensures CString(s) == r
  {
    if r != [] {
      assert s[0] == r[0];
      CStringUnique(s[1..], r[1..]);
    }
  }

  /** strcpy of the name into an uninitialised 14-byte field, then the inode number. */
  function Encode(name: Name, inode: nat, pad: Pad): (b: seq<Byte>)
    requires |name| <= 13 && inode < 65536
    ensures |b| == ENTRY
  {
    name + [0] + pad[|name| + 1..] + [inode % 256, inode / 256]
  }

  function Decode(b: seq<Byte>): Entry
    requires |b| == ENTRY
  {
    Entry(CString(b[..14]), (b[14] as nat) + 256 * (b[15] as nat))
  }

  lemma {:induction false} EncodeDecode(name: Name, inode: nat, pad: Pad)
    requires |name| <= 13 && inode < 65536
    ensures Decode(Encode(name, inode, pad)) == Entry(name, inode)
  {
    var b := Encode(name, inode, pad);
    assert b[..14][..|name|] == name;
    CStringUnique(b[..14], name);
  }

  /** Byte range of entry `e`. */
  function Raw(c: seq<Byte>, e: nat): (b: seq<Byte>)
    requires ENTRY * e + ENTRY <= |c|
    ensures |b| == ENTRY
  {
    c[ENTRY * e..ENTRY * e + ENTRY]
  }

  /** The entries packed in a directory's content. */
  function EntryList(c: seq<Byte>): (l: seq<Entry>)
    ensures |l| == |c| / ENTRY
    ensures forall e :: 0 <= e < |l| ==> l[e] == Decode(Raw(c, e))
  {
    seq(|c| / ENTRY, e requires 0 <= e < |c| / ENTRY => Decode(Raw(c, e)))
  }

  /** Index of the first entry with this name. */
  function Find(l: seq<Entry>, name: Name): (r: Option<nat>)
    ensures r.Some? ==> r.value < |l| && l[r.value].name == name && forall e :: 0 <= e < r.value ==> l[e].name != name
    ensures r.None? ==> forall e :: 0 <= e < |l| ==> l[e].name != name
  {
    if l == [] then None
    else if l[0].name == name then Some(0)
    else
      match Find(l[1..], name)
      case None => None
      case Some(e) => assert forall k :: 0 < k < |l| ==> l[k] == l[1..][k - 1]; Some(e + 1)
  }

  lemma FindAppended(l: seq<Entry>, name: Name, inode: nat)
    requires Find(l, name) == None
    ensures Find(l + [Entry(name, inode)], name) == Some(|l|)
  {
    var l1 := l + [Entry(name, inode)];
    assert l1[|l|].name == name;
    forall e | 0 <= e < |l| ensures l1[e].name != name { assert l1[e] == l[e]; }
  }

  /** Entry `i` replaced by the last one, and the last dropped. */
  function SwapRemove<T>(l: seq<T>, i: nat): seq<T>
    requires i < |l|
  {
    l[i := l[|l| - 1]][..|l| - 1]
  }

  lemma {:induction false} EntryListAppend(c: seq<Byte>, b: seq<Byte>)
    requires |c| % ENTRY == 0 && |b| == ENTRY
    ensures EntryList(c + b) == EntryList(c) + [Decode(b)]
  {
    var n := |c| / ENTRY;
    assert |c + b| / ENTRY == n + 1;
    forall e | 0 <= e < n + 1 ensures EntryList(c + b)[e] == (EntryList(c) + [Decode(b)])[e] {
      if e < n { assert Raw(c + b, e) == Raw(c, e); } else { assert Raw(c + b, e) == b; }
    }
  }

  lemma SpliceIndex(c: seq<Byte>, p: nat, s: seq<Byte>)
    requires p + |s| <= |c|
    ensures |Splice(c, p, s)| == |c|
    ensures forall q :: 0 <= q < |c| ==> Splice(c, p, s)[q] == if p <= q < p + |s| then s[q - p] else c[q]
  {
  }

  /** The content after the last entry's name, with its NUL, and number are copied over
      entry i and the last entry is cut off. */
  function MovedLast(c: seq<Byte>, i: nat, last: seq<Byte>): seq<Byte>
    requires |last| == ENTRY && ENTRY * i + ENTRY <= |c| && |CString(last[..14])| <= 13
  {
    var c1 := Splice(c, ENTRY * i, CString(last[..14]) + [0]);
    Splice(c1, ENTRY * i + 14, last[14..])[..|c| - ENTRY]
  }

  lemma {:induction false} MovedLastBytes(c: seq<Byte>, i: nat, last: seq<Byte>)
    requires |last| == ENTRY && ENTRY * i + ENTRY <= |c| && |CString(last[..14])| <= 13
    ensures var r, name := MovedLast(c, i, last), CString(last[..14]);
            && |r| == |c| - ENTRY
            && (forall q :: 0 <= q < |r| && !(ENTRY * i <= q < ENTRY * i + ENTRY) ==> r[q] == c[q])
            && (ENTRY * i + ENTRY <= |r| ==>
                  (forall k :: 0 <= k < |name| ==> r[ENTRY * i + k] == name[k])
                  && r[ENTRY * i + |name|] == 0 && r[ENTRY * i + 14] == last[14] && r[ENTRY * i + 15] == last[15])
  {
    var name := CString(last[..14]);
    var c1 := Splice(c, ENTRY * i, name + [0]);
    SpliceIndex(c, ENTRY * i, name + [0]);
    SpliceIndex(c1, ENTRY * i + 14, last[14..]);
    hide Splice;
  }

  lemma {:induction false} DecodeFrom(b: seq<Byte>, last: seq<Byte>)
    requires |b| == |last| == ENTRY && |CString(last[..14])| <= 13
    requires var name := CString(last[..14]);
             (forall k :: 0 <= k < |name| ==> b[k] == name[k]) && b[|name|] == 0 && b[14] == last[14] && b[15] == last[15]
    ensures Decode(b) == Decode(last)
  {
    var name := CString(last[..14]);
    assert b[..14][..|name|] == name;
    CStringUnique(b[..14], name);
  }

  lemma {:induction false} MovedLastIsSwapRemove(c: seq<Byte>, i: nat)
    requires |c| % ENTRY == 0 && i < |c| / ENTRY
    requires |EntryList(c)[|c| / ENTRY - 1].name| <= 13
    ensures var n := |c| / ENTRY;
            EntryList(MovedLast(c, i, Raw(c, n - 1))) == SwapRemove(EntryList(c), i)
  {
    var n := |c| / ENTRY;
    assert |c| == ENTRY * n;
    var last := Raw(c, n - 1);
    MovedLastBytes(c, i, last);
    if i < n - 1 { DecodeMoved(MovedLast(c, i, last), i, last); }
    EntriesMoved(c, MovedLast(c, i, last), i, n);
  }

  lemma {:induction false} EntriesMoved(c: seq<Byte>, c3: seq<Byte>, i: nat, n: nat)
    requires |c| == ENTRY * n && |c3| == ENTRY * (n - 1) && i < n
    requires forall q :: 0 <= q < |c3| && !(ENTRY * i <= q < ENTRY * i + ENTRY) ==> c3[q] == c[q]
    requires i < n - 1 ==> Decode(Raw(c3, i)) == Decode(Raw(c, n - 1))
    ensures EntryList(c3) == SwapRemove(EntryList(c), i)
  {
    forall e | 0 <= e < n - 1 && e != i ensures Raw(c3, e) == Raw(c, e) {
      RawSame(c, c3, e);
    }
    hide Raw, Decode;
    forall e | 0 <= e < n - 1 ensures EntryList(c3)[e] == SwapRemove(EntryList(c), i)[e] {}
  }

  lemma RawSame(c: seq<Byte>, c': seq<Byte>, e: nat)
    requires ENTRY * e + ENTRY <= |c| && ENTRY * e + ENTRY <= |c'|
    requires forall q :: ENTRY * e <= q < ENTRY * e + ENTRY ==> c'[q] == c[q]
    ensures Raw(c', e) == Raw(c, e)
  {
  }

  lemma DecodeMoved(c: seq<Byte>, i: nat, last: seq<Byte>)
    requires |last| == ENTRY && |CString(last[..14])| <= 13 && ENTRY * i + ENTRY <= |c|
    requires var name := CString(last[..14]);
             (forall k :: 0 <= k < |name| ==> c[ENTRY * i + k] == name[k])
             && c[ENTRY * i + |name|] == 0 && c[ENTRY * i + 14] == last[14] && c[ENTRY * i + 15] == last[15]
    ensures Decode(Raw(c, i)) == Decode(last)
  {
    DecodeFrom(Raw(c, i), last);
  }
}
