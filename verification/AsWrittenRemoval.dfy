/** free_parent_directory_entry as the source writes it: exactly when it still takes out just one entry. */
module AsWrittenRemoval {
  import opened Disk
  import opened BlockIndex
  import opened FileData
  import opened Directory
  import opened Namespace
  import opened Runs
  import opened AsWritten

  /** Block r of memory as bytes. `other` is what memory holds where the model has no bytes: in front of the
      space, in blocks below 0, and in index blocks. */
  function Seen(disk: Space, other: int -> Bytes, r: int): Bytes {
    if 0 <= r < SPACE && !disk[r].Index? then BytesOf(disk[r]) else other(r)
  }

  function Patch(b: Bytes, o: nat, s: seq<Byte>): (r: Bytes)
    requires o + |s| <= BLOCK_SIZE
    ensures forall q :: 0 <= q < BLOCK_SIZE ==> r[q] == if o <= q < o + |s| then s[q - o] else b[q]
  {
    b[..o] + s + b[o + |s|..]
  }

  function Store(disk: Space, n: nat, o: nat, s: seq<Byte>): Space
    requires n < SPACE && o + |s| <= BLOCK_SIZE
  {
    disk[n := Data(Patch(BytesOf(disk[n]), o, s))]
  }

  /** A bad pointer is used, a name does not end before its block does, or the new state and last_block_offset / 16. */
  datatype Outcome = Wild | Overrun | Done(st: State, x: int)

  /** Where entry number k lies in its block, also when k counts from a later block and is negative. */
  function Place(k: int): (o: nat)
    ensures o + ENTRY <= BLOCK_SIZE
  {
    ENTRY * (k % 16)
  }

  /** The two copies, of a name and then of a number, from place o of block r to place p of block n. */
  function Copied(disk: Space, other: int -> Bytes, r: int, o: nat, n: nat, p: nat, text: Name): Space
    requires n < SPACE && o + ENTRY <= BLOCK_SIZE && p + ENTRY <= BLOCK_SIZE && p + |text| < BLOCK_SIZE
  {
    var disk1 := Store(disk, n, p, text + [0]);
    Store(disk1, n, p + 14, Seen(disk1, other, r)[o + 14..o + 16])
  }

  /**
   * free_parent_directory_entry as written, for a directory with block_number b and last_block_offset 16 * x.
   * The last entry is looked for 16 bytes in front of that place, also when this is in front of block b; and
   * when it starts block b it is not copied at all. block_number stays as it is.
   */
  function RemoveEntryAsWritten(st: State, d: nat, name: Name, b: nat, x: int, other: int -> Bytes): Outcome
    requires d < INODES && st.inodes[d].size >= ENTRY
  {
    match Find(List(st, d), name)
    case None => Done(st, x)
    case Some(e) =>
      var to := SwitchAddress(st.inodes[d].loc, st.disk, e / 16, Place(e));
      var from := SwitchAddress(st.inodes[d].loc, st.disk, b, ENTRY * (x - 1));
      if x == 1 then Done(SetSize(st, d, st.inodes[d].size - ENTRY), 0)
      else if !(to.Addr? && to.base.Blk? && to.base.n < SPACE && from.Addr? && from.base.Blk?) then Wild
      else
        var r, o, p := from.base.n + (x - 1) / 16, Place(x - 1), Place(e);
        var text := CString(Seen(st.disk, other, r)[o..]);
        if o + |text| == BLOCK_SIZE || p + |text| >= BLOCK_SIZE then Overrun
        else
          Done(SetSize(st.(disk := Copied(st.disk, other, r, o, to.base.n, p, text)), d, st.inodes[d].size - ENTRY), x - 1)
  }

  /** After any write and then any removals of a directory with n entries, last_block_offset measures the size
      from block_number on. */
  predicate FieldsFit(n: nat, b: nat, x: int) {
    x == n - 16 * b && n / 16 <= b
  }

  lemma {:induction false} FieldsStayFit(st: State, d: nat, name: Name, n: nat, b: nat, x: int, other: int -> Bytes)
    requires d < INODES && st.inodes[d].size == ENTRY * n && n >= 1 && FieldsFit(n, b, x) && Find(List(st, d), name).Some?
    ensures FieldsFit(n, st.inodes[d].size / BLOCK_SIZE, st.inodes[d].size % BLOCK_SIZE / ENTRY)
    ensures var o := RemoveEntryAsWritten(st, d, name, b, x, other);
            o.Done? ==> o.st.inodes[d].size == ENTRY * (n - 1) && FieldsFit(n - 1, b, o.x)
  {
    hide Find, List, SwitchAddress, Seen, Patch, CString, Copied;
  }

  /** The 16 bytes of entry k of directory d, where they lie. */
  function SlotBytes(st: State, d: nat, k: nat): (s: seq<Byte>)
    requires d < INODES && k / 16 < MAX_BLOCKS
    ensures |s| == ENTRY
  {
    BlockBytes(st.disk, Lookup(st.inodes[d].loc, st.disk, k / 16))[ENTRY * (k % 16)..ENTRY * (k % 16) + ENTRY]
  }

  lemma {:induction false} EntryAt(st: State, d: nat, k: nat)
    requires d < INODES && ENTRY * k + ENTRY <= st.inodes[d].size && k / 16 < MAX_BLOCKS
    ensures k < |List(st, d)| && List(st, d)[k] == Decode(SlotBytes(st, d, k))
  {
    hide Lookup, CString;
    var s, t := SlotBytes(st, d, k), Raw(Content(st, d), k);
    forall j | 0 <= j < ENTRY ensures s[j] == t[j] {
      assert (ENTRY * k + j) / BLOCK_SIZE == k / 16 && (ENTRY * k + j) % BLOCK_SIZE == ENTRY * (k % 16) + j;
      assert t[j] == ByteAt(st, d, ENTRY * k + j);
    }
    assert s == t;
  }

  /** An entry from its bytes. */
  lemma {:induction false} DecodeText(s: seq<Byte>, text: Name)
    requires |s| == ENTRY && |text| <= 13 && s[..|text|] == text && s[|text|] == 0
    ensures Decode(s).name == text
  {
    assert s[..14][..|text|] == text;
    CStringUnique(s[..14], text);
  }

  lemma {:induction false} DecodeLong(s: seq<Byte>, text: Name)
    requires |s| == ENTRY && |text| >= 14 && s[..14] == text[..14]
    ensures |Decode(s).name| == 14
  {
    assert forall k :: 0 <= k < 14 ==> s[..14][k] == text[k];
  }

  /** A directory with n entries, of which e is one. */
  ghost predicate Holds(st: State, owner: Owners, d: nat, n: nat, e: nat) {
    FsInv(st, owner) && IsDir(st, d) && st.inodes[d].size == ENTRY * n && e < n
  }

  /** The block that entry k lies in. */
  lemma BlockOfEntry(st: State, owner: Owners, d: nat, n: nat, k: nat)
    requires Holds(st, owner, d, n, k)
    ensures k / 16 < st.inodes[d].BlockCount() <= MAX_BLOCKS && k < |List(st, d)| == n
    ensures BlockThere(st, owner, d, k / 16)
  {
    assert Shape(st, d);
    BlockOwned(st, owner, d, k / 16);
  }

  /** Block k of directory d is there, holds bytes, and is no other block of any file. */
  ghost predicate BlockThere(st: State, owner: Owners, d: nat, k: nat) {
    && d < INODES && k < MAX_BLOCKS
    && var c := Lookup(st.inodes[d].loc, st.disk, k); c.Blk? && c.n < SPACE && owner[c.n] == Some(DataOf(d, k)) && !st.disk[c.n].Index?
  }

  lemma BlockOwned(st: State, owner: Owners, d: nat, k: nat)
    requires FsInv(st, owner) && d < INODES && k < MAX_BLOCKS && k < st.inodes[d].BlockCount()
    ensures BlockThere(st, owner, d, k)
  {
    assert Shape(st, d);
    assert At(st.inodes, st.disk, DataOf(d, k)) == Lookup(st.inodes[d].loc, st.disk, k);
    assert TypeOk(st.disk[Lookup(st.inodes[d].loc, st.disk, k).n], Some(DataOf(d, k)));
  }

  /** Other bytes in a directory's block change nothing else. */
  lemma {:induction false} StoreKeepsInv(st: State, owner: Owners, d: nat, k: nat, bytes: Bytes)
    requires FsInv(st, owner) && BlockThere(st, owner, d, k)
    ensures var st1 := st.(disk := st.disk[Lookup(st.inodes[d].loc, st.disk, k).n := Data(bytes)]);
            && FsInv(st1, owner)
            && (forall k' :: 0 <= k' < MAX_BLOCKS ==>
                  Lookup(st1.inodes[d].loc, st1.disk, k') == Lookup(st.inodes[d].loc, st.disk, k'))
            && (forall j :: 0 <= j < INODES && j != d ==> Content(st1, j) == Content(st, j))
  {
    var n := Lookup(st.inodes[d].loc, st.disk, k).n;
    var st1 := st.(disk := st.disk[n := Data(bytes)]);
    forall p: Ptr ensures Entries(st1.disk, p) == Entries(st.disk, p) {}
    forall r | InRange(r) ensures At(st1.inodes, st1.disk, r) == At(st.inodes, st.disk, r) {}
    forall k' | 0 <= k' < MAX_BLOCKS
      ensures Lookup(st1.inodes[d].loc, st1.disk, k') == Lookup(st.inodes[d].loc, st.disk, k') {
      assert At(st1.inodes, st1.disk, DataOf(d, k')) == At(st.inodes, st.disk, DataOf(d, k'));
    }
    hide Lookup, Entries, Second;
    assert OwnInv(st1, owner) by { hide Shape; }
    forall i | 0 <= i < INODES ensures Shape(st1, i) { hide OwnInv; assert Shape(st, i); ShapeFrame(st, st1, i); }
    forall j | 0 <= j < INODES && j != d ensures Content(st1, j) == Content(st, j) {
      OtherContent(st, st1, owner, n, j, bytes);
    }
  }

  lemma OtherContent(st: State, st1: State, owner: Owners, n: nat, j: nat, bytes: Bytes)
    requires FsInv(st, owner) && j < INODES && n < SPACE && owner[n].Some? && owner[n].value.i != j
    requires st1 == st.(disk := st.disk[n := Data(bytes)])
    requires forall r :: InRange(r) ==> At(st1.inodes, st1.disk, r) == At(st.inodes, st.disk, r)
    ensures Content(st1, j) == Content(st, j)
  {
    assert Shape(st, j);
    hide Entries, Second;
    forall q | 0 <= q < st.inodes[j].size ensures ByteAt(st1, j, q) == ByteAt(st, j, q) {
      var r := DataOf(j, q / BLOCK_SIZE);
      assert At(st.inodes, st.disk, r).Blk?;
      assert At(st1.inodes, st1.disk, r) == At(st.inodes, st.disk, r);
    }
  }

  /** The state with new bytes in entry e's block and one entry less. */
  function WithBytes(st: State, d: nat, e: nat, n: nat, bytes: Bytes): State
    requires d < INODES && e < n && e / 16 < MAX_BLOCKS
    requires var c := Lookup(st.inodes[d].loc, st.disk, e / 16); c.Blk? && c.n < SPACE
  {
    SetSize(st.(disk := st.disk[Lookup(st.inodes[d].loc, st.disk, e / 16).n := Data(bytes)]), d, ENTRY * (n - 1))
  }

  lemma {:induction false} EntriesOf(st: State, owner: Owners, d: nat, n: nat, e: nat, bytes: Bytes)
    requires Holds(st, owner, d, n, e) && BlockThere(st, owner, d, e / 16)
    ensures var st1 := WithBytes(st, d, e, n, bytes);
            && FsInv(st1, owner) && |List(st1, d)| == n - 1 && |List(st, d)| == n
            && (forall j :: 0 <= j < INODES && j != d ==> Content(st1, j) == Content(st, j))
            && (forall k :: 0 <= k < n - 1 ==>
                  List(st1, d)[k] == if k / 16 == e / 16 then Decode(bytes[Place(k)..Place(k) + ENTRY]) else List(st, d)[k])
  {
    hide FsInv, Lookup, Content, EntryList, Decode;
    var st0 := st.(disk := st.disk[Lookup(st.inodes[d].loc, st.disk, e / 16).n := Data(bytes)]);
    StoreKeepsInv(st, owner, d, e / 16, bytes);
    TruncateContent(st0, owner, d, ENTRY * (n - 1));
    var st1 := WithBytes(st, d, e, n, bytes);
    forall k | 0 <= k < n - 1
      ensures List(st1, d)[k] == if k / 16 == e / 16 then Decode(bytes[Place(k)..Place(k) + ENTRY]) else List(st, d)[k] {
      BlockOfEntry(st, owner, d, n, k);
      EntryAt(st1, d, k);
      EntryAt(st, d, k);
      SlotOf(st, owner, d, n, e, bytes, k);
    }
  }

  lemma SlotOf(st: State, owner: Owners, d: nat, n: nat, e: nat, bytes: Bytes, k: nat)
    requires d < INODES && e < n && k / 16 < MAX_BLOCKS && BlockThere(st, owner, d, e / 16) && BlockThere(st, owner, d, k / 16)
    requires forall k' :: 0 <= k' < MAX_BLOCKS ==>
               Lookup(WithBytes(st, d, e, n, bytes).inodes[d].loc, WithBytes(st, d, e, n, bytes).disk, k')
               == Lookup(st.inodes[d].loc, st.disk, k')
    ensures SlotBytes(WithBytes(st, d, e, n, bytes), d, k)
            == if k / 16 == e / 16 then bytes[Place(k)..Place(k) + ENTRY] else SlotBytes(st, d, k)
  {
    hide Lookup;
  }

  /** The bytes that the two copies leave in the block they go to. */
  function CopiedBytes(disk: Space, other: int -> Bytes, r: int, o: nat, n: nat, p: nat, text: Name): (b: Bytes)
    requires n < SPACE && o + ENTRY <= BLOCK_SIZE && p + ENTRY <= BLOCK_SIZE && p + |text| < BLOCK_SIZE
    ensures Copied(disk, other, r, o, n, p, text) == disk[n := Data(b)]
    ensures forall q :: 0 <= q < BLOCK_SIZE && (q < p || (p + |text| < q && p + ENTRY <= q)) ==> b[q] == BytesOf(disk[n])[q]
    ensures forall k :: 0 <= k < |text| && k < 14 ==> b[p + k] == text[k]
    ensures |text| < 14 ==> b[p + |text|] == 0
    ensures var num := Seen(Store(disk, n, p, text + [0]), other, r); b[p + 14] == num[o + 14] && b[p + 15] == num[o + 15]
  {
    BytesOf(Copied(disk, other, r, o, n, p, text)[n])
  }

  /** A name of at most 13 characters does not touch any number. */
  lemma NumberKept(disk: Space, other: int -> Bytes, r: int, n: nat, k: int, k': int, text: Name)
    requires n < SPACE && |text| <= 13 && !disk[n].Index?
    ensures var num, was := Seen(Store(disk, n, Place(k), text + [0]), other, r), Seen(disk, other, r);
            num[Place(k') + 14] == was[Place(k') + 14] && num[Place(k') + 15] == was[Place(k') + 15]
  {
    if r == n {
      assert Place(k') + 14 < Place(k) || Place(k) + 14 <= Place(k') + 14;
    }
  }

  lemma Switched(st: State, owner: Owners, d: nat, k: nat, offset: int)
    requires FsInv(st, owner) && d < INODES
    ensures var a := SwitchAddress(st.inodes[d].loc, st.disk, k, offset);
            if k < MAX_BLOCKS && k < st.inodes[d].BlockCount() then a == Addr(Lookup(st.inodes[d].loc, st.disk, k), offset)
            else !(a.Addr? && a.base.Blk?)
  {
    assert Shape(st, d);
    if k < MAX_BLOCKS { PointersOfShape(st, d, k); }
  }

  /** The block of memory in which the last of n entries is looked for, when block b is there. */
  function LookedIn(st: State, d: nat, n: nat, b: nat): int
    requires BlockAt(st, d, b)
  {
    Lookup(st.inodes[d].loc, st.disk, b).n - b + (n - 1) / 16
  }

  predicate BlockAt(st: State, d: nat, b: nat) {
    d < INODES && b < MAX_BLOCKS && b < st.inodes[d].BlockCount() && Lookup(st.inodes[d].loc, st.disk, b).Blk?
  }

  /** The name and the number found in block r in the place of entry k. */
  function TextThere(disk: Space, other: int -> Bytes, r: int, k: int): Name {
    CString(Seen(disk, other, r)[Place(k)..])
  }

  function NumberThere(disk: Space, other: int -> Bytes, r: int, k: int): nat {
    (Seen(disk, other, r)[Place(k) + 14] as nat) + 256 * (Seen(disk, other, r)[Place(k) + 15] as nat)
  }

  /** What the step comes to when the last entry does not start block b. */
  function CopyStep(st: State, d: nat, n: nat, e: nat, b: nat, other: int -> Bytes): Outcome
    requires e < n && d < INODES && e / 16 < MAX_BLOCKS
    requires var c := Lookup(st.inodes[d].loc, st.disk, e / 16); c.Blk? && c.n < SPACE
  {
    if !BlockAt(st, d, b) then Wild
    else
      var r, c := LookedIn(st, d, n, b), Lookup(st.inodes[d].loc, st.disk, e / 16).n;
      var text := TextThere(st.disk, other, r, n - 1);
      if Place(n - 1) + |text| == BLOCK_SIZE || Place(e) + |text| >= BLOCK_SIZE then Overrun
      else Done(WithBytes(st, d, e, n, CopiedBytes(st.disk, other, r, Place(n - 1), c, Place(e), text)), n - 16 * b - 1)
  }

  lemma SamePlace(n: nat, b: nat)
    ensures (n - 16 * b - 1) / 16 == (n - 1) / 16 - b && Place(n - 16 * b - 1) == Place(n - 1)
  {
  }

  lemma {:induction false} RemovalUnfolds(st: State, owner: Owners, d: nat, name: Name, n: nat, e: nat, b: nat, other: int -> Bytes)
    requires Holds(st, owner, d, n, e) && Find(List(st, d), name) == Some(e) && n - 1 != 16 * b
    ensures e / 16 < MAX_BLOCKS && BlockThere(st, owner, d, e / 16)
    ensures RemoveEntryAsWritten(st, d, name, b, n - 16 * b, other) == CopyStep(st, d, n, e, b, other)
  {
    hide FsInv, Find, List, CString, Seen, Lookup, SwitchAddress, Patch, Copied, CopiedBytes, Place;
    BlockOfEntry(st, owner, d, n, e);
    Switched(st, owner, d, e / 16, Place(e));
    Switched(st, owner, d, b, ENTRY * (n - 16 * b - 1));
    SamePlace(n, b);
    if BlockAt(st, d, b) {
      BlockOwned(st, owner, d, b);
      var r, c := LookedIn(st, d, n, b), Lookup(st.inodes[d].loc, st.disk, e / 16).n;
      var text := TextThere(st.disk, other, r, n - 1);
      if Place(n - 1) + |text| != BLOCK_SIZE && Place(e) + |text| < BLOCK_SIZE {
        var bytes := CopiedBytes(st.disk, other, r, Place(n - 1), c, Place(e), text);
        assert Copied(st.disk, other, r, Place(n - 1), c, Place(e), text) == st.disk[c := Data(bytes)];
      }
    } else if b < MAX_BLOCKS && b < st.inodes[d].BlockCount() {
      BlockOwned(st, owner, d, b);
    }
  }

  /** The copied bytes, read as entries: in the place of e what was copied, elsewhere what was there. */
  lemma {:induction false} ReadCopied(st: State, owner: Owners, d: nat, n: nat, e: nat, other: int -> Bytes, r: int, text: Name, k: nat)
    requires Holds(st, owner, d, n, e) && BlockThere(st, owner, d, e / 16) && Place(e) + |text| < BLOCK_SIZE
    requires k < n && k / 16 == e / 16
    ensures var c := Lookup(st.inodes[d].loc, st.disk, e / 16).n;
            var bytes := CopiedBytes(st.disk, other, r, Place(n - 1), c, Place(e), text);
            var now := Decode(bytes[Place(k)..Place(k) + ENTRY]);
            && (k == e ==> if |text| <= 13 then now == Entry(text, NumberThere(st.disk, other, r, n - 1)) else |now.name| == 14)
            && (k < e || (k > e && |text| <= 13) ==> k < |List(st, d)| && now == List(st, d)[k])
  {
    hide FsInv, Lookup, List, CString, Copied, CopiedBytes, Patch, Seen;
    var c := Lookup(st.inodes[d].loc, st.disk, e / 16).n;
    var bytes := CopiedBytes(st.disk, other, r, Place(n - 1), c, Place(e), text);
    var s := bytes[Place(k)..Place(k) + ENTRY];
    if k == e {
      if |text| <= 13 {
        NumberKept(st.disk, other, r, c, e, n - 1, text);
        assert s[..|text|] == text;
        DecodeText(s, text);
      } else {
        assert s[..14] == text[..14];
        DecodeLong(s, text);
      }
    } else if k < e || |text| <= 13 {
      EntryAt(st, d, k) by { BlockOfEntry(st, owner, d, n, k); }
      assert s == SlotBytes(st, d, k);
    }
  }

  /** Copying the last entry over entry e, or copying anything over the last one, is right; nothing else is. */
  lemma {:induction false} CopyRightIff(st: State, owner: Owners, d: nat, n: nat, e: nat, other: int -> Bytes, r: int)
    requires Holds(st, owner, d, n, e) && BlockThere(st, owner, d, e / 16) && |List(st, d)| == n
    requires |List(st, d)[n - 1].name| <= 13
    requires Place(e) + |TextThere(st.disk, other, r, n - 1)| < BLOCK_SIZE
    ensures var c, text := Lookup(st.inodes[d].loc, st.disk, e / 16).n, TextThere(st.disk, other, r, n - 1);
            var st1 := WithBytes(st, d, e, n, CopiedBytes(st.disk, other, r, Place(n - 1), c, Place(e), text));
            List(st1, d) == SwapRemove(List(st, d), e)
            <==> e == n - 1 || Entry(text, NumberThere(st.disk, other, r, n - 1)) == List(st, d)[n - 1]
  {
    hide FsInv, Lookup, List, CString, Copied, CopiedBytes, Patch, Seen, Decode, NumberThere, TextThere;
    var c, text := Lookup(st.inodes[d].loc, st.disk, e / 16).n, TextThere(st.disk, other, r, n - 1);
    var bytes := CopiedBytes(st.disk, other, r, Place(n - 1), c, Place(e), text);
    EntriesOf(st, owner, d, n, e, bytes);
    var l, l1 := List(st, d), List(WithBytes(st, d, e, n, bytes), d);
    if e < n - 1 {
      ReadCopied(st, owner, d, n, e, other, r, text, e);
      assert SwapRemove(l, e)[e] == l[n - 1];
    }
    if e == n - 1 || Entry(text, NumberThere(st.disk, other, r, n - 1)) == l[n - 1] {
      forall k | 0 <= k < n - 1 ensures l1[k] == SwapRemove(l, e)[k] {
        if k / 16 == e / 16 { ReadCopied(st, owner, d, n, e, other, r, text, k); }
      }
    }
  }

  /** In the last entry's own block it is the last entry that is found. */
  lemma {:induction false} OwnEntry(st: State, owner: Owners, d: nat, n: nat, other: int -> Bytes)
    requires n >= 1 && Holds(st, owner, d, n, n - 1) && BlockThere(st, owner, d, (n - 1) / 16) && |List(st, d)| == n
    requires |List(st, d)[n - 1].name| <= 13
    ensures var q := Lookup(st.inodes[d].loc, st.disk, (n - 1) / 16).n;
            Entry(TextThere(st.disk, other, q, n - 1), NumberThere(st.disk, other, q, n - 1)) == List(st, d)[n - 1]
  {
    hide FsInv, Lookup, List;
    EntryAt(st, d, n - 1);
    var q := Lookup(st.inodes[d].loc, st.disk, (n - 1) / 16).n;
    var bytes, s := BytesOf(st.disk[q]), SlotBytes(st, d, n - 1);
    var name := CString(s[..14]);
    assert bytes[Place(n - 1)..][..14] == s[..14];
    assert bytes[Place(n - 1)..][..|name|] == name && bytes[Place(n - 1)..][|name|] == s[|name|];
    CStringUnique(bytes[Place(n - 1)..], name);
  }

  lemma {:induction false} EntryListTruncated(c: seq<Byte>, n: nat)
    requires |c| == ENTRY * n && n >= 1
    ensures EntryList(c[..|c| - ENTRY]) == EntryList(c)[..n - 1]
  {
    var c1 := c[..|c| - ENTRY];
    assert |c1| == ENTRY * (n - 1);
    forall e | 0 <= e < n - 1 ensures EntryList(c1)[e] == EntryList(c)[e] {
      assert Raw(c1, e) == Raw(c, e);
    }
  }

  /** When nothing is copied, the last entry is dropped, whichever was to be removed. */
  lemma {:induction false} LastDropped(st: State, owner: Owners, d: nat, n: nat, e: nat)
    requires Holds(st, owner, d, n, e) && |List(st, d)| == n
    requires e < n - 1 ==> List(st, d)[e].name != List(st, d)[n - 1].name
    ensures var st1 := SetSize(st, d, ENTRY * (n - 1));
            && FsInv(st1, owner) && (List(st1, d) == SwapRemove(List(st, d), e) <==> e == n - 1)
            && (forall j :: 0 <= j < INODES && j != d ==> Content(st1, j) == Content(st, j))
  {
    hide FsInv, EntryList, Content, SetSize;
    TruncateContent(st, owner, d, ENTRY * n - ENTRY);
    EntryListTruncated(Content(st, d), n);
    var l := List(st, d);
    if e < n - 1 {
      assert SwapRemove(l, e)[e] == l[n - 1] && l[..n - 1][e] == l[e];
    } else {
      assert SwapRemove(l, e) == l[..n - 1];
    }
  }

  ghost predicate RemovesEntry(st: State, d: nat, e: nat, o: Outcome)
    requires d < INODES && e < |List(st, d)|
  {
    o.Done? && List(o.st, d) == SwapRemove(List(st, d), e)
  }

  /**
   * When removing entry e of n is right, for block_number b: if the last entry starts block b, then only for the last
   * entry itself. Otherwise block b must be there, and the place looked at must be in the last entry's own block or
   * hold the same entry; for the last entry itself it may hold anything that as a name ends before its block does.
   */
  predicate RemovalRight(st: State, d: nat, n: nat, e: nat, b: nat, other: int -> Bytes)
    requires d < INODES && 1 <= n == |List(st, d)|
  {
    if n - 1 == 16 * b then e == n - 1
    else
      BlockAt(st, d, b) &&
      var r, m := LookedIn(st, d, n, b), (n - 1) / 16;
      var text := TextThere(st.disk, other, r, n - 1);
      || (m < MAX_BLOCKS && Lookup(st.inodes[d].loc, st.disk, m).Blk? && Lookup(st.inodes[d].loc, st.disk, m).n == r)
      || (if e == n - 1 then Place(n - 1) + |text| < BLOCK_SIZE
          else Entry(text, NumberThere(st.disk, other, r, n - 1)) == List(st, d)[n - 1])
  }

  lemma {:induction false} CopyCases(st: State, owner: Owners, d: nat, n: nat, e: nat, b: nat, other: int -> Bytes)
    requires Holds(st, owner, d, n, e) && BlockThere(st, owner, d, e / 16) && |List(st, d)| == n
    requires |List(st, d)[n - 1].name| <= 13 && n - 1 != 16 * b
    ensures var o := CopyStep(st, d, n, e, b, other);
            && (RemovesEntry(st, d, e, o) <==> RemovalRight(st, d, n, e, b, other))
            && (o.Done? ==> FsInv(o.st, owner) && forall j :: 0 <= j < INODES && j != d ==> Content(o.st, j) == Content(st, j))
  {
    hide FsInv, List, Content, CString, Lookup, SwapRemove, NumberThere, WithBytes, CopiedBytes, Seen;
    BlockOfEntry(st, owner, d, n, n - 1);
    OwnEntry(st, owner, d, n, other);
    if BlockAt(st, d, b) {
      var r := LookedIn(st, d, n, b);
      var text := TextThere(st.disk, other, r, n - 1);
      if Place(e) + |text| < BLOCK_SIZE && Place(n - 1) + |text| != BLOCK_SIZE {
        CopyRightIff(st, owner, d, n, e, other, r);
        var c := Lookup(st.inodes[d].loc, st.disk, e / 16).n;
        EntriesOf(st, owner, d, n, e, CopiedBytes(st.disk, other, r, Place(n - 1), c, Place(e), text));
      }
    }
  }

  lemma NamesDiffer(st: State, d: nat, slot: PerInode, n: nat, e: nat)
    requires d < INODES && DirInv(st, d, slot) && st.inodes[d].size == ENTRY * n && e < |List(st, d)|
    ensures |List(st, d)| == n && |List(st, d)[n - 1].name| <= 13
    ensures e < n - 1 ==> List(st, d)[e].name != List(st, d)[n - 1].name
  {
    hide List;
  }

  /** Removal as written is right exactly in these cases, whatever memory holds elsewhere, and it never harms
      another file. */
  lemma {:induction false} RemoveEntryRightIff(st: State, owner: Owners, slot: PerInode, d: nat, name: Name, n: nat, e: nat,
                                               b: nat, other: int -> Bytes)
    requires FsInv(st, owner) && IsDir(st, d) && DirInv(st, d, slot) && st.inodes[d].size == ENTRY * n && n / 16 <= b
    requires Find(List(st, d), name) == Some(e)
    ensures e < n && n == |List(st, d)|
    ensures RemovesEntry(st, d, e, RemoveEntryAsWritten(st, d, name, b, n - 16 * b, other)) <==> RemovalRight(st, d, n, e, b, other)
    ensures var o := RemoveEntryAsWritten(st, d, name, b, n - 16 * b, other);
            o.Done? ==> FsInv(o.st, owner) && forall j :: 0 <= j < INODES && j != d ==> Content(o.st, j) == Content(st, j)
  {
    FindSome(List(st, d), name);
    hide FsInv, Find, List, Content, RemoveEntryAsWritten, Lookup, SwapRemove, CopyStep, RemovalRight;
    NamesDiffer(st, d, slot, n, e);
    if n - 1 == 16 * b {
      LastDropped(st, owner, d, n, e);
      NothingCopied(st, d, name, n, e, b, other);
    } else {
      RemovalUnfolds(st, owner, d, name, n, e, b, other);
      CopyCases(st, owner, d, n, e, b, other);
    }
  }

  lemma NothingCopied(st: State, d: nat, name: Name, n: nat, e: nat, b: nat, other: int -> Bytes)
    requires d < INODES && 1 <= n == |List(st, d)| && st.inodes[d].size == ENTRY * n && Find(List(st, d), name) == Some(e)
    requires n - 1 == 16 * b
    ensures RemoveEntryAsWritten(st, d, name, b, 1, other) == Done(SetSize(st, d, ENTRY * (n - 1)), 0)
    ensures RemovalRight(st, d, n, e, b, other) <==> e == n - 1
  {
    hide Find, List, SwitchAddress, Lookup, TextThere, NumberThere;
  }

  /**
   * With block_number as write_file leaves it: removal is right when the last entry does not start its block; when
   * it does, only for the last one; and when it fills its block, wrong if the file has no next block,
   * but right if it has and this lies right behind in the space.
   */
  lemma RightAfterWrite(st: State, owner: Owners, d: nat, n: nat, e: nat, other: int -> Bytes)
    requires Holds(st, owner, d, n, e) && |List(st, d)| == n
    ensures var b, right := n / 16, RemovalRight(st, d, n, e, n / 16, other);
            && FieldsFit(n, b, n % 16)
            && (n % 16 >= 2 ==> right)
            && (n % 16 == 1 ==> (right <==> e == n - 1))
            && (n % 16 == 0 && !BlockAt(st, d, b) ==> !right)
            && (n % 16 == 0 && BlockAt(st, d, b) && NextInSpace(st, d, b) ==> right)
  {
    hide FsInv, List, Lookup, TextThere, NumberThere;
    BlockOfEntry(st, owner, d, n, n - 1);
  }

  predicate NextInSpace(st: State, d: nat, b: nat)
    requires BlockAt(st, d, b)
  {
    b >= 1 && Lookup(st.inodes[d].loc, st.disk, b - 1).Blk?
    && Lookup(st.inodes[d].loc, st.disk, b) == Blk(Lookup(st.inodes[d].loc, st.disk, b - 1).n + 1)
  }
}
