/** A file as a flat byte sequence: what write_file does to it. */
module FileData {
  import opened Disk
  import opened BlockIndex

  function BlockBytes(disk: Space, p: Ptr): Bytes {
    if p.Blk? && p.n < SPACE then BytesOf(disk[p.n]) else ZEROS
  }

  /** Byte `q` of inode `i`'s blocks. */
  function ByteAt(st: State, i: nat, q: nat): Byte
    requires i < INODES
  {
    if q / BLOCK_SIZE < MAX_BLOCKS then
      BlockBytes(st.disk, Lookup(st.inodes[i].loc, st.disk, q / BLOCK_SIZE))[q % BLOCK_SIZE]
    else 0
  }

  function Content(st: State, i: nat): (c: seq<Byte>)
    requires i < INODES
    ensures |c| == st.inodes[i].size
  {
    seq(st.inodes[i].size, q requires q >= 0 => ByteAt(st, i, q))
  }

  /** The block that holds block number `bn`, allocated when there is none. */
  function EnsureBlock(st: State, i: nat, bn: nat): Option<State>
    requires i < INODES
  {
    if bn < MAX_BLOCKS && Lookup(st.inodes[i].loc, st.disk, bn).Blk? then Some(st) else AllocateBlock(st, i)
  }

  function PokeByte(st: State, i: nat, q: nat, v: Byte): State
    requires i < INODES
  {
    if q / BLOCK_SIZE >= MAX_BLOCKS then st
    else match Lookup(st.inodes[i].loc, st.disk, q / BLOCK_SIZE)
      case Null => st
      case Blk(n) =>
        if n >= SPACE then st
        else st.(disk := st.disk[n := Data(BytesOf(st.disk[n])[q % BLOCK_SIZE := v])])
  }

  /** The byte loop of write_file: the final state and the number of bytes written. */
  function PutBytes(st: State, i: nat, p: nat, s: seq<Byte>): (State, nat)
    requires i < INODES
    decreases |s|
  {
    if s == [] then (st, 0)
    else match EnsureBlock(st, i, p / BLOCK_SIZE)
      case None => (st, 0)
      case Some(st1) =>
        var (st2, w) := PutBytes(PokeByte(st1, i, p, s[0]), i, p + 1, s[1..]);
        (st2, w + 1)
  }

  function SetSize(st: State, i: nat, size: nat): State
    requires i < INODES
  {
    st.(inodes := st.inodes[i := st.inodes[i].(size := size, lastOffset := size % BLOCK_SIZE)])
  }

  /** write_file: the final state and the returned count, -1 for ERROR. */
  function WriteFile(st: State, i: nat, p: nat, s: seq<Byte>, byUser: bool): (State, int)
    requires i < INODES
  {
    var error: int := -1;
    if byUser && st.inodes[i].kind.Dir? then (st, error)
    else match (if st.inodes[i].loc[0].Null? then AllocateBlock(st, i) else Some(st))
      case None => (st, error)
      case Some(st0) =>
        match EnsureBlock(st0, i, p / BLOCK_SIZE)
        case None => (st0, error)
        case Some(st1) =>
          var (st2, w) := PutBytes(st1, i, p, s);
          (SetSize(st2, i, Max(st2.inodes[i].size, p + w)), w)
  }

  /** Bytes of inode `i` at all positions its blocks cover in `st` are the same in `st1`. */
  ghost predicate SameBytes(st: State, st1: State, i: nat)
    requires i < INODES
  {
    forall q :: 0 <= q < BLOCK_SIZE * st.inodes[i].BlockCount() ==> ByteAt(st1, i, q) == ByteAt(st, i, q)
  }

  lemma InvShape(st: State, owner: Owners)
    requires FsInv(st, owner)
    ensures forall i :: 0 <= i < INODES ==> Shape(st, i)
  {
  }

  lemma {:induction false} KeepsDataSameBytes(st: State, owner: Owners, st1: State, i: nat)
    requires FsInv(st, owner) && KeepsData(st, st1) && i < INODES
    ensures SameBytes(st, st1, i)
  {
    assert Shape(st, i);
    forall q | 0 <= q < BLOCK_SIZE * st.inodes[i].BlockCount()
      ensures ByteAt(st1, i, q) == ByteAt(st, i, q)
    {
      assert At(st.inodes, st.disk, DataOf(i, q / BLOCK_SIZE)).Blk?;
    }
  }

  /** Writing a byte changes that byte and no other, in this file or any other. */
  lemma {:induction false} PokeByteFrame(st: State, owner: Owners, i: nat, p: nat, v: Byte)
    requires FsInv(st, owner) && i < INODES && p < BLOCK_SIZE * st.inodes[i].BlockCount()
    ensures var st1 := PokeByte(st, i, p, v);
            && FsInv(st1, owner)
            && (forall q :: 0 <= q < BLOCK_SIZE * st.inodes[i].BlockCount() ==>
                  ByteAt(st1, i, q) == if q == p then v else ByteAt(st, i, q))
            && (forall i' :: 0 <= i' < INODES && i' != i ==> SameBytes(st, st1, i'))
            && st1 == st.(disk := st1.disk)
  {
    var st1 := PokeByte(st, i, p, v);
    PokeByteKeepsInv(st, owner, i, p, v);
    assert Shape(st, i);
    var rp := DataOf(i, p / BLOCK_SIZE);
    var n := At(st.inodes, st.disk, rp).n;
    forall i', q | 0 <= i' < INODES && 0 <= q < BLOCK_SIZE * st.inodes[i'].BlockCount()
      ensures ByteAt(st1, i', q) == if i' == i && q == p then v else ByteAt(st, i', q)
    {
      assert Shape(st, i');
      var rq := DataOf(i', q / BLOCK_SIZE);
      assert At(st.inodes, st.disk, rq).Blk?;
      assert At(st1.inodes, st1.disk, rq) == At(st.inodes, st.disk, rq);
      if rq != rp { assert owner[At(st.inodes, st.disk, rq).n] == Some(rq); }
    }
  }

  lemma {:induction false} PokeByteKeepsInv(st: State, owner: Owners, i: nat, p: nat, v: Byte)
    requires FsInv(st, owner) && i < INODES && p < BLOCK_SIZE * st.inodes[i].BlockCount()
    ensures var st1 := PokeByte(st, i, p, v);
            && FsInv(st1, owner) && st1.inodes == st.inodes
            && st1.freeBlocks == st.freeBlocks
            && (forall r :: InRange(r) ==> At(st1.inodes, st1.disk, r) == At(st.inodes, st.disk, r))
            && p / BLOCK_SIZE < MAX_BLOCKS && At(st.inodes, st.disk, DataOf(i, p / BLOCK_SIZE)).Blk?
  {
    assert Shape(st, i);
    var st1 := PokeByte(st, i, p, v);
    var rp := DataOf(i, p / BLOCK_SIZE);
    var n := At(st.inodes, st.disk, rp).n;
    assert owner[n] == Some(rp);
    forall r | InRange(r) ensures At(st1.inodes, st1.disk, r) == At(st.inodes, st.disk, r) {
      forall q: Ptr ensures Entries(st1.disk, q) == Entries(st.disk, q) {}
    }
    forall i' | 0 <= i' < INODES ensures Shape(st1, i') { assert Shape(st, i'); ShapeFrame(st, st1, i'); }
  }

  /** What one EnsureBlock does: it succeeds with byte p's block present and nothing else
      changed, or refuses because no block can be had. */
  lemma {:induction false} EnsureBlockFrame(st: State, owner: Owners, i: nat, p: nat) returns (owner1: Owners)
    requires FsInv(st, owner) && i < INODES && st.inodes[i].Live()
    requires p <= BLOCK_SIZE * st.inodes[i].BlockCount()
    ensures var n := st.inodes[i].BlockCount();
            match EnsureBlock(st, i, p / BLOCK_SIZE)
            case None => p == BLOCK_SIZE * n && Refused(n, st.freeBlocks)
            case Some(st1) =>
              && FsInv(st1, owner1) && OnlyGrows(st, st1, i) && p < BLOCK_SIZE * st1.inodes[i].BlockCount()
              && (forall i' :: 0 <= i' < INODES ==> SameBytes(st, st1, i'))
              && st1.inodes[i].BlockCount() == (if p < BLOCK_SIZE * n then n else n + 1)
              && (p < BLOCK_SIZE * n ==> st1 == st)
  {
    var n := st.inodes[i].BlockCount();
    assert Shape(st, i);
    owner1 := owner;
    if p < BLOCK_SIZE * n {
      assert At(st.inodes, st.disk, DataOf(i, p / BLOCK_SIZE)).Blk?;
    } else {
      assert p / BLOCK_SIZE == n;
      if n < MAX_BLOCKS { assert !At(st.inodes, st.disk, DataOf(i, n)).Blk?; }
      if AllocateBlock(st, i).Some? {
        owner1 := AllocateBlockGrows(st, owner, i);
        forall i' | 0 <= i' < INODES ensures SameBytes(st, AllocateBlock(st, i).value, i') {
          KeepsDataSameBytes(st, owner, AllocateBlock(st, i).value, i');
        }
      }
    }
  }

  /** `st1` is `st` with the bytes `s` at position `p` of inode `i`: all other bytes of all
      files are the same, and the file has at least the blocks it had. */
  ghost predicate Wrote(st: State, st1: State, i: nat, p: nat, s: seq<Byte>)
    requires i < INODES
  {
    var n, n1 := st.inodes[i].BlockCount(), st1.inodes[i].BlockCount();
    && n <= n1 && p + |s| <= BLOCK_SIZE * n1
    && (forall q :: p <= q < p + |s| ==> ByteAt(st1, i, q) == s[q - p])
    && (forall q :: 0 <= q < BLOCK_SIZE * n && !(p <= q < p + |s|) ==> ByteAt(st1, i, q) == ByteAt(st, i, q))
    && (forall i' :: 0 <= i' < INODES && i' != i ==> SameBytes(st, st1, i'))
    && OnlyGrows(st, st1, i)
  }

  lemma {:induction false} WroteCompose(st: State, st1: State, st2: State, i: nat, p: nat, s: seq<Byte>, s': seq<Byte>)
    requires i < INODES && Wrote(st, st1, i, p, s) && Wrote(st1, st2, i, p + |s|, s')
    ensures Wrote(st, st2, i, p, s + s')
  {
    hide ByteAt;
    forall i' | 0 <= i' < INODES && i' != i ensures SameBytes(st, st2, i') {
      assert SameBytes(st, st1, i') && SameBytes(st1, st2, i');
      forall q | 0 <= q < BLOCK_SIZE * st.inodes[i'].BlockCount() ensures ByteAt(st2, i', q) == ByteAt(st, i', q) {
        assert ByteAt(st1, i', q) == ByteAt(st, i', q);
      }
    }
    forall q | 0 <= q < BLOCK_SIZE * st.inodes[i].BlockCount() && !(p <= q < p + |s + s'|)
      ensures ByteAt(st2, i, q) == ByteAt(st, i, q) {
      assert ByteAt(st1, i, q) == ByteAt(st, i, q);
    }
    forall q | p <= q < p + |s + s'| ensures ByteAt(st2, i, q) == (s + s')[q - p] {
      if q < p + |s| { assert ByteAt(st1, i, q) == s[q - p]; }
    }
  }

  /** One round of the byte loop. */
  lemma {:induction false} PutByteWrites(st: State, owner: Owners, i: nat, p: nat, v: Byte) returns (owner1: Owners)
    requires FsInv(st, owner) && i < INODES && st.inodes[i].Live()
    requires p <= BLOCK_SIZE * st.inodes[i].BlockCount() && EnsureBlock(st, i, p / BLOCK_SIZE).Some?
    ensures var st2 := PokeByte(EnsureBlock(st, i, p / BLOCK_SIZE).value, i, p, v);
            FsInv(st2, owner1) && Wrote(st, st2, i, p, [v])
  {
    hide FsInv, EnsureBlock, PokeByte, ByteAt;
    owner1 := EnsureBlockFrame(st, owner, i, p);
    var st1 := EnsureBlock(st, i, p / BLOCK_SIZE).value;
    PokeByteFrame(st1, owner1, i, p, v);
    var st2 := PokeByte(st1, i, p, v);
    assert Wrote(st, st1, i, p, []) by { assert SameBytes(st, st1, i); }
    assert Wrote(st1, st2, i, p, [v]);
    WroteCompose(st, st1, st2, i, p, [], [v]);
    assert [] + [v] == [v];
  }

  /** The byte loop puts the first w bytes of s at p, in this file only; it stops short
      only at a block boundary where allocate_block refuses. */
  lemma {:induction false} PutBytesWrites(st: State, owner: Owners, i: nat, p: nat, s: seq<Byte>) returns (owner1: Owners)
    requires FsInv(st, owner) && i < INODES && st.inodes[i].Live()
    requires p <= BLOCK_SIZE * st.inodes[i].BlockCount()
    ensures var (st1, w) := PutBytes(st, i, p, s);
            && FsInv(st1, owner1) && w <= |s| && Wrote(st, st1, i, p, s[..w])
            && (w < |s| ==> p + w == BLOCK_SIZE * st1.inodes[i].BlockCount()
                            && Refused(st1.inodes[i].BlockCount(), st1.freeBlocks))
    decreases |s|
  {
    hide FsInv, EnsureBlock, PokeByte, ByteAt;
    owner1 := owner;
    if s != [] {
      match EnsureBlock(st, i, p / BLOCK_SIZE)
      case None =>
        var o1 := EnsureBlockFrame(st, owner, i, p);
      case Some(st1) =>
        var o1 := PutByteWrites(st, owner, i, p, s[0]);
        var st2 := PokeByte(st1, i, p, s[0]);
        owner1 := PutBytesWrites(st2, o1, i, p + 1, s[1..]);
        var (st3, w) := PutBytes(st2, i, p + 1, s[1..]);
        WroteCompose(st, st2, st3, i, p, [s[0]], s[1..][..w]);
        assert [s[0]] + s[1..][..w] == s[..w + 1];
    }
  }

  function Splice(c: seq<Byte>, p: nat, s: seq<Byte>): seq<Byte>
    requires p <= |c|
  {
    c[..p] + s + if p + |s| < |c| then c[p + |s|..] else []
  }

  lemma SpliceNone(c: seq<Byte>, p: nat)
    requires p <= |c|
    ensures Splice(c, p, []) == c
  {
  }

  lemma SpliceSize(c: seq<Byte>, p: nat, s: seq<Byte>)
    requires p <= |c|
    ensures |Splice(c, p, s)| >= |c| && |Splice(c, p, s)| >= p + |s|
  {
  }

  lemma MoreBlocks(st: State, st1: State, i: nat, p: nat, s: seq<Byte>)
    requires i < INODES && Wrote(st, st1, i, p, s)
    ensures st.inodes[i].BlockCount() <= st1.inodes[i].BlockCount()
  {
  }

  /** write_file at p <= size splices the written prefix of s into the content and changes
      no other file. It returns fewer than |s| bytes only when the next block is refused,
      and ERROR only when nothing could be written at all. */
  lemma {:induction false} WriteFileSplices(st: State, owner: Owners, i: nat, p: nat, s: seq<Byte>, byUser: bool)
    returns (owner1: Owners)
    requires FsInv(st, owner) && i < INODES && st.inodes[i].Live() && p <= st.inodes[i].size
    ensures var (st1, w) := WriteFile(st, i, p, s, byUser);
            && FsInv(st1, owner1) && OnlyWrites(st, st1, i)
            && (forall i' :: 0 <= i' < INODES && i' != i ==> Content(st1, i') == Content(st, i'))
            && -1 <= w <= |s|
            && Content(st1, i) == (if w == -1 then Content(st, i) else Splice(Content(st, i), p, s[..w]))
            && (w == -1 <==> (byUser && st.inodes[i].kind.Dir?)
                             || (p == BLOCK_SIZE * st.inodes[i].BlockCount() && Refused(st.inodes[i].BlockCount(), st.freeBlocks)))
            && (w == -1 ==> st1 == st)
            && (0 <= w < |s| ==> p + w == BLOCK_SIZE * st1.inodes[i].BlockCount()
                                 && Refused(st1.inodes[i].BlockCount(), st1.freeBlocks))
            && (w >= 0 ==> st1.inodes[i].lastOffset == st1.inodes[i].size % BLOCK_SIZE
                           && p < BLOCK_SIZE * st1.inodes[i].BlockCount())
  {
    hide FsInv, EnsureBlock, AllocateBlock, ByteAt, PutBytes, Content, Splice, Wrote, Shape;
    owner1 := owner;
    InvShape(st, owner);
    if byUser && st.inodes[i].kind.Dir? { return; }
    var o := FirstBlock(st, owner, i, p);
    FirstBlockTest(st, owner, i, p);
    if EnsureBlock(st, i, p / BLOCK_SIZE).None? { return; }
    var st1 := EnsureBlock(st, i, p / BLOCK_SIZE).value;
    owner1 := PutBytesWrites(st1, o, i, p, s);
    var (st2, w) := PutBytes(st1, i, p, s);
    WroteCompose(st, st1, st2, i, p, [], s[..w]);
    assert [] + s[..w] == s[..w];
    assert p < BLOCK_SIZE * st2.inodes[i].BlockCount() by { MoreBlocks(st1, st2, i, p, s[..w]); }
    SizeAfterWrite(st, st2, owner1, i, p, s[..w]);
  }

  /** Only inode `i`'s size, pointers and block counts may differ. */
  ghost predicate OnlyWrites(st: State, st1: State, i: nat)
    requires i < INODES
  {
    && (forall i' :: 0 <= i' < INODES && i' != i ==> st1.inodes[i'] == st.inodes[i'])
    && st1.inodes[i] == st.inodes[i].(size := st1.inodes[i].size, loc := st1.inodes[i].loc,
                                      blockNumber := st1.inodes[i].blockNumber, lastOffset := st1.inodes[i].lastOffset)
    && st1.freeInodes == st.freeInodes && st1.firstInode == st.firstInode
  }

  /** The block write_file starts in, present or newly allocated. */
  lemma {:induction false} FirstBlock(st: State, owner: Owners, i: nat, p: nat) returns (owner1: Owners)
    requires FsInv(st, owner) && i < INODES && st.inodes[i].Live() && p <= st.inodes[i].size
    ensures var n := st.inodes[i].BlockCount();
            match EnsureBlock(st, i, p / BLOCK_SIZE)
            case None => p == BLOCK_SIZE * n && Refused(n, st.freeBlocks)
            case Some(st1) =>
              && FsInv(st1, owner1) && Wrote(st, st1, i, p, []) && p < BLOCK_SIZE * st1.inodes[i].BlockCount()
              && !(p == BLOCK_SIZE * n && Refused(n, st.freeBlocks))
  {
    hide FsInv, EnsureBlock, ByteAt, AllocateBlock, At;
    InvShape(st, owner);
    assert p <= BLOCK_SIZE * st.inodes[i].BlockCount() by { assert Shape(st, i); }
    owner1 := EnsureBlockFrame(st, owner, i, p);
    EnsureBlockRefuses(st, i, p);
    if EnsureBlock(st, i, p / BLOCK_SIZE).Some? {
      assert SameBytes(st, EnsureBlock(st, i, p / BLOCK_SIZE).value, i);
    }
  }

  lemma EnsureBlockRefuses(st: State, i: nat, p: nat)
    requires i < INODES && st.inodes[i].Live() && Shape(st, i)
    ensures p == BLOCK_SIZE * st.inodes[i].BlockCount() && Refused(st.inodes[i].BlockCount(), st.freeBlocks) ==>
              EnsureBlock(st, i, p / BLOCK_SIZE).None?
  {
    var n := st.inodes[i].BlockCount();
    if p == BLOCK_SIZE * n && n < MAX_BLOCKS { assert !At(st.inodes, st.disk, DataOf(i, n)).Blk?; }
  }

  /** The test of location[0] and the lookup of the first block to write come to one EnsureBlock. */
  lemma {:induction false} FirstBlockTest(st: State, owner: Owners, i: nat, p: nat)
    requires FsInv(st, owner) && i < INODES && st.inodes[i].Live() && p <= st.inodes[i].size
    ensures match (if st.inodes[i].loc[0].Null? then AllocateBlock(st, i) else Some(st))
            case None => EnsureBlock(st, i, p / BLOCK_SIZE).None?
            case Some(st0) => EnsureBlock(st0, i, p / BLOCK_SIZE) == EnsureBlock(st, i, p / BLOCK_SIZE)
                              && (EnsureBlock(st, i, p / BLOCK_SIZE).None? ==> st0 == st)
  {
    assert Shape(st, i);
    assert At(st.inodes, st.disk, DataOf(i, 0)) == st.inodes[i].loc[0];
    if st.inodes[i].loc[0].Null? && AllocateBlock(st, i).Some? {
      assert p == 0;
      var owner1 := AllocateBlockGrows(st, owner, i);
      hide AllocateBlock, FsInv;
      var st1 := AllocateBlock(st, i).value;
      assert At(st1.inodes, st1.disk, DataOf(i, 0)).Blk?;
    }
  }

  lemma {:induction false} SizeAfterWrite(st: State, st1: State, owner: Owners, i: nat, p: nat, s: seq<Byte>)
    requires i < INODES && st.inodes[i].Live() && p <= st.inodes[i].size && Shape(st, i)
    requires FsInv(st1, owner) && Wrote(st, st1, i, p, s)
    requires forall i' :: 0 <= i' < INODES ==> Shape(st, i')
    ensures var st2 := SetSize(st1, i, Max(st1.inodes[i].size, p + |s|));
            && FsInv(st2, owner) && OnlyWrites(st, st2, i)
            && Content(st2, i) == Splice(Content(st, i), p, s)
            && (forall i' :: 0 <= i' < INODES && i' != i ==> Content(st2, i') == Content(st, i'))
  {
    var st2 := SetSize(st1, i, Max(st1.inodes[i].size, p + |s|));
    SetSizeKeepsInv(st1, owner, i, Max(st1.inodes[i].size, p + |s|));
    forall i', q: nat | 0 <= i' < INODES ensures ByteAt(st2, i', q) == ByteAt(st1, i', q) {}
    hide FsInv, SetSize, ByteAt, Splice;
    var c, c2 := Content(st, i), Content(st2, i);
    forall q | 0 <= q < |c2| ensures c2[q] == if p <= q < p + |s| then s[q - p] else c[q] {}
    SpliceByIndex(c, c2, p, s);
    forall i' | 0 <= i' < INODES && i' != i ensures Content(st2, i') == Content(st, i') {
      assert Shape(st, i') && SameBytes(st, st1, i');
    }
  }

  lemma SpliceByIndex(c: seq<Byte>, c1: seq<Byte>, p: nat, s: seq<Byte>)
    requires p <= |c| && |c1| == Max(|c|, p + |s|)
    requires forall q :: 0 <= q < |c1| ==> c1[q] == if p <= q < p + |s| then s[q - p] else c[q]
    ensures c1 == Splice(c, p, s)
  {
  }

  lemma {:induction false} SetSizeKeepsInv(st: State, owner: Owners, i: nat, size: nat)
    requires FsInv(st, owner) && i < INODES && size <= BLOCK_SIZE * st.inodes[i].BlockCount()
    ensures FsInv(SetSize(st, i, size), owner) && OnlyWrites(st, SetSize(st, i, size), i)
    ensures SetSize(st, i, size).inodes[i].size == size
  {
    var st1 := SetSize(st, i, size);
    forall r | InRange(r) ensures At(st1.inodes, st1.disk, r) == At(st.inodes, st.disk, r) {}
    forall i' | 0 <= i' < INODES ensures Shape(st1, i') { assert Shape(st, i'); }
  }
}
