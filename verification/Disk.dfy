/** The ramdisk's data: blocks, inodes, superblock counters, and the lookup of a
    file's blocks through the direct, single-indirect and double-indirect levels. */
module Disk {

  const BLOCK_SIZE := 256
  const SPACE := 7931             // allocatable blocks
  const BITMAP_BITS := 8192       // 1024 bitmap bytes
  const INODES := 1024
  const MAX_FILE_SIZE := 1067008
  const MAX_BLOCKS := 4168        // MAX_FILE_SIZE / BLOCK_SIZE == 8 + 64 + 64 * 64
  const NO_BLOCK := 65535         // (uint16_t)-1

  datatype Option<+T> = None | Some(value: T)

  function Min(a: int, b: int): int { if a < b then a else b }

  function Max(a: int, b: int): int { if a < b then b else a }

  function Repeat<T>(x: T, n: nat): (s: seq<T>)
    ensures |s| == n && forall i :: 0 <= i < n ==> s[i] == x
  {
    seq(n, _ => x)
  }

  type Byte = x: int | 0 <= x < 256

  /** A block address: NULL, or block `n` of the allocatable space. */
  datatype Ptr = Null | Blk(n: nat)

  type Bytes = s: seq<Byte> | |s| == 256 witness Repeat(0, 256)
  type Ptrs = s: seq<Ptr> | |s| == 64 witness Repeat(Null, 64)
  type Locs = s: seq<Ptr> | |s| == 10 witness Repeat(Null, 10)

  const ZEROS: Bytes := Repeat(0, 256)
  const NULLS: Ptrs := Repeat(Null, 64)
  const NO_LOCS: Locs := Repeat(Null, 10)

  /** An all-zero block reads as 256 zero bytes or as 64 NULL pointers; a written
      block holds either bytes or pointers. */
  datatype Block = Zero | Data(bytes: Bytes) | Index(ptrs: Ptrs)

  function BytesOf(b: Block): Bytes {
    if b.Data? then b.bytes else ZEROS
  }

  function PtrsOf(b: Block): Ptrs {
    if b.Index? then b.ptrs else NULLS
  }

  datatype Kind = Nul | Dir | Reg

  type LastBlock = x: int | -1 <= x

  /** `operation` is 0x100 for an inode in use and 0 for a free one. `blockNumber` is
      the index of the last data block, -1 when there is none. */
  datatype Inode = Inode(kind: Kind, size: nat, loc: Locs, operation: nat, parent: int,
                         blockNumber: LastBlock, lastOffset: int, mode: int)
  {
    predicate Live() { operation != 0 }
    function BlockCount(): int { if Live() then blockNumber + 1 else 0 }
  }

  /** An inode after it was freed, and one of the zeroed table. */
  const FREE_INODE := Inode(Nul, 0, NO_LOCS, 0, 0, 0, 0, -1)
  const ZERO_INODE := FREE_INODE.(mode := 0)

  type Bitmap = s: seq<bool> | |s| == BITMAP_BITS witness Repeat(false, 8192)
  type Space = s: seq<Block> | |s| == SPACE witness Repeat(Zero, 7931)
  type InodeTable = s: seq<Inode> | |s| == INODES
    witness Repeat(FREE_INODE, 1024)

  datatype State = State(bits: Bitmap, freeBlocks: int, firstBlock: int,
                         inodes: InodeTable, freeInodes: int, firstInode: int, disk: Space)

  /** The 64 pointers of the index block at `p`; a NULL index has no entries. */
  function Entries(disk: Space, p: Ptr): Ptrs {
    if p.Blk? && p.n < SPACE then PtrsOf(disk[p.n]) else NULLS
  }

  /** What a block can be used for: data block `k` of inode `i`, its single-indirect
      index, its double-indirect index, or second-level index `j`. */
  datatype Role = DataOf(i: nat, k: nat) | SingleOf(i: nat) | DoubleOf(i: nat) | SecondOf(i: nat, j: nat)

  predicate InRange(r: Role) {
    && r.i < INODES
    && (r.DataOf? ==> r.k < MAX_BLOCKS)
    && (r.SecondOf? ==> r.j < 64)
  }

  /** The block inode `loc` uses in its second-level index slot `j`. */
  function Second(loc: Locs, disk: Space, j: nat): Ptr
    requires j < 64
  {
    Entries(disk, loc[9])[j]
  }

  /** Data block `k` of the file whose pointers are `loc`. */
  function Lookup(loc: Locs, disk: Space, k: nat): Ptr
    requires k < MAX_BLOCKS
  {
    if k < 8 then loc[k]
    else if k < 72 then Entries(disk, loc[8])[k - 8]
    else Entries(disk, Second(loc, disk, (k - 72) / 64))[(k - 72) % 64]
  }

  /** The block playing role `r`, if any. */
  function At(inodes: InodeTable, disk: Space, r: Role): Ptr
    requires InRange(r)
  {
    match r
    case DataOf(i, k) => Lookup(inodes[i].loc, disk, k)
    case SingleOf(i) => inodes[i].loc[8]
    case DoubleOf(i) => inodes[i].loc[9]
    case SecondOf(i, j) => Second(inodes[i].loc, disk, j)
  }

}
