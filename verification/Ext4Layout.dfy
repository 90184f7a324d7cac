/** The fixed offsets src/core/fs/ext4.cpp reads its disk at, and what its loops collect there. */
module Ext4Layout {
  import opened Machine32
  import opened Bytes

  const SECTOR := 512
  const ROOT_INODE := 256    // offset of the root inode in the inode table
  const INODE_STRIDE := 128  // sizeof(Ext4Inode), used for every other inode
  const INODE_SIZE_FIELD := 4
  const INODE_BLOCKS := 40
  const DIRECT_BLOCKS := 12
  const ENTRY_HEADER := 8    // sizeof(Ext4DirEntry) before the name
  const MAX_NAME := 63

  /** A file name as the code compares it: at most 63 bytes, none of them NUL. */
  type Name = n: seq<Byte> | |n| <= MAX_NAME && 0 !in n

  function Read16(m: seq<Byte>, a: int): int
    requires 0 <= a && a + 2 <= |m|
  {
    m[a] as int + 0x100 * (m[a + 1] as int)
  }

  // ----- Blocks -----

  predicate SectorsSized(disk: seq<seq<Byte>>) { forall i :: 0 <= i < |disk| ==> |disk[i]| == SECTOR }

  /** Byte `a` of the whole disk. */
  function DiskByte(disk: seq<seq<Byte>>, a: int): Byte
    requires SectorsSized(disk) && 0 <= a < |disk| * SECTOR
  {
    disk[a / SECTOR][a % SECTOR]
  }

  /** `b * n`: where block `b` starts, in blocks of `n`. */
  function Start(n: nat, b: nat): nat {
    if b == 0 then 0 else Start(n, b - 1) + n
  }

  lemma {:induction false} StartIs(n: nat, b: nat)
    ensures Start(n, b) == b * n
  {
    if b > 0 {
      StartIs(n, b - 1);
    }
  }

  lemma {:induction false} StartInSectors(n: nat, b: nat)
    ensures Start(n * SECTOR, b) == Start(n, b) * SECTOR
  {
    if b > 0 {
      StartInSectors(n, b - 1);
    }
  }

  /** Block `b` lies on the disk. */
  predicate OnDisk(disk: seq<seq<Byte>>, bs: int, b: int) {
    bs >= 0 && bs % SECTOR == 0 && 0 <= b && Start(bs / SECTOR, b + 1) <= |disk|
  }

  /** The sectors `from` to `to`, one behind the other. */
  function Sectors(disk: seq<seq<Byte>>, from: int, n: nat): seq<Byte>
    requires 0 <= from && from + n <= |disk|
  {
    if n == 0 then [] else Sectors(disk, from, n - 1) + disk[from + n - 1]
  }

  function BlockBytes(disk: seq<seq<Byte>>, bs: int, b: int): seq<Byte>
    requires OnDisk(disk, bs, b)
  {
    Sectors(disk, Start(bs / SECTOR, b), bs / SECTOR)
  }

  lemma {:induction false} SectorsAt(disk: seq<seq<Byte>>, from: int, n: nat, k: int)
    requires SectorsSized(disk) && 0 <= from && from + n <= |disk|
    ensures |Sectors(disk, from, n)| == n * SECTOR
    ensures 0 <= k < n * SECTOR ==> Sectors(disk, from, n)[k] == DiskByte(disk, from * SECTOR + k)
  {
    if n > 0 {
      SectorsAt(disk, from, n - 1, k);
      if (n - 1) * SECTOR <= k < n * SECTOR {
        assert from * SECTOR + k == (from + n - 1) * SECTOR + (k - (n - 1) * SECTOR);
      }
    }
  }

  lemma BlockSectors(disk: seq<seq<Byte>>, bs: int, n: nat, b: int, k: int)
    requires SectorsSized(disk) && OnDisk(disk, bs, b) && n == bs / SECTOR
    ensures bs == n * SECTOR && |BlockBytes(disk, bs, b)| == bs
    ensures 0 <= k < bs ==> Start(n, b) * SECTOR + k < |disk| * SECTOR
                            && BlockBytes(disk, bs, b)[k] == DiskByte(disk, Start(n, b) * SECTOR + k)
  {
    SectorsAt(disk, Start(n, b), n, k);
  }

  /** A block is a contiguous piece of the disk: its byte `k` is byte `b * bs + k`. */
  lemma BlockIsContiguous(disk: seq<seq<Byte>>, bs: int, b: int, k: int)
    requires SectorsSized(disk) && OnDisk(disk, bs, b)
    ensures |BlockBytes(disk, bs, b)| == bs && Start(bs, b) == b * bs
    ensures 0 <= k < bs ==> Start(bs, b) + k < |disk| * SECTOR
                            && BlockBytes(disk, bs, b)[k] == DiskByte(disk, Start(bs, b) + k) == DiskByte(disk, b * bs + k)
  {
    BlockSectors(disk, bs, bs / SECTOR, b, k);
    StartInSectors(bs / SECTOR, b);
    StartIs(bs, b);
  }

  // ----- Directories -----

  datatype DirEntry = DirEntry(inode: Word, name: Name, isDir: bool)

  function EntryInode(dir: seq<Byte>, at: nat): Word requires at + ENTRY_HEADER <= |dir| { Read32(dir, at) }
  function EntryLength(dir: seq<Byte>, at: nat): int requires at + ENTRY_HEADER <= |dir| { Read16(dir, at + 4) }
  function EntryNameLength(dir: seq<Byte>, at: nat): int requires at + ENTRY_HEADER <= |dir| { dir[at + 6] }

  /** The entry at `at` and its name lie within the block. */
  predicate EntryFits(dir: seq<Byte>, at: nat) {
    at + ENTRY_HEADER <= |dir| && at + ENTRY_HEADER + EntryNameLength(dir, at) <= |dir|
  }

  /** Every entry the walk from `at` reaches lies within the block. */
  predicate WalkFits(dir: seq<Byte>, limit: int, at: nat)
    decreases limit - at
  {
    at >= limit ||
    (EntryFits(dir, at) && (EntryLength(dir, at) == 0 || WalkFits(dir, limit, at + EntryLength(dir, at))))
  }

  predicate Listed(dir: seq<Byte>, at: nat)
    requires EntryFits(dir, at)
  {
    EntryInode(dir, at) != 0 && EntryNameLength(dir, at) > 0
  }

  /** The entry at `at`, its name cut at 63 bytes and at the first NUL. */
  function EntryAt(dir: seq<Byte>, at: nat): DirEntry
    requires EntryFits(dir, at)
  {
    var len := if EntryNameLength(dir, at) > MAX_NAME then MAX_NAME else EntryNameLength(dir, at);
    DirEntry(EntryInode(dir, at), CStr(dir[at + ENTRY_HEADER..at + ENTRY_HEADER + len]), dir[at + 7] == 2)
  }

  /** What the walk from `at` lists, up to `limit` or an entry of length 0. */
  function Entries(dir: seq<Byte>, limit: int, at: nat): seq<DirEntry>
    requires WalkFits(dir, limit, at)
    decreases limit - at
  {
    if at >= limit then []
    else if EntryLength(dir, at) == 0 then []
    else
      (if Listed(dir, at) then [EntryAt(dir, at)] else [])
      + Entries(dir, limit, at + EntryLength(dir, at))
  }

  // ----- Files -----

  /** The inode at `at` lies within the inode-table block. */
  predicate InodeFits(table: seq<Byte>, at: int) { 0 <= at && at + INODE_STRIDE <= |table| }

  function InodeSize(table: seq<Byte>, at: int): Word
    requires InodeFits(table, at)
  {
    Read32(table, at + INODE_SIZE_FIELD)
  }

  function InodeBlock(table: seq<Byte>, at: int, i: int): Word
    requires InodeFits(table, at) && 0 <= i < DIRECT_BLOCKS
  {
    Read32(table, at + INODE_BLOCKS + 4 * i)
  }

  /** How many of the direct pointers come before the first null one, from `i` on. */
  function BlocksFrom(table: seq<Byte>, at: int, i: nat): (n: nat)
    requires InodeFits(table, at) && i <= DIRECT_BLOCKS
    ensures i + n <= DIRECT_BLOCKS
    decreases DIRECT_BLOCKS - i
  {
    if i == DIRECT_BLOCKS || InodeBlock(table, at, i) == 0 then 0 else 1 + BlocksFrom(table, at, i + 1)
  }

  /** The direct blocks before the first null pointer are on the disk. */
  predicate FileFits(disk: seq<seq<Byte>>, bs: int, table: seq<Byte>, at: int) {
    && SectorsSized(disk) && InodeFits(table, at)
    && forall i :: 0 <= i < BlocksFrom(table, at, 0) ==> OnDisk(disk, bs, InodeBlock(table, at, i))
  }

  /** The contents of the direct blocks. */
  function FileBlocks(disk: seq<seq<Byte>>, bs: int, table: seq<Byte>, at: int): (r: seq<seq<Byte>>)
    requires FileFits(disk, bs, table, at)
    ensures |r| == BlocksFrom(table, at, 0)
  {
    seq(BlocksFrom(table, at, 0), i requires 0 <= i < BlocksFrom(table, at, 0) => BlockBytes(disk, bs, InodeBlock(table, at, i)))
  }

  function Concat(parts: seq<seq<Byte>>): seq<Byte> {
    if parts == [] then [] else Concat(parts[..|parts| - 1]) + parts[|parts| - 1]
  }

  /** The first `n` direct blocks, one behind the other. */
  function Data(disk: seq<seq<Byte>>, bs: int, table: seq<Byte>, at: int, n: nat): seq<Byte>
    requires FileFits(disk, bs, table, at) && n <= BlocksFrom(table, at, 0)
  {
    Concat(FileBlocks(disk, bs, table, at)[..n])
  }

  function Cut(s: seq<Byte>, n: nat): seq<Byte> { if n < |s| then s[..n] else s }

  /** A file's bytes: its direct blocks before the first null pointer, cut at its size. */
  function FileBytes(disk: seq<seq<Byte>>, bs: int, table: seq<Byte>, at: int): seq<Byte>
    requires FileFits(disk, bs, table, at)
  {
    Cut(Data(disk, bs, table, at, BlocksFrom(table, at, 0)), InodeSize(table, at))
  }
}
