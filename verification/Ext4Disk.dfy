/** The loops of src/core/fs/ext4.cpp over directory blocks, inodes and sectors. */
module Ext4Disk {
  import opened Machine32
  import opened Bytes
  import opened Ext4Layout
  import opened VirtualFiles

  /** An element of a `FileList`. */
  datatype ListEntry = ListEntry(name: Name, isDir: bool, size: int)

  function DiskItem(e: DirEntry): ListEntry { ListEntry(e.name, e.isDir, 0) }

  function FileItem(f: VFile): ListEntry { ListEntry(f.name, false, |Content(f)|) }

  /** The disk's entries, then the virtual files. */
  function FileList(disk: seq<DirEntry>, files: seq<VFile>): seq<ListEntry> {
    seq(|disk|, i requires 0 <= i < |disk| => DiskItem(disk[i]))
    + seq(|files|, i requires 0 <= i < |files| => FileItem(files[i]))
  }

  // ----- Loops over a directory block -----

  lemma EntriesStep(dir: seq<Byte>, limit: int, at: nat)
    requires WalkFits(dir, limit, at) && at < limit && EntryLength(dir, at) != 0
    ensures Entries(dir, limit, at) ==
            (if Listed(dir, at) then [EntryAt(dir, at)] else []) + Entries(dir, limit, at + EntryLength(dir, at))
  {}

  /** The counting pass. */
  method CountEntries(dir: array<Byte>, limit: int) returns (count: nat)
    requires WalkFits(dir[..], limit, 0)
    ensures count == |Entries(dir[..], limit, 0)|
  {
    var offset := 0;
    count := 0;
    while offset < limit
      invariant offset >= 0 && WalkFits(dir[..], limit, offset)
      invariant count + |Entries(dir[..], limit, offset)| == |Entries(dir[..], limit, 0)|
      decreases limit - offset
    {
      var length := Read16(dir[..], offset + 4);
      if length == 0 { break; }
      EntriesStep(dir[..], limit, offset);
      if Read32(dir[..], offset) != 0 && dir[offset + 6] > 0 {
        count := count + 1;
      }
      offset := offset + length;
    }
  }

  /** Copy an entry's name into a 64-byte buffer and end it with a NUL. */
  method ReadName(dir: array<Byte>, at: nat) returns (name: Name)
    requires EntryFits(dir[..], at)
    ensures name == EntryAt(dir[..], at).name
  {
    var len := dir[at + 6];
    if len > 63 { len := 63; }
    var buffer := new Byte[64];
    var i := 0;
    while i < len
      invariant 0 <= i <= len
      invariant forall k :: 0 <= k < i ==> buffer[k] == dir[at + ENTRY_HEADER + k]
    {
      buffer[i] := dir[at + 8 + i];
      i := i + 1;
    }
    buffer[len] := 0;
    ghost var raw := dir[at + ENTRY_HEADER..at + ENTRY_HEADER + len];
    assert buffer[..] == raw + [0] + buffer[len + 1..];
    CStrStops(raw, buffer[len + 1..]);
    name := CStr(buffer[..]);
  }

  /** Read one directory entry: whether it is listed, and as what. */
  method ReadEntry(dir: array<Byte>, at: nat) returns (length: int, item: Option<ListEntry>)
    requires EntryFits(dir[..], at)
    ensures length == EntryLength(dir[..], at)
    ensures item == if Listed(dir[..], at) && length != 0 then Some(DiskItem(EntryAt(dir[..], at))) else None
  {
    length := Read16(dir[..], at + 4);
    item := None;
    if length != 0 && Read32(dir[..], at) != 0 && dir[at + 6] > 0 {
      var name := ReadName(dir, at);
      item := Some(ListEntry(name, dir[at + 7] == 2, 0));
    }
  }

  /** What a pass has behind it after one more entry. */
  function Passed(d: seq<Byte>, at: nat, done: seq<DirEntry>): seq<DirEntry>
    requires EntryFits(d, at)
  {
    if Listed(d, at) then done + [EntryAt(d, at)] else done
  }

  lemma PassStep(d: seq<Byte>, limit: int, at: nat, done: seq<DirEntry>)
    requires WalkFits(d, limit, at) && at < limit && EntryLength(d, at) != 0
    ensures done + Entries(d, limit, at) == Passed(d, at, done) + Entries(d, limit, at + EntryLength(d, at))
  {
    EntriesStep(d, limit, at);
    var rest := Entries(d, limit, at + EntryLength(d, at));
    if Listed(d, at) {
      assert done + ([EntryAt(d, at)] + rest) == done + [EntryAt(d, at)] + rest;
    } else {
      assert [] + rest == rest;
    }
  }

  /** The list starts with these entries. */
  ghost predicate Filled(list: array<ListEntry>, done: seq<DirEntry>)
    reads list
  {
    |done| <= list.Length && forall i :: 0 <= i < |done| ==> list[i] == DiskItem(done[i])
  }

  /** Put an entry behind those that are in the list. */
  method AddEntry(list: array<ListEntry>, ghost done: seq<DirEntry>, count: nat, item: ListEntry, ghost e: DirEntry)
    requires Filled(list, done) && count == |done| < list.Length && item == DiskItem(e)
    modifies list
    ensures Filled(list, done + [e])
  {
    list[count] := item;
  }

  /** The filling pass writes exactly as many entries as were counted. */
  method FillEntries(dir: array<Byte>, limit: int, list: array<ListEntry>) returns (count: nat)
    requires WalkFits(dir[..], limit, 0) && |Entries(dir[..], limit, 0)| <= list.Length
    modifies list
    ensures count == |Entries(dir[..], limit, 0)|
    ensures forall i :: 0 <= i < count ==> list[i] == DiskItem(Entries(dir[..], limit, 0)[i])
  {
    ghost var d := dir[..];
    ghost var all, done := Entries(d, limit, 0), [];
    assert done + all == all;
    var offset := 0;
    count := 0;
    while offset < limit
      invariant offset >= 0 && dir[..] == d && WalkFits(d, limit, offset)
      invariant count == |done| && done + Entries(d, limit, offset) == all && Filled(list, done)
      decreases limit - offset
    {
      var length, item := ReadEntry(dir, offset);
      if length == 0 { break; }
      PassStep(d, limit, offset, done);
      if item.Some? {
        AddEntry(list, done, count, item.value, EntryAt(d, offset));
        count := count + 1;
      }
      done := Passed(d, offset, done);
      offset := offset + length;
    }
    assert done + [] == done;
  }

  /** The inode number of the first entry with this name, or 0. */
  function DiskFind(es: seq<DirEntry>, name: Name): (r: Word)
  {
    if es == [] then 0 else if es[0].name == name then es[0].inode else DiskFind(es[1..], name)
  }

  lemma DiskFindStep(d: seq<Byte>, limit: int, at: nat, name: Name)
    requires WalkFits(d, limit, at) && at < limit && EntryLength(d, at) != 0
    ensures DiskFind(Entries(d, limit, at), name) ==
            if Listed(d, at) && EntryAt(d, at).name == name then EntryInode(d, at)
            else DiskFind(Entries(d, limit, at + EntryLength(d, at)), name)
  {
    EntriesStep(d, limit, at);
    var rest := Entries(d, limit, at + EntryLength(d, at));
    if Listed(d, at) {
      assert ([EntryAt(d, at)] + rest)[1..] == rest;
    } else {
      assert [] + rest == rest;
    }
  }

  method FindOnDisk(dir: array<Byte>, limit: int, name: Name) returns (inode: Word)
    requires WalkFits(dir[..], limit, 0)
    ensures inode == DiskFind(Entries(dir[..], limit, 0), name)
  {
    ghost var d := dir[..];
    var offset := 0;
    inode := 0;
    while offset < limit
      invariant offset >= 0 && WalkFits(d, limit, offset) && inode == 0
      invariant DiskFind(Entries(d, limit, offset), name) == DiskFind(Entries(d, limit, 0), name)
      decreases limit - offset
    {
      var length := Read16(dir[..], offset + 4);
      if length == 0 { break; }
      DiskFindStep(d, limit, offset, name);
      if Read32(dir[..], offset) != 0 && dir[offset + 6] > 0 {
        var entryName := ReadName(dir, offset);
        if entryName == name {
          return Read32(dir[..], offset);
        }
      }
      offset := offset + length;
    }
  }

  // ----- Reading blocks -----

  /** One sector to an offset of a buffer. */
  method ReadSector(sector: seq<Byte>, buf: array<Byte>, at: nat)
    requires |sector| == SECTOR && at + SECTOR <= buf.Length
    modifies buf
    ensures buf[at..at + SECTOR] == sector
    ensures buf[..at] == old(buf[..at])
  {
    var k := 0;
    while k < 512
      invariant 0 <= k <= 512
      invariant buf[at..at + k] == sector[..k] && buf[..at] == old(buf[..at])
    {
      buf[at + k] := sector[k];
      k := k + 1;
    }
  }

  /** Some sectors into a new buffer. */
  method ReadSectors(disk: seq<seq<Byte>>, start: nat, sectors: nat) returns (buf: array<Byte>)
    requires SectorsSized(disk) && start + sectors <= |disk|
    ensures fresh(buf) && buf[..] == Sectors(disk, start, sectors)
  {
    buf := new Byte[sectors * SECTOR];
    var i := 0;
    while i < sectors
      invariant 0 <= i <= sectors
      invariant buf[..i * SECTOR] == Sectors(disk, start, i)
    {
      ReadSector(disk[start + i], buf, i * 512);
      SectorsAt(disk, start, i, 0);
      assert buf[..(i + 1) * SECTOR] == buf[..i * SECTOR] + buf[i * SECTOR..(i + 1) * SECTOR];
      i := i + 1;
    }
    assert buf[..sectors * SECTOR] == buf[..];
  }

  /** `ReadFSBlock` into a new buffer. */
  method ReadBlock(disk: seq<seq<Byte>>, bs: int, b: int) returns (buf: array<Byte>)
    requires SectorsSized(disk) && OnDisk(disk, bs, b)
    ensures fresh(buf) && buf[..] == BlockBytes(disk, bs, b)
  {
    var sectors := bs / 512;
    StartIs(sectors, b);
    buf := ReadSectors(disk, b * sectors, sectors);
  }

  lemma ConcatStep(parts: seq<seq<Byte>>, n: nat)
    requires n < |parts|
    ensures Concat(parts[..n + 1]) == Concat(parts[..n]) + parts[n]
  {
    assert parts[..n + 1][..n] == parts[..n];
  }

  lemma {:induction false} ConcatPrefix(parts: seq<seq<Byte>>, n: nat, c: nat)
    requires n <= c <= |parts|
    ensures Concat(parts[..n]) <= Concat(parts[..c])
    decreases c
  {
    if n < c {
      ConcatPrefix(parts, n, c - 1);
      ConcatStep(parts, c - 1);
    }
  }

  /** Blocks behind the ones read so far only extend the data. */
  lemma DataExtends(disk: seq<seq<Byte>>, bs: int, table: seq<Byte>, at: int, n: nat)
    requires FileFits(disk, bs, table, at) && n <= BlocksFrom(table, at, 0)
    ensures Data(disk, bs, table, at, n) <= Data(disk, bs, table, at, BlocksFrom(table, at, 0))
  {
    ConcatPrefix(FileBlocks(disk, bs, table, at), n, BlocksFrom(table, at, 0));
  }

  /** The blocks counted from the start, as far as none is null. */
  lemma {:induction false} BlocksCounted(table: seq<Byte>, at: int, i: nat, b: nat)
    requires InodeFits(table, at) && i <= b <= DIRECT_BLOCKS
    requires forall k :: i <= k < b ==> InodeBlock(table, at, k) != 0
    ensures BlocksFrom(table, at, i) == b - i + BlocksFrom(table, at, b)
    decreases b - i
  {
    if i < b {
      BlocksCounted(table, at, i + 1, b);
    }
  }

  lemma CutPrefix(a: seq<Byte>, b: seq<Byte>, n: nat)
    requires a <= b
    ensures |Cut(a, n)| <= |Cut(b, n)|
    ensures |Cut(a, n)| >= n ==> Cut(a, n) == Cut(b, n)
  {}

  /** None of the first `b` direct pointers is null. */
  ghost predicate NoneNull(t: seq<Byte>, at: int, b: nat)
    requires InodeFits(t, at) && b <= DIRECT_BLOCKS
  {
    forall k :: 0 <= k < b ==> InodeBlock(t, at, k) != 0
  }

  /** The block behind the first `b` ones, if the file has it. */
  lemma NextBlock(disk: seq<seq<Byte>>, bs: int, t: seq<Byte>, at: int, b: nat)
    requires FileFits(disk, bs, t, at) && b < DIRECT_BLOCKS && InodeBlock(t, at, b) != 0
    requires NoneNull(t, at, b)
    ensures b < BlocksFrom(t, at, 0) && NoneNull(t, at, b + 1)
    ensures Data(disk, bs, t, at, b + 1) == Data(disk, bs, t, at, b) + BlockBytes(disk, bs, InodeBlock(t, at, b))
  {
    BlocksCounted(t, at, 0, b);
    ConcatStep(FileBlocks(disk, bs, t, at), b);
  }

  /** One block more is still a part of the file. */
  lemma NextPart(disk: seq<seq<Byte>>, bs: int, t: seq<Byte>, at: int, b: nat)
    requires FileFits(disk, bs, t, at) && b < DIRECT_BLOCKS && InodeBlock(t, at, b) != 0
    requires NoneNull(t, at, b)
    ensures b < BlocksFrom(t, at, 0) && NoneNull(t, at, b + 1)
    ensures Data(disk, bs, t, at, b + 1) == Data(disk, bs, t, at, b) + BlockBytes(disk, bs, InodeBlock(t, at, b))
    ensures |Cut(Data(disk, bs, t, at, b + 1), InodeSize(t, at))| <= |FileBytes(disk, bs, t, at)|
  {
    NextBlock(disk, bs, t, at, b);
    DataExtends(disk, bs, t, at, b + 1);
    CutPrefix(Data(disk, bs, t, at, b + 1), Data(disk, bs, t, at, BlocksFrom(t, at, 0)), InodeSize(t, at));
  }

  /** When the loop over the blocks stops. */
  lemma AllBlocks(disk: seq<seq<Byte>>, bs: int, t: seq<Byte>, at: int, b: nat, got: seq<Byte>)
    requires FileFits(disk, bs, t, at) && b <= BlocksFrom(t, at, 0) && got == Data(disk, bs, t, at, b)
    requires NoneNull(t, at, b)
    requires b == DIRECT_BLOCKS || InodeBlock(t, at, b) == 0 || |Cut(got, InodeSize(t, at))| >= InodeSize(t, at)
    ensures Cut(got, InodeSize(t, at)) == FileBytes(disk, bs, t, at)
  {
    BlocksCounted(t, at, 0, b);
    DataExtends(disk, bs, t, at, b);
    CutPrefix(got, Data(disk, bs, t, at, BlocksFrom(t, at, 0)), InodeSize(t, at));
  }

  /** Append a block's bytes while the file's size is not reached. */
  method CopyBytes(bytes: array<Byte>, buf: array<Byte>, start: nat, size: nat, ghost before: seq<Byte>) returns (ptr: nat)
    requires bytes != buf && start == |before| < size && start <= buf.Length && buf[..start] == before
    requires |Cut(before + bytes[..], size)| < buf.Length
    modifies buf
    ensures ptr == |Cut(before + bytes[..], size)| && buf[..ptr] == Cut(before + bytes[..], size)
  {
    ghost var all := before + bytes[..];
    ptr := start;
    var i := 0;
    while i < bytes.Length && ptr < size
      invariant 0 <= i <= bytes.Length && ptr == start + i <= size
      invariant buf[..ptr] == all[..ptr]
    {
      assert bytes[i] == all[ptr];
      buf[ptr] := bytes[i];
      ptr := ptr + 1;
      i := i + 1;
    }
  }

  /** Read a block and append it. */
  method AppendBlock(disk: seq<seq<Byte>>, bs: int, block: int, buf: array<Byte>, start: nat, size: nat, ghost before: seq<Byte>)
    returns (ptr: nat)
    requires SectorsSized(disk) && OnDisk(disk, bs, block)
    requires start == |before| < size && start <= buf.Length && buf[..start] == before
    requires |Cut(before + BlockBytes(disk, bs, block), size)| < buf.Length
    modifies buf
    ensures ptr == |Cut(before + BlockBytes(disk, bs, block), size)|
    ensures buf[..ptr] == Cut(before + BlockBytes(disk, bs, block), size)
  {
    var bytes := ReadBlock(disk, bs, block);
    ptr := CopyBytes(bytes, buf, start, size, before);
  }

  /** Copy a file's direct blocks to `buf`, up to its size, and end it with a NUL. */
  method ReadInode(disk: seq<seq<Byte>>, bs: int, table: array<Byte>, at: int, buf: array<Byte>)
    requires FileFits(disk, bs, table[..], at) && buf != table
    requires |FileBytes(disk, bs, table[..], at)| < buf.Length
    modifies buf
    ensures var c := FileBytes(disk, bs, table[..], at); buf[..|c|] == c && buf[|c|] == 0
  {
    ghost var t := table[..];
    ghost var got := [];
    var size := Read32(table[..], at + INODE_SIZE_FIELD);
    var ptr, b := 0, 0;
    while b < 12 && ptr < size
      invariant 0 <= b <= 12 && table[..] == t && b <= BlocksFrom(t, at, 0)
      invariant NoneNull(t, at, b)
      invariant got == Data(disk, bs, t, at, b) && ptr == |Cut(got, size)| < buf.Length
      invariant buf[..ptr] == Cut(got, size)
    {
      var block := Read32(table[..], at + INODE_BLOCKS + 4 * b);
      assert block == InodeBlock(t, at, b);
      if block == 0 { break; }
      NextPart(disk, bs, t, at, b);
      ptr := AppendBlock(disk, bs, block, buf, ptr, size, got);
      got := Data(disk, bs, t, at, b + 1);
      b := b + 1;
    }
    AllBlocks(disk, bs, t, at, b, got);
    buf[ptr] := 0;
  }
}
