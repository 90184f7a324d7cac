/** Disks with the structs of src/core/fs/ext4.h, byte by byte, and what src/core/fs/ext4.cpp finds on them. */
module Ext4Image {
  import opened Machine32
  import opened Bytes
  import opened Ext4Layout
  import opened Ext4Disk
  import opened Ext4

  // ----- The structs -----

  /** The `n` bytes of a number, the lowest first. */
  function LittleEndian(w: nat, n: nat): (s: seq<Byte>)
    ensures |s| == n
  {
    if n == 0 then [] else [w % 256] + LittleEndian(w / 256, n - 1)
  }

  function Words(ws: seq<Word>): (s: seq<Byte>)
    ensures |s| == 4 * |ws|
  {
    if ws == [] then [] else LittleEndian(ws[0], 4) + Words(ws[1..])
  }

  /** `Ext4Inode`. */
  datatype Inode = Inode(mode: nat, uid: nat, size: Word, times: seq<Word>, gid: nat, links: nat,
                         blocks: Word, flags: Word, osd1: Word, block: seq<Word>,
                         generation: Word, fileAcl: Word, dirAcl: Word, faddr: Word, osd2: seq<Word>)

  /** Access, change, modification and deletion time; 15 block pointers; three words for the system. */
  predicate ProperInode(n: Inode) { |n.times| == 4 && |n.block| == 15 && |n.osd2| == 3 }

  function InodeHead(n: Inode): (s: seq<Byte>)
    requires ProperInode(n)
    ensures |s| == 40
  {
    LittleEndian(n.mode, 2) + LittleEndian(n.uid, 2) + LittleEndian(n.size, 4) + Words(n.times)
    + LittleEndian(n.gid, 2) + LittleEndian(n.links, 2) + Words([n.blocks, n.flags, n.osd1])
  }

  function InodeBytes(n: Inode): (s: seq<Byte>)
    requires ProperInode(n)
    ensures |s| == 128
  {
    InodeHead(n) + Words(n.block) + Words([n.generation, n.fileAcl, n.dirAcl, n.faddr]) + Words(n.osd2)
  }

  /** `Ext4DirEntry`, with the bytes up to the next one. */
  datatype Record = Record(inode: Word, name: seq<Byte>, fileType: Byte, padding: seq<Byte>) {
    function Length(): nat { 8 + |name| + |padding| }
    predicate Proper() { |name| < 256 && 0 !in name && Length() < 0x1_0000 }

    function Head(): (s: seq<Byte>)
      requires Proper()
      ensures |s| == 8
    {
      LittleEndian(inode, 4) + LittleEndian(Length(), 2) + [|name|, fileType]
    }

    function Bytes(): (s: seq<Byte>)
      requires Proper()
      ensures |s| == Length()
    {
      Head() + name + padding
    }

    /** A deleted entry has inode 0. */
    predicate Live() { inode != 0 && name != [] }

    /** As much of the name as the code compares. */
    function Shown(): Name
      requires Proper()
    {
      if |name| <= 63 then name else name[..63]
    }
  }

  datatype File = File(record: Record, inode: Inode, data: seq<Byte>)

  predicate ProperFiles(fs: seq<File>) { forall i :: 0 <= i < |fs| ==> fs[i].record.Proper() }

  /** What one record is listed as: nothing if it is deleted. */
  function ListingOfOne(r: Record): seq<DirEntry>
    requires r.Proper()
  {
    if r.Live() then [DirEntry(r.inode, r.Shown(), r.fileType == 2)] else []
  }

  /** What the listing of these files is. */
  function ListingOf(fs: seq<File>): seq<DirEntry>
    requires ProperFiles(fs)
  {
    if fs == [] then [] else ListingOfOne(fs[0].record) + ListingOf(fs[1..])
  }

  function Directory(fs: seq<File>): seq<Byte>
    requires ProperFiles(fs)
  {
    if fs == [] then [] else fs[0].record.Bytes() + Directory(fs[1..])
  }

  // ----- A disk that holds them -----

  /** These bytes stand on the disk from byte `a` on. */
  ghost predicate BytesAt(disk: seq<seq<Byte>>, a: int, s: seq<Byte>) {
    && SectorsSized(disk) && 0 <= a && a + |s| <= |disk| * SECTOR
    && forall k :: 0 <= k < |s| ==> DiskByte(disk, a + k) == s[k]
  }

  /** What block `b` of a file holds of its data. */
  function Part(data: seq<Byte>, bs: nat, b: nat): (s: seq<Byte>)
    ensures |s| <= bs
  {
    var at := Start(bs, b);
    if |data| <= at then [] else if |data| - at <= bs then data[at..] else data[at..at + bs]
  }

  /** Block `p`, which is not null, starts with these bytes. */
  ghost predicate Holds(disk: seq<seq<Byte>>, bs: nat, p: nat, part: seq<Byte>) {
    p != 0 && BytesAt(disk, Start(bs, p), part)
  }

  ghost predicate EndsAt(n: Inode, bs: nat, data: seq<Byte>, c: nat)
    requires ProperInode(n) && c <= 12
  {
    |data| == Start(bs, c) && (c == 12 || n.block[c] == 0)
  }

  /** The data ends with the file's size, or with its direct blocks or the first null pointer if that comes earlier. */
  ghost predicate Ends(n: Inode, bs: nat, data: seq<Byte>)
    requires ProperInode(n)
  {
    n.size == |data| || (n.size > |data| && exists c :: 0 <= c <= 12 && EndsAt(n, bs, data, c))
  }

  /** The inode is at its number's place in the table's block, and its blocks hold the data. */
  ghost predicate Stored(disk: seq<seq<Byte>>, bs: Word, table: Word, number: Word, n: Inode, data: seq<Byte>) {
    && SectorsSized(disk) && bs > 0 && ProperInode(n)
    && 0 < number && number * 128 <= bs
    && BytesAt(disk, Start(bs, table) + (number - 1) * 128, InodeBytes(n))
    && |data| <= 12 * bs && Ends(n, bs, data)
    && (forall b :: 0 <= b < 12 && n.block[b] != 0 ==> OnDisk(disk, bs, n.block[b]))
    && (forall b :: 0 <= b < 12 && Part(data, bs, b) != [] ==> Holds(disk, bs, n.block[b], Part(data, bs, b)))
  }

  ghost predicate AllStored(disk: seq<seq<Byte>>, bs: Word, table: Word, fs: seq<File>) {
    forall i :: 0 <= i < |fs| && fs[i].record.Live() ==>
      Stored(disk, bs, table, fs[i].record.inode, fs[i].inode, fs[i].data)
  }

  /** An entry of length 0, where the walk stops. */
  predicate Stop(tail: seq<Byte>) { |tail| >= 8 && tail[4] == 0 && tail[5] == 0 && 8 + tail[6] <= |tail| }

  /** The directory ends with its size, with its first block, or with an entry of length 0. */
  predicate DirectoryEnds(size: Word, bs: Word, length: nat, tail: seq<Byte>) {
    || (tail == [] && (size == length <= bs || length == bs <= size))
    || (Stop(tail) && length + |tail| <= bs && length < size)
  }

  /** The root's inode record is number 3 of the table, and its first block holds the directory. */
  ghost predicate RootStored(disk: seq<seq<Byte>>, bs: Word, table: Word, root: Inode, dir: seq<Byte>, tail: seq<Byte>) {
    && SectorsSized(disk) && OnDisk(disk, bs, table) && 384 <= bs
    && ProperInode(root) && BytesAt(disk, Start(bs, table) + 256, InodeBytes(root))
    && DirectoryEnds(root.size, bs, |dir|, tail)
    && OnDisk(disk, bs, root.block[0]) && BytesAt(disk, Start(bs, root.block[0]), dir + tail)
  }

  /** A volume with these files in its root directory. */
  ghost predicate Image(v: Volume, root: Inode, fs: seq<File>, tail: seq<Byte>) {
    && v.blockSize > 0 && ProperFiles(fs)
    && RootStored(v.disk, v.blockSize, v.inodeTable, root, Directory(fs), tail)
    && AllStored(v.disk, v.blockSize, v.inodeTable, fs)
  }

  // ----- Reading the fields back -----

  lemma FourBytes(w: Word)
    ensures var s := LittleEndian(w, 4); (s[0] as int) + 0x100 * (s[1] as int) + 0x1_0000 * (s[2] as int) + 0x100_0000 * (s[3] as int) == w
  {
    var a, b, c := w / 256, w / 256 / 256, w / 256 / 256 / 256;
    assert LittleEndian(c, 1) == [c % 256] + LittleEndian(c / 256, 0);
    assert LittleEndian(b, 2) == [b % 256] + LittleEndian(c, 1);
    assert LittleEndian(a, 3) == [a % 256] + LittleEndian(b, 2);
    assert LittleEndian(w, 4) == [w % 256] + LittleEndian(a, 3);
  }

  lemma ReadsWord(m: seq<Byte>, a: nat, w: Word)
    requires a + 4 <= |m| && m[a..a + 4] == LittleEndian(w, 4)
    ensures Read32(m, a) == w
  {
    FourBytes(w);
    var s := m[a..a + 4];
    assert m[a] == s[0] && m[a + 1] == s[1] && m[a + 2] == s[2] && m[a + 3] == s[3];
  }

  lemma ReadsHalf(m: seq<Byte>, a: nat, w: nat)
    requires a + 2 <= |m| && w < 0x1_0000 && m[a..a + 2] == LittleEndian(w, 2)
    ensures Read16(m, a) == w
  {
    assert LittleEndian(w / 256, 1) == [w / 256 % 256] + LittleEndian(w / 256 / 256, 0);
    assert LittleEndian(w, 2) == [w % 256] + LittleEndian(w / 256, 1);
    var s := m[a..a + 2];
    assert m[a] == s[0] && m[a + 1] == s[1];
  }

  lemma Behind(front: seq<Byte>, s: seq<Byte>, lo: nat, hi: nat)
    requires lo <= hi <= |s|
    ensures (front + s)[|front| + lo..|front| + hi] == s[lo..hi]
  {}

  lemma {:induction false} WordsAt(ws: seq<Word>, i: nat)
    requires i < |ws|
    ensures Words(ws)[4 * i..4 * i + 4] == LittleEndian(ws[i], 4)
  {
    if i > 0 {
      WordsAt(ws[1..], i - 1);
      Behind(LittleEndian(ws[0], 4), Words(ws[1..]), 4 * (i - 1), 4 * (i - 1) + 4);
    }
  }

  lemma InodeParts(n: Inode)
    requires ProperInode(n)
    ensures InodeBytes(n)[4..8] == LittleEndian(n.size, 4) && InodeBytes(n)[40..100] == Words(n.block)
  {
    assert InodeBytes(n)[4..8] == InodeHead(n)[4..8];
  }

  lemma SizeReads(m: seq<Byte>, at: nat, n: Inode)
    requires ProperInode(n) && at + 128 <= |m| && m[at..at + 128] == InodeBytes(n)
    ensures InodeSize(m, at) == n.size
  {
    InodeParts(n);
    SliceOfSlice(m, at, at + 128, 4, 8);
    ReadsWord(m, at + 4, n.size);
  }

  lemma PointerReads(m: seq<Byte>, at: nat, n: Inode, b: nat)
    requires ProperInode(n) && at + 128 <= |m| && m[at..at + 128] == InodeBytes(n) && b < 12
    ensures InodeBlock(m, at, b) == n.block[b]
  {
    InodeParts(n);
    WordsAt(n.block, b);
    SliceOfSlice(m, at, at + 128, 40, 100);
    SliceOfSlice(m, at + 40, at + 100, 4 * b, 4 * b + 4);
    ReadsWord(m, at + 40 + 4 * b, n.block[b]);
  }

  /** What the code reads of an inode record. */
  lemma InodeReads(m: seq<Byte>, at: nat, n: Inode, b: nat)
    requires ProperInode(n) && at + 128 <= |m| && m[at..at + 128] == InodeBytes(n) && b < 12
    ensures InodeSize(m, at) == n.size && InodeBlock(m, at, b) == n.block[b]
  {
    SizeReads(m, at, n);
    PointerReads(m, at, n, b);
  }

  lemma HeadParts(r: Record)
    requires r.Proper()
    ensures r.Head()[0..4] == LittleEndian(r.inode, 4) && r.Head()[4..6] == LittleEndian(r.Length(), 2)
    ensures r.Head()[6] == |r.name| && r.Head()[7] == r.fileType
  {}

  lemma BytesParts(r: Record, s: seq<Byte>)
    requires r.Proper() && s == r.Bytes()
    ensures s[0..8] == r.Head() && s[8..8 + |r.Shown()|] == r.Shown()
  {
    assert s[8..8 + |r.name|] == r.name;
  }

  lemma RecordParts(m: seq<Byte>, at: nat, r: Record)
    requires r.Proper() && at + r.Length() <= |m| && m[at..at + r.Length()] == r.Bytes()
    ensures m[at..at + 8] == r.Head() && m[at + 8..at + 8 + |r.Shown()|] == r.Shown()
  {
    var n := |r.Shown()|;
    BytesParts(r, r.Bytes());
    SliceOfSlice(m, at, at + r.Length(), 0, 8);
    SliceOfSlice(m, at, at + r.Length(), 8, 8 + n);
  }

  lemma HeadReads(m: seq<Byte>, at: nat, r: Record)
    requires r.Proper() && at + 8 <= |m| && m[at..at + 8] == r.Head()
    ensures EntryInode(m, at) == r.inode && EntryLength(m, at) == r.Length()
    ensures EntryNameLength(m, at) == |r.name| && m[at + 7] == r.fileType
  {
    HeadParts(r);
    SliceOfSlice(m, at, at + 8, 0, 4);
    SliceOfSlice(m, at, at + 8, 4, 6);
    ReadsWord(m, at, r.inode);
    ReadsHalf(m, at + 4, r.Length());
    assert m[at + 6] == m[at..at + 8][6] && m[at + 7] == m[at..at + 8][7];
  }

  /** What the code reads of a directory record. */
  lemma RecordReads(m: seq<Byte>, at: nat, r: Record)
    requires r.Proper() && at + r.Length() <= |m| && m[at..at + r.Length()] == r.Bytes()
    ensures EntryFits(m, at) && EntryLength(m, at) == r.Length() && (Listed(m, at) <==> r.Live())
    ensures EntryAt(m, at) == DirEntry(r.inode, r.Shown(), r.fileType == 2)
  {
    RecordParts(m, at, r);
    HeadReads(m, at, r);
    CStrIsWhole(r.Shown());
  }

  // ----- The directory -----

  lemma WalkStep(dir: seq<Byte>, limit: nat, at: nat, next: nat)
    requires EntryFits(dir, at) && next == at + EntryLength(dir, at) && at < next <= limit && WalkFits(dir, limit, next)
    ensures WalkFits(dir, limit, at)
    ensures Entries(dir, limit, at) == (if Listed(dir, at) then [EntryAt(dir, at)] else []) + Entries(dir, limit, next)
  {}

  lemma FirstRecord(dir: seq<Byte>, at: nat, limit: nat, r: Record, rest: seq<Byte>)
    requires r.Proper() && at <= limit <= |dir| && dir[at..limit] == r.Bytes() + rest
    ensures at + r.Length() <= limit && dir[at..at + r.Length()] == r.Bytes() && dir[at + r.Length()..limit] == rest
  {
    var s := dir[at..limit];
    assert |s| == limit - at;
    assert s[..r.Length()] == r.Bytes() && s[r.Length()..] == rest;
    SliceOfSlice(dir, at, limit, 0, r.Length());
    SliceOfSlice(dir, at, limit, r.Length(), limit - at);
  }

  /** The walk ends at `e`, at the limit or with an entry of length 0. */
  ghost predicate WalkEnds(dir: seq<Byte>, limit: nat, e: nat) {
    e == limit || (e < limit && EntryFits(dir, e) && EntryLength(dir, e) == 0)
  }

  /** One record in front of a walk. */
  lemma WalkRecord(dir: seq<Byte>, limit: nat, at: nat, r: Record, next: nat)
    requires r.Proper() && next == at + r.Length() <= limit <= |dir| && dir[at..next] == r.Bytes() && WalkFits(dir, limit, next)
    ensures WalkFits(dir, limit, at)
    ensures Entries(dir, limit, at) == ListingOfOne(r) + Entries(dir, limit, next)
  {
    RecordReads(dir, at, r);
    WalkStep(dir, limit, at, next);
  }

  lemma DirectoryStep(fs: seq<File>)
    requires ProperFiles(fs) && fs != []
    ensures Directory(fs) == fs[0].record.Bytes() + Directory(fs[1..])
    ensures ListingOf(fs) == ListingOfOne(fs[0].record) + ListingOf(fs[1..])
  {}

  lemma {:induction false} DirectoryWalk(dir: seq<Byte>, limit: nat, at: nat, fs: seq<File>, e: nat)
    requires ProperFiles(fs) && at + |Directory(fs)| == e <= limit <= |dir| && dir[at..e] == Directory(fs)
    requires WalkEnds(dir, limit, e)
    ensures WalkFits(dir, limit, at) && Entries(dir, limit, at) == ListingOf(fs)
    decreases |fs|
  {
    if fs != [] {
      var r, next := fs[0].record, at + fs[0].record.Length();
      DirectoryStep(fs);
      FirstRecord(dir, at, e, r, Directory(fs[1..]));
      DirectoryWalk(dir, limit, next, fs[1..], e);
      WalkRecord(dir, limit, at, r, next);
    }
  }

  lemma BlockByte(disk: seq<seq<Byte>>, bs: int, b: int, k: int)
    requires SectorsSized(disk) && OnDisk(disk, bs, b) && 0 <= k < bs
    ensures |BlockBytes(disk, bs, b)| == bs && 0 <= Start(bs, b) + k < |disk| * SECTOR
    ensures BlockBytes(disk, bs, b)[k] == DiskByte(disk, Start(bs, b) + k)
  {
    BlockIsContiguous(disk, bs, b, k);
  }

  lemma BlockLength(disk: seq<seq<Byte>>, bs: int, b: int)
    requires SectorsSized(disk) && OnDisk(disk, bs, b)
    ensures |BlockBytes(disk, bs, b)| == bs
  {
    BlockIsContiguous(disk, bs, b, 0);
  }

  /** Bytes of the disk within one block, read as a part of the block. */
  lemma PartOfBlock(disk: seq<seq<Byte>>, bs: int, b: int, at: nat, s: seq<Byte>)
    requires OnDisk(disk, bs, b) && BytesAt(disk, Start(bs, b) + at, s) && at + |s| <= bs
    ensures |BlockBytes(disk, bs, b)| == bs && BlockBytes(disk, bs, b)[at..at + |s|] == s
  {
    var block := BlockBytes(disk, bs, b);
    BlockLength(disk, bs, b);
    forall k | 0 <= k < |s| ensures block[at + k] == s[k] {
      BlockByte(disk, bs, b, at + k);
      assert DiskByte(disk, Start(bs, b) + at + k) == s[k];
    }
    assert block[at..at + |s|] == s;
  }

  lemma RootReads(v: Volume, root: Inode, dir: seq<Byte>, tail: seq<Byte>)
    requires v.blockSize > 0 && RootStored(v.disk, v.blockSize, v.inodeTable, root, dir, tail)
    ensures InodeFits(v.Table(), ROOT_INODE) && InodeSize(v.Table(), ROOT_INODE) == root.size
    ensures InodeBlock(v.Table(), ROOT_INODE, 0) == root.block[0]
  {
    PartOfBlock(v.disk, v.blockSize, v.inodeTable, 256, InodeBytes(root));
    InodeReads(v.Table(), 256, root, 0);
  }

  lemma StopReads(dir: seq<Byte>, at: nat, tail: seq<Byte>)
    requires Stop(tail) && at + |tail| <= |dir| && dir[at..at + |tail|] == tail
    ensures EntryFits(dir, at) && EntryLength(dir, at) == 0
  {
    var t := dir[at..at + |tail|];
    assert dir[at + 4] == t[4] && dir[at + 5] == t[5] && dir[at + 6] == t[6];
  }

  /** Two pieces, one behind the other. */
  lemma TwoPieces(s: seq<Byte>, a: seq<Byte>, b: seq<Byte>)
    requires |a + b| <= |s| && s[0..|a + b|] == a + b
    ensures s[0..|a|] == a && s[|a|..|a| + |b|] == b
  {
    SliceOfSlice(s, 0, |a + b|, 0, |a|);
    SliceOfSlice(s, 0, |a + b|, |a|, |a| + |b|);
  }

  lemma BlockStarts(disk: seq<seq<Byte>>, bs: Word, p: Word, block: seq<Byte>, dir: seq<Byte>, tail: seq<Byte>)
    requires OnDisk(disk, bs, p) && BytesAt(disk, Start(bs, p), dir + tail) && |dir| + |tail| <= bs
    requires block == BlockBytes(disk, bs, p)
    ensures |block| == bs && block[0..|dir|] == dir && block[|dir|..|dir| + |tail|] == tail
  {
    PartOfBlock(disk, bs, p, 0, dir + tail);
    TwoPieces(block, dir, tail);
  }

  lemma DirectoryReads(size: Word, bs: Word, block: seq<Byte>, limit: nat, fs: seq<File>, tail: seq<Byte>)
    requires ProperFiles(fs) && |block| == bs && DirectoryEnds(size, bs, |Directory(fs)|, tail)
    requires limit == if size < bs then size else bs
    requires |Directory(fs)| + |tail| <= bs
    requires block[0..|Directory(fs)|] == Directory(fs) && block[|Directory(fs)|..|Directory(fs)| + |tail|] == tail
    ensures WalkFits(block, limit, 0) && Entries(block, limit, 0) == ListingOf(fs)
  {
    var e := |Directory(fs)|;
    if tail != [] {
      StopReads(block, e, tail);
    }
    DirectoryWalk(block, limit, 0, fs, e);
  }

  /** The volume of an image can be read, and lists the files that are not deleted, in order. */
  lemma ImageListed(v: Volume, root: Inode, fs: seq<File>, tail: seq<Byte>)
    requires Image(v, root, fs, tail)
    ensures v.Fits() && v.Listing() == ListingOf(fs)
  {
    RootReads(v, root, Directory(fs), tail);
    BlockStarts(v.disk, v.blockSize, root.block[0], v.RootDir(), Directory(fs), tail);
    DirectoryReads(root.size, v.blockSize, v.RootDir(), Limit(v.Table(), v.blockSize), fs, tail);
  }

  // ----- The files -----

  predicate Sized(parts: seq<seq<Byte>>, n: nat) { forall j :: 0 <= j < |parts| ==> |parts[j]| == n }

  lemma {:induction false} ConcatLength(parts: seq<seq<Byte>>, n: nat)
    requires Sized(parts, n)
    ensures |Concat(parts)| == Start(n, |parts|)
    decreases |parts|
  {
    if parts != [] {
      ConcatLength(parts[..|parts| - 1], n);
    }
  }

  lemma {:induction false} ConcatAt(parts: seq<seq<Byte>>, n: nat, i: nat, k: nat, at: nat)
    requires Sized(parts, n) && i < |parts| && k < n && at == Start(n, i) + k
    ensures at < |Concat(parts)| && Concat(parts)[at] == parts[i][k]
    decreases |parts|
  {
    var front, last := parts[..|parts| - 1], |parts| - 1;
    ConcatLength(front, n);
    if i < last {
      ConcatAt(front, n, i, k, at);
    }
  }

  /** A stored file's inode reads as its fields. */
  lemma StoredReads(v: Volume, number: Word, n: Inode, data: seq<Byte>, b: nat)
    requires v.blockSize > 0 && OnDisk(v.disk, v.blockSize, v.inodeTable) && b < 12
    requires Stored(v.disk, v.blockSize, v.inodeTable, number, n, data)
    ensures InodeFits(v.Table(), (number - 1) * 128)
    ensures InodeSize(v.Table(), (number - 1) * 128) == n.size && InodeBlock(v.Table(), (number - 1) * 128, b) == n.block[b]
  {
    PartOfBlock(v.disk, v.blockSize, v.inodeTable, (number - 1) * 128, InodeBytes(n));
    InodeReads(v.Table(), (number - 1) * 128, n, b);
  }

  /** Enough blocks stand before the first null pointer. */
  lemma {:induction false} EnoughBlocks(table: seq<Byte>, at: nat, bs: nat, size: nat, i: nat)
    requires InodeFits(table, at) && i <= 12 && size <= Start(bs, 12)
    requires forall b :: i <= b < 12 && Start(bs, b) < size ==> InodeBlock(table, at, b) != 0
    ensures Start(bs, i + BlocksFrom(table, at, i)) >= size
    decreases 12 - i
  {
    if i < 12 && InodeBlock(table, at, i) != 0 {
      EnoughBlocks(table, at, bs, size, i + 1);
    }
  }

  lemma {:induction false} CountedNotNull(table: seq<Byte>, at: nat, i: nat, b: nat)
    requires InodeFits(table, at) && i <= 12 && i <= b < i + BlocksFrom(table, at, i)
    ensures b < 12 && InodeBlock(table, at, b) != 0
    decreases 12 - i
  {
    if i < b {
      CountedNotNull(table, at, i + 1, b);
    }
  }

  lemma StoredFits(v: Volume, number: Word, n: Inode, data: seq<Byte>)
    requires v.blockSize > 0 && OnDisk(v.disk, v.blockSize, v.inodeTable)
    requires Stored(v.disk, v.blockSize, v.inodeTable, number, n, data)
    ensures FileFits(v.disk, v.blockSize, v.Table(), (number - 1) * 128)
  {
    var at := (number - 1) * 128;
    StoredReads(v, number, n, data, 0);
    forall b | 0 <= b < BlocksFrom(v.Table(), at, 0) ensures OnDisk(v.disk, v.blockSize, InodeBlock(v.Table(), at, b)) {
      CountedNotNull(v.Table(), at, 0, b);
      StoredReads(v, number, n, data, b);
    }
  }

  lemma StoredBlock(v: Volume, number: Word, n: Inode, data: seq<Byte>, b: nat)
    requires v.blockSize > 0 && OnDisk(v.disk, v.blockSize, v.inodeTable)
    requires Stored(v.disk, v.blockSize, v.inodeTable, number, n, data)
    requires FileFits(v.disk, v.blockSize, v.Table(), (number - 1) * 128)
    requires b < BlocksFrom(v.Table(), (number - 1) * 128, 0)
    ensures b < 12 && OnDisk(v.disk, v.blockSize, n.block[b])
    ensures FileBlocks(v.disk, v.blockSize, v.Table(), (number - 1) * 128)[b] == BlockBytes(v.disk, v.blockSize, n.block[b])
  {
    CountedNotNull(v.Table(), (number - 1) * 128, 0, b);
    StoredReads(v, number, n, data, b);
  }

  lemma PartAt(data: seq<Byte>, bs: nat, b: nat, r: nat, k: nat)
    requires r < bs && k == Start(bs, b) + r < |data|
    ensures r < |Part(data, bs, b)| && Part(data, bs, b)[r] == data[k]
  {}

  lemma HeldReads(disk: seq<seq<Byte>>, bs: nat, p: nat, part: seq<Byte>)
    requires Holds(disk, bs, p, part) && OnDisk(disk, bs, p) && |part| <= bs
    ensures |BlockBytes(disk, bs, p)| == bs && BlockBytes(disk, bs, p)[0..0 + |part|] == part
  {
    PartOfBlock(disk, bs, p, 0, part);
  }

  /** A stored file's block starts with its part of the data. */
  lemma StoredPart(disk: seq<seq<Byte>>, bs: Word, table: Word, number: Word, n: Inode, data: seq<Byte>, b: nat, p: nat)
    requires Stored(disk, bs, table, number, n, data) && b < 12 && p == n.block[b] && OnDisk(disk, bs, p)
    requires Part(data, bs, b) != []
    ensures |BlockBytes(disk, bs, p)| == bs && BlockBytes(disk, bs, p)[0..0 + |Part(data, bs, b)|] == Part(data, bs, b)
  {
    assert Holds(disk, bs, n.block[b], Part(data, bs, b));
    HeldReads(disk, bs, p, Part(data, bs, b));
  }

  lemma BlocksSized(disk: seq<seq<Byte>>, bs: Word, table: seq<Byte>, at: int)
    requires FileFits(disk, bs, table, at)
    ensures Sized(FileBlocks(disk, bs, table, at), bs)
  {
    forall b | 0 <= b < BlocksFrom(table, at, 0) ensures |FileBlocks(disk, bs, table, at)[b]| == bs {
      BlockLength(disk, bs, InodeBlock(table, at, b));
    }
  }

  lemma {:induction false} InBlock(k: nat, bs: nat, c: nat) returns (b: nat, r: nat)
    requires k < Start(bs, c)
    ensures b < c && r < bs && k == Start(bs, b) + r
    decreases c
  {
    if Start(bs, c - 1) <= k {
      b, r := c - 1, k - Start(bs, c - 1);
    } else {
      b, r := InBlock(k, bs, c - 1);
    }
  }

  lemma StoredByte(v: Volume, number: Word, n: Inode, data: seq<Byte>, blocks: seq<seq<Byte>>, k: nat)
    requires v.blockSize > 0 && OnDisk(v.disk, v.blockSize, v.inodeTable)
    requires Stored(v.disk, v.blockSize, v.inodeTable, number, n, data)
    requires FileFits(v.disk, v.blockSize, v.Table(), (number - 1) * 128)
    requires blocks == FileBlocks(v.disk, v.blockSize, v.Table(), (number - 1) * 128) && Sized(blocks, v.blockSize)
    requires k < |data| <= Start(v.blockSize, |blocks|)
    ensures k < |Concat(blocks)| && Concat(blocks)[k] == data[k]
  {
    var b, r := InBlock(k, v.blockSize, |blocks|);
    PartAt(data, v.blockSize, b, r, k);
    StoredBlock(v, number, n, data, b);
    StoredPart(v.disk, v.blockSize, v.inodeTable, number, n, data, b, n.block[b]);
    assert blocks[b][0..0 + |Part(data, v.blockSize, b)|][r] == blocks[b][r];
    ConcatAt(blocks, v.blockSize, b, r, k);
  }

  lemma NotNull(disk: seq<seq<Byte>>, bs: Word, table: Word, number: Word, n: Inode, data: seq<Byte>, b: nat)
    requires Stored(disk, bs, table, number, n, data) && b < 12 && Start(bs, b) < |data|
    ensures n.block[b] != 0
  {
    PartAt(data, bs, b, 0, Start(bs, b));
    assert Holds(disk, bs, n.block[b], Part(data, bs, b));
  }

  lemma StoredEnough(v: Volume, number: Word, n: Inode, data: seq<Byte>)
    requires v.blockSize > 0 && OnDisk(v.disk, v.blockSize, v.inodeTable)
    requires Stored(v.disk, v.blockSize, v.inodeTable, number, n, data)
    ensures InodeFits(v.Table(), (number - 1) * 128)
    ensures Start(v.blockSize, BlocksFrom(v.Table(), (number - 1) * 128, 0)) >= |data|
  {
    StoredReads(v, number, n, data, 0);
    forall b | 0 <= b < 12 && Start(v.blockSize, b) < |data| ensures InodeBlock(v.Table(), (number - 1) * 128, b) != 0 {
      StoredReads(v, number, n, data, b);
      NotNull(v.disk, v.blockSize, v.inodeTable, number, n, data, b);
    }
    StartIs(v.blockSize, 12);
    EnoughBlocks(v.Table(), (number - 1) * 128, v.blockSize, |data|, 0);
  }

  lemma CutIs(s: seq<Byte>, data: seq<Byte>, n: nat)
    requires |data| <= |s| && forall k :: 0 <= k < |data| ==> s[k] == data[k]
    requires n == |data| || (n > |data| && |s| == |data|)
    ensures Cut(s, n) == data
  {}

  lemma {:induction false} StartGrows(n: nat, a: nat, b: nat)
    requires n > 0 && a < b
    ensures Start(n, a) < Start(n, b)
    decreases b
  {
    if a + 1 < b {
      StartGrows(n, a, b - 1);
    }
  }

  lemma BlockThere(v: Volume, number: Word, n: Inode, data: seq<Byte>, c: nat, b: nat)
    requires v.blockSize > 0 && OnDisk(v.disk, v.blockSize, v.inodeTable)
    requires Stored(v.disk, v.blockSize, v.inodeTable, number, n, data) && |data| == Start(v.blockSize, c) && b < c <= 12
    ensures InodeFits(v.Table(), (number - 1) * 128) && InodeBlock(v.Table(), (number - 1) * 128, b) != 0
  {
    StartGrows(v.blockSize, b, c);
    StoredReads(v, number, n, data, b);
    NotNull(v.disk, v.blockSize, v.inodeTable, number, n, data, b);
  }

  lemma CountedExactly(table: seq<Byte>, at: nat, c: nat)
    requires InodeFits(table, at) && c <= 12 && (c == 12 || InodeBlock(table, at, c) == 0)
    requires forall b :: 0 <= b < c ==> InodeBlock(table, at, b) != 0
    ensures BlocksFrom(table, at, 0) == c
  {
    BlocksCounted(table, at, 0, c);
  }

  /** Where the data ends with a null pointer or the direct blocks, no block is left behind it. */
  lemma NothingBehind(v: Volume, number: Word, n: Inode, data: seq<Byte>)
    requires v.blockSize > 0 && OnDisk(v.disk, v.blockSize, v.inodeTable)
    requires Stored(v.disk, v.blockSize, v.inodeTable, number, n, data) && n.size != |data|
    ensures InodeFits(v.Table(), (number - 1) * 128)
    ensures Start(v.blockSize, BlocksFrom(v.Table(), (number - 1) * 128, 0)) == |data|
  {
    var at := (number - 1) * 128;
    var c :| 0 <= c <= 12 && EndsAt(n, v.blockSize, data, c);
    StoredReads(v, number, n, data, if c < 12 then c else 0);
    forall b | 0 <= b < c ensures InodeBlock(v.Table(), at, b) != 0 {
      BlockThere(v, number, n, data, c, b);
    }
    CountedExactly(v.Table(), at, c);
  }

  /** A stored file is read back whole. */
  lemma StoredBytes(v: Volume, number: Word, n: Inode, data: seq<Byte>)
    requires v.blockSize > 0 && OnDisk(v.disk, v.blockSize, v.inodeTable)
    requires Stored(v.disk, v.blockSize, v.inodeTable, number, n, data)
    ensures FileFits(v.disk, v.blockSize, v.Table(), (number - 1) * 128)
    ensures FileBytes(v.disk, v.blockSize, v.Table(), (number - 1) * 128) == data
  {
    var at := (number - 1) * 128;
    StoredFits(v, number, n, data);
    var blocks := FileBlocks(v.disk, v.blockSize, v.Table(), at);
    BlocksSized(v.disk, v.blockSize, v.Table(), at);
    StoredEnough(v, number, n, data);
    ConcatLength(blocks, v.blockSize);
    forall k | 0 <= k < |data| ensures Concat(blocks)[k] == data[k] {
      StoredByte(v, number, n, data, blocks, k);
    }
    StoredReads(v, number, n, data, 0);
    if n.size != |data| {
      NothingBehind(v, number, n, data);
    }
    CutIs(Concat(blocks), data, n.size);
    assert blocks[..|blocks|] == blocks;
  }

  /** The first file that is not deleted and has this name. */
  predicate IsFirst(fs: seq<File>, i: nat, name: Name)
    requires ProperFiles(fs)
  {
    && i < |fs| && fs[i].record.Live() && fs[i].record.Shown() == name
    && forall j :: 0 <= j < i && fs[j].record.Live() ==> fs[j].record.Shown() != name
  }

  lemma {:induction false} FirstFound(fs: seq<File>, i: nat, name: Name)
    requires ProperFiles(fs) && IsFirst(fs, i, name)
    ensures DiskFind(ListingOf(fs), name) == fs[i].record.inode
    decreases |fs|
  {
    var r, rest := fs[0].record, ListingOf(fs[1..]);
    if i > 0 {
      FirstFound(fs[1..], i - 1, name);
    }
    if r.Live() {
      assert ListingOf(fs)[1..] == rest;
    } else {
      assert ListingOf(fs) == rest;
    }
  }

  lemma {:induction false} NoneFound(fs: seq<File>, name: Name)
    requires ProperFiles(fs) && forall j :: 0 <= j < |fs| && fs[j].record.Live() ==> fs[j].record.Shown() != name
    ensures DiskFind(ListingOf(fs), name) == 0
    decreases |fs|
  {
    if fs != [] {
      var r, rest := fs[0].record, ListingOf(fs[1..]);
      NoneFound(fs[1..], name);
      if r.Live() {
        assert ListingOf(fs)[1..] == rest;
      } else {
        assert ListingOf(fs) == rest;
      }
    }
  }

  /** Every name finds its own file's bytes, the first one's if there are several. */
  lemma ImageRead(v: Volume, root: Inode, fs: seq<File>, tail: seq<Byte>, i: nat, name: Name)
    requires Image(v, root, fs, tail) && IsFirst(fs, i, name)
    ensures v.Fits() && v.HasData(name) && v.Content(name) == fs[i].data
  {
    ImageListed(v, root, fs, tail);
    FirstFound(fs, i, name);
    StoredBytes(v, fs[i].record.inode, fs[i].inode, fs[i].data);
  }

  /** A name that no file has, or only deleted ones, finds nothing. */
  lemma ImageMissing(v: Volume, root: Inode, fs: seq<File>, tail: seq<Byte>, name: Name)
    requires Image(v, root, fs, tail)
    requires forall j :: 0 <= j < |fs| && fs[j].record.Live() ==> fs[j].record.Shown() != name
    ensures v.Fits() && v.HasData(name) && v.Content(name) == []
  {
    ImageListed(v, root, fs, tail);
    NoneFound(fs, name);
  }

  /** `ReadFile` on a mounted image: the bytes that stand in the file's blocks, and a NUL. */
  method MountAndRead(v: Volume, ghost root: Inode, ghost fs: seq<File>, ghost tail: seq<Byte>, ghost i: nat, name: Name, buf: array<Byte>)
    requires Image(v, root, fs, tail) && IsFirst(fs, i, name) && |fs[i].data| < buf.Length
    modifies buf
    ensures buf[..|fs[i].data|] == fs[i].data && buf[|fs[i].data|] == 0
  {
    ImageRead(v, root, fs, tail, i, name);
    var mounted := new FileSystem(v);
    mounted.ReadFile(name, buf);
  }

  /** `GetFileList` on a mounted image: the files that are not deleted, in order, with what the type byte says. */
  method MountAndList(v: Volume, ghost root: Inode, ghost fs: seq<File>, ghost tail: seq<Byte>) returns (list: array<ListEntry>)
    requires Image(v, root, fs, tail)
    ensures list.Length == |ListingOf(fs)|
    ensures forall i :: 0 <= i < list.Length ==> list[i] == ListEntry(ListingOf(fs)[i].name, ListingOf(fs)[i].isDir, 0)
  {
    ImageListed(v, root, fs, tail);
    var mounted := new FileSystem(v);
    list := mounted.GetFileList();
    assert list[..] == FileList(v.Listing(), []);
    assert forall i :: 0 <= i < list.Length ==> list[i] == list[..][i];
  }
}
