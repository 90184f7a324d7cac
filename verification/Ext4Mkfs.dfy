/** Putting any list of files on an empty disk: block 1 is the inode table, block 2 the root directory, and twelve blocks follow for each file. */
module Ext4Mkfs {
  import opened Machine32
  import opened Bytes
  import opened Ext4Layout
  import opened VirtualFiles
  import opened Ext4Disk
  import opened Ext4
  import opened Ext4Image

  /** A file to be put on the disk, or the entry that is left of a deleted one. */
  datatype Plan = Plan(deleted: bool, name: seq<Byte>, fileType: Byte, padding: seq<Byte>, meta: Inode, data: seq<Byte>)

  /** As many of the twelve direct pointers as the size needs, and null behind them. */
  function Pointers(bs: nat, i: nat, size: nat): (r: seq<Word>)
    requires 12 * i + 16 < TWO_32
    ensures |r| == 15
  {
    seq(15, b requires 0 <= b < 15 => if b < 12 && Start(bs, b) < size then 12 * i + b + 3 else 0)
  }

  /** The inode numbers start behind the root's record. */
  function FileOf(bs: nat, plan: Plan, i: nat): File
    requires 12 * i + 16 < TWO_32 && |plan.data| < TWO_32
  {
    File(Record(if plan.deleted then 0 else i + 4, plan.name, plan.fileType, plan.padding),
         plan.meta.(size := |plan.data|, block := Pointers(bs, i, |plan.data|)),
         plan.data)
  }

  function Files(bs: nat, plans: seq<Plan>): (fs: seq<File>)
    requires 12 * |plans| + 16 < TWO_32 && forall i :: 0 <= i < |plans| ==> |plans[i].data| < TWO_32
    ensures |fs| == |plans|
  {
    seq(|plans|, i requires 0 <= i < |plans| => FileOf(bs, plans[i], i))
  }

  /** The files have room: in the table's block, in the directory's block and in twelve blocks each. */
  ghost predicate Fits(bs: Word, plans: seq<Plan>) {
    && bs % SECTOR == 0 && (|plans| + 3) * 128 <= bs
    && (forall i :: 0 <= i < |plans| ==> |plans[i].data| <= 12 * bs && |plans[i].data| < TWO_32 && ProperInode(plans[i].meta))
    && ProperFiles(Files(bs, plans)) && |Directory(Files(bs, plans))| <= bs
  }

  function Root(bs: Word, plans: seq<Plan>, meta: Inode): (n: Inode)
    requires ProperInode(meta) && 12 * |plans| + 16 < TWO_32 && forall i :: 0 <= i < |plans| ==> |plans[i].data| < TWO_32
    requires ProperFiles(Files(bs, plans)) && |Directory(Files(bs, plans))| <= bs
    ensures ProperInode(n)
  {
    meta.(size := |Directory(Files(bs, plans))|, block := [2] + seq(14, _ => 0))
  }

  function Zeros(n: nat): seq<Byte> { seq(n, _ => 0) }

  predicate ProperInodes(fs: seq<File>) { forall i :: 0 <= i < |fs| ==> ProperInode(fs[i].inode) }

  /** Record `i` of the inode table, counting from 0. */
  function TableRecord(root: Inode, fs: seq<File>, i: nat): (s: seq<Byte>)
    requires ProperInode(root) && ProperInodes(fs)
    ensures |s| == 128
  {
    if i == 2 then InodeBytes(root)
    else if 3 <= i < |fs| + 3 then InodeBytes(fs[i - 3].inode)
    else Zeros(128)
  }

  function Padded(s: seq<Byte>, n: nat): (r: seq<Byte>)
    requires |s| <= n
    ensures |r| == n
  {
    s + Zeros(n - |s|)
  }

  function TableRecords(root: Inode, fs: seq<File>): (records: seq<seq<Byte>>)
    requires ProperInode(root) && ProperInodes(fs)
    ensures |records| == |fs| + 3 && Sized(records, 128)
  {
    seq(|fs| + 3, i requires 0 <= i < |fs| + 3 => TableRecord(root, fs, i))
  }

  function TableBlock(bs: nat, root: Inode, fs: seq<File>): (s: seq<Byte>)
    requires ProperInode(root) && ProperInodes(fs) && (|fs| + 3) * 128 <= bs
    ensures |s| == bs
  {
    ConcatLength(TableRecords(root, fs), 128);
    StartIs(128, |fs| + 3);
    Padded(Concat(TableRecords(root, fs)), bs)
  }

  /** Block `j` of all of the files' blocks. */
  function DataBlock(bs: nat, fs: seq<File>, j: nat): (s: seq<Byte>)
    requires j < 12 * |fs|
    ensures |s| == bs
  {
    Padded(Part(fs[j / 12].data, bs, j % 12), bs)
  }

  function Blocks(bs: nat, root: Inode, fs: seq<File>): (blocks: seq<seq<Byte>>)
    requires ProperInode(root) && ProperInodes(fs) && (|fs| + 3) * 128 <= bs
    requires ProperFiles(fs) && |Directory(fs)| <= bs
    ensures |blocks| == 12 * |fs| + 3 && Sized(blocks, bs)
  {
    [Zeros(bs), TableBlock(bs, root, fs), Padded(Directory(fs), bs)]
    + seq(12 * |fs|, j requires 0 <= j < 12 * |fs| => DataBlock(bs, fs, j))
  }

  /** A block, cut into `n` sectors. */
  function Cut(block: seq<Byte>, n: nat): (r: seq<seq<Byte>>)
    requires |block| == n * SECTOR
    ensures |r| == n && SectorsSized(r)
  {
    seq(n, q requires 0 <= q < n => block[SECTOR * q..SECTOR * q + SECTOR])
  }

  /** The blocks, cut into sectors, one behind the other. */
  function Sectored(n: nat, blocks: seq<seq<Byte>>): (disk: seq<seq<Byte>>)
    requires Sized(blocks, n * SECTOR)
    ensures SectorsSized(disk) && |disk| == Start(n, |blocks|)
  {
    if blocks == [] then [] else
      var last := |blocks| - 1;
      Sectored(n, blocks[..last]) + Cut(blocks[last], n)
  }

  lemma {:induction false} SectorAt(n: nat, blocks: seq<seq<Byte>>, b: nat, q: nat, s: nat)
    requires Sized(blocks, n * SECTOR) && b < |blocks| && q < n && s == Start(n, b) + q
    ensures s < Start(n, |blocks|) && Sectored(n, blocks)[s] == blocks[b][SECTOR * q..SECTOR * q + SECTOR]
    decreases |blocks|
  {
    var last := |blocks| - 1;
    if b < last {
      SectorAt(n, blocks[..last], b, q, s);
    }
  }

  ghost predicate ByteIs(disk: seq<seq<Byte>>, p: int, v: Byte) {
    SectorsSized(disk) && 0 <= p < |disk| * SECTOR && DiskByte(disk, p) == v
  }

  lemma SectorOf(k: nat, n: nat) returns (q: nat, r: nat)
    requires k < n * SECTOR
    ensures q < n && r < SECTOR && k == SECTOR * q + r
  {
    q, r := k / SECTOR, k % SECTOR;
  }

  lemma InSector(s: nat, r: nat, a: nat)
    requires r < SECTOR && a == s * SECTOR + r
    ensures a / SECTOR == s && a % SECTOR == r
  {}

  lemma SliceAt(s: seq<Byte>, lo: nat, r: nat)
    requires lo + SECTOR <= |s| && r < SECTOR
    ensures s[lo..lo + SECTOR][r] == s[lo + r]
  {}

  /** A byte of a block is a byte of the disk. */
  lemma ByteOfBlock(bs: nat, n: nat, blocks: seq<seq<Byte>>, b: nat, k: nat)
    requires bs == n * SECTOR && Sized(blocks, bs) && b < |blocks| && k < bs
    ensures ByteIs(Sectored(n, blocks), Start(bs, b) + k, blocks[b][k])
  {
    var q, r := SectorOf(k, n);
    StartInSectors(n, b);
    SectorAt(n, blocks, b, q, Start(n, b) + q);
    SliceAt(blocks[b], SECTOR * q, r);
    InSector(Start(n, b) + q, r, Start(bs, b) + k);
  }

  lemma ByteByByte(disk: seq<seq<Byte>>, a: nat, s: seq<Byte>)
    requires s != [] && forall k {:trigger s[k]} :: 0 <= k < |s| ==> ByteIs(disk, a + k, s[k])
    ensures BytesAt(disk, a, s)
  {
    assert ByteIs(disk, a + (|s| - 1), s[|s| - 1]);
    forall k | 0 <= k < |s| ensures DiskByte(disk, a + k) == s[k] {
      assert ByteIs(disk, a + k, s[k]);
    }
  }

  ghost predicate BlockStands(disk: seq<seq<Byte>>, bs: nat, b: nat, block: seq<Byte>) {
    OnDisk(disk, bs, b) && BytesAt(disk, Start(bs, b), block)
  }

  /** The disk consists of these blocks. */
  ghost predicate Consists(disk: seq<seq<Byte>>, bs: nat, blocks: seq<seq<Byte>>) {
    forall b :: 0 <= b < |blocks| ==> BlockStands(disk, bs, b, blocks[b])
  }

  lemma {:induction false} StartGrows(n: nat, a: nat, b: nat)
    requires a <= b
    ensures Start(n, a) <= Start(n, b)
    decreases b
  {
    if a < b {
      StartGrows(n, a, b - 1);
    }
  }

  lemma SectoredStands(bs: nat, n: nat, blocks: seq<seq<Byte>>, b: nat)
    requires n > 0 && bs == n * SECTOR && Sized(blocks, bs) && b < |blocks|
    ensures BlockStands(Sectored(n, blocks), bs, b, blocks[b])
  {
    var disk, block := Sectored(n, blocks), blocks[b];
    forall k | 0 <= k < |block| ensures ByteIs(disk, Start(bs, b) + k, block[k]) {
      ByteOfBlock(bs, n, blocks, b, k);
    }
    ByteByByte(disk, Start(bs, b), block);
    StartGrows(n, b + 1, |blocks|);
  }

  lemma SectoredConsists(bs: nat, n: nat, blocks: seq<seq<Byte>>)
    requires n > 0 && bs == n * SECTOR && Sized(blocks, bs)
    ensures Consists(Sectored(n, blocks), bs, blocks)
  {
    forall b | 0 <= b < |blocks| ensures BlockStands(Sectored(n, blocks), bs, b, blocks[b]) {
      SectoredStands(bs, n, blocks, b);
    }
  }

  // ----- What stands where -----

  /** `t` stands in `s` from position `at` on. */
  ghost predicate HasPart(s: seq<Byte>, at: nat, t: seq<Byte>) {
    at + |t| <= |s| && s[at..at + |t|] == t
  }

  lemma PartwiseHas(s: seq<Byte>, at: nat, t: seq<Byte>)
    requires at + |t| <= |s| && forall k :: 0 <= k < |t| ==> s[at + k] == t[k]
    ensures HasPart(s, at, t)
  {}

  lemma RecordByte(records: seq<seq<Byte>>, i: nat, k: nat, at: nat, bs: nat)
    requires Sized(records, 128) && i < |records| && k < 128 && at == Start(128, i) && |Concat(records)| <= bs
    ensures at + k < |Concat(records)| && Padded(Concat(records), bs)[at + k] == records[i][k]
  {
    ConcatAt(records, 128, i, k, at + k);
  }

  lemma RecordPart(records: seq<seq<Byte>>, i: nat, at: nat, bs: nat)
    requires Sized(records, 128) && i < |records| && at == Start(128, i) && |Concat(records)| <= bs
    ensures HasPart(Padded(Concat(records), bs), at, records[i])
  {
    RecordByte(records, i, 127, at, bs);
    forall k | 0 <= k < 128 ensures Padded(Concat(records), bs)[at + k] == records[i][k] {
      RecordByte(records, i, k, at, bs);
    }
    PartwiseHas(Padded(Concat(records), bs), at, records[i]);
  }

  /** The record with index `i` of the table's block. */
  lemma RecordInTable(bs: nat, root: Inode, fs: seq<File>, i: nat, at: nat)
    requires ProperInode(root) && ProperInodes(fs) && (|fs| + 3) * 128 <= bs
    requires at == i * 128 && i < |fs| + 3
    ensures HasPart(TableBlock(bs, root, fs), at, TableRecord(root, fs, i))
  {
    StartIs(128, i);
    StartIs(128, |fs| + 3);
    ConcatLength(TableRecords(root, fs), 128);
    RecordPart(TableRecords(root, fs), i, at, bs);
  }

  lemma PaddedStarts(s: seq<Byte>, n: nat)
    requires |s| <= n
    ensures HasPart(Padded(s, n), 0, s)
  {}

  lemma InTwelve(i: nat, b: nat, j: nat)
    requires b < 12 && j == i * 12 + b
    ensures j / 12 == i && j % 12 == b
  {}

  lemma PartInBlock(bs: nat, fs: seq<File>, i: nat, b: nat, j: nat)
    requires i < |fs| && b < 12 && j == i * 12 + b
    ensures j < 12 * |fs| && HasPart(DataBlock(bs, fs, j), 0, Part(fs[i].data, bs, b))
  {
    InTwelve(i, b, j);
    PaddedStarts(Part(fs[i].data, bs, b), bs);
  }

  /** The inode records in the second block, the directory in the third, and twelve blocks for each file. */
  ghost predicate Laid(blocks: seq<seq<Byte>>, bs: nat, root: Inode, fs: seq<File>)
    requires ProperInode(root) && ProperInodes(fs) && ProperFiles(fs)
  {
    && |blocks| == 12 * |fs| + 3
    && HasPart(blocks[1], 256, InodeBytes(root))
    && (forall i :: 0 <= i < |fs| ==> HasPart(blocks[1], i * 128 + 384, InodeBytes(fs[i].inode)))
    && HasPart(blocks[2], 0, Directory(fs))
    && (forall i, b :: 0 <= i < |fs| && 0 <= b < 12 ==> HasPart(blocks[i * 12 + b + 3], 0, Part(fs[i].data, bs, b)))
  }

  lemma DataBlockAt(bs: nat, root: Inode, fs: seq<File>, j: nat)
    requires ProperInode(root) && ProperInodes(fs) && ProperFiles(fs) && |Directory(fs)| <= bs && (|fs| + 3) * 128 <= bs && j < 12 * |fs|
    ensures Blocks(bs, root, fs)[j + 3] == DataBlock(bs, fs, j)
  {}

  lemma DataLaid(bs: nat, root: Inode, fs: seq<File>, i: nat, b: nat, j: nat)
    requires ProperInode(root) && ProperInodes(fs) && ProperFiles(fs) && |Directory(fs)| <= bs && (|fs| + 3) * 128 <= bs
    requires i < |fs| && b < 12 && j == i * 12 + b
    ensures j < 12 * |fs| && HasPart(Blocks(bs, root, fs)[j + 3], 0, Part(fs[i].data, bs, b))
  {
    PartInBlock(bs, fs, i, b, j);
    DataBlockAt(bs, root, fs, j);
  }

  lemma RecordLaid(bs: nat, root: Inode, fs: seq<File>, i: nat)
    requires ProperInode(root) && ProperInodes(fs) && ProperFiles(fs) && |Directory(fs)| <= bs && (|fs| + 3) * 128 <= bs
    requires i < |fs|
    ensures HasPart(Blocks(bs, root, fs)[1], i * 128 + 384, InodeBytes(fs[i].inode))
  {
    RecordInTable(bs, root, fs, i + 3, i * 128 + 384);
  }

  lemma RootLaid(bs: nat, root: Inode, fs: seq<File>)
    requires ProperInode(root) && ProperInodes(fs) && ProperFiles(fs) && |Directory(fs)| <= bs && (|fs| + 3) * 128 <= bs
    ensures HasPart(Blocks(bs, root, fs)[1], 256, InodeBytes(root))
    ensures HasPart(Blocks(bs, root, fs)[2], 0, Directory(fs))
  {
    RecordInTable(bs, root, fs, 2, 256);
    PaddedStarts(Directory(fs), bs);
  }

  lemma BlocksLaid(bs: nat, root: Inode, fs: seq<File>, blocks: seq<seq<Byte>>)
    requires ProperInode(root) && ProperInodes(fs) && ProperFiles(fs) && |Directory(fs)| <= bs && (|fs| + 3) * 128 <= bs
    requires blocks == Blocks(bs, root, fs)
    ensures Laid(blocks, bs, root, fs)
  {
    RootLaid(bs, root, fs);
    forall i | 0 <= i < |fs| ensures HasPart(blocks[1], i * 128 + 384, InodeBytes(fs[i].inode)) {
      RecordLaid(bs, root, fs, i);
    }
    forall i, b | 0 <= i < |fs| && 0 <= b < 12 ensures HasPart(blocks[i * 12 + b + 3], 0, Part(fs[i].data, bs, b)) {
      DataLaid(bs, root, fs, i, b, i * 12 + b);
    }
  }

  lemma PartAtByte(disk: seq<seq<Byte>>, a: nat, block: seq<Byte>, at: nat, s: seq<Byte>, p: nat)
    requires BytesAt(disk, a, block) && HasPart(block, at, s) && p == a + at
    ensures BytesAt(disk, p, s)
  {
    forall k | 0 <= k < |s| ensures DiskByte(disk, p + k) == s[k] {
      assert block[at..at + |s|][k] == block[at + k];
      assert DiskByte(disk, a + (at + k)) == block[at + k];
    }
  }

  /** A part of a block, where it is on the disk. */
  lemma PartStands(disk: seq<seq<Byte>>, bs: nat, b: nat, block: seq<Byte>, at: nat, s: seq<Byte>)
    requires BlockStands(disk, bs, b, block) && HasPart(block, at, s)
    ensures OnDisk(disk, bs, b) && BytesAt(disk, Start(bs, b) + at, s)
  {
    PartAtByte(disk, Start(bs, b), block, at, s, Start(bs, b) + at);
  }

  lemma PointerIs(bs: nat, i: nat, size: nat, b: nat)
    requires 12 * i + 16 < TWO_32 && b < 12
    ensures Pointers(bs, i, size)[b] == if Start(bs, b) < size then i * 12 + b + 3 else 0
  {}

  /** A file's blocks, on a disk that consists of the blocks. */
  lemma PartsStand(bs: Word, root: Inode, fs: seq<File>, disk: seq<seq<Byte>>, blocks: seq<seq<Byte>>, i: nat, pointers: seq<Word>)
    requires ProperInode(root) && ProperInodes(fs) && ProperFiles(fs)
    requires Consists(disk, bs, blocks) && Laid(blocks, bs, root, fs) && i < |fs| && 12 * i + 16 < TWO_32
    requires pointers == Pointers(bs, i, |fs[i].data|)
    ensures forall b :: 0 <= b < 12 && pointers[b] != 0 ==> OnDisk(disk, bs, pointers[b])
    ensures forall b :: 0 <= b < 12 && Part(fs[i].data, bs, b) != [] ==> Holds(disk, bs, pointers[b], Part(fs[i].data, bs, b))
  {
    forall b | 0 <= b < 12
      ensures pointers[b] != 0 ==> OnDisk(disk, bs, pointers[b])
      ensures Part(fs[i].data, bs, b) != [] ==> Holds(disk, bs, pointers[b], Part(fs[i].data, bs, b))
    {
      var p := i * 12 + b + 3;
      PointerIs(bs, i, |fs[i].data|, b);
      assert BlockStands(disk, bs, p, blocks[p]);
      PartStands(disk, bs, p, blocks[p], 0, Part(fs[i].data, bs, b));
    }
  }

  /** A file's fields lead to its place among the blocks. */
  ghost predicate Placed(bs: Word, f: File, i: nat) {
    && ProperInode(f.inode) && f.record.inode == i + 4 && (i + 4) * 128 <= bs && 12 * i + 16 < TWO_32
    && f.inode.size == |f.data| <= 12 * bs && f.inode.block == Pointers(bs, i, |f.data|)
  }

  lemma StoredThere(disk: seq<seq<Byte>>, bs: Word, f: File, i: nat)
    requires bs > 0 && Placed(bs, f, i) && BytesAt(disk, Start(bs, 1) + (i * 128 + 384), InodeBytes(f.inode))
    requires forall b :: 0 <= b < 12 && f.inode.block[b] != 0 ==> OnDisk(disk, bs, f.inode.block[b])
    requires forall b :: 0 <= b < 12 && Part(f.data, bs, b) != [] ==> Holds(disk, bs, f.inode.block[b], Part(f.data, bs, b))
    ensures Stored(disk, bs, 1, f.record.inode, f.inode, f.data)
  {
    assert (i + 4 - 1) * 128 == i * 128 + 384;
  }

  lemma InodeStands(bs: Word, fs: seq<File>, root: Inode, disk: seq<seq<Byte>>, blocks: seq<seq<Byte>>, i: nat)
    requires ProperInode(root) && ProperInodes(fs) && ProperFiles(fs)
    requires Consists(disk, bs, blocks) && Laid(blocks, bs, root, fs) && i < |fs|
    ensures BytesAt(disk, Start(bs, 1) + (i * 128 + 384), InodeBytes(fs[i].inode))
  {
    assert BlockStands(disk, bs, 1, blocks[1]);
    PartStands(disk, bs, 1, blocks[1], i * 128 + 384, InodeBytes(fs[i].inode));
  }

  /** A file's inode and its blocks, on a disk that consists of the blocks. */
  lemma FileStands(bs: Word, fs: seq<File>, root: Inode, disk: seq<seq<Byte>>, blocks: seq<seq<Byte>>, i: nat)
    requires bs > 0 && ProperInode(root) && ProperInodes(fs) && ProperFiles(fs)
    requires Consists(disk, bs, blocks) && Laid(blocks, bs, root, fs) && i < |fs| && Placed(bs, fs[i], i)
    ensures Stored(disk, bs, 1, fs[i].record.inode, fs[i].inode, fs[i].data)
  {
    InodeStands(bs, fs, root, disk, blocks, i);
    PartsStand(bs, root, fs, disk, blocks, i, fs[i].inode.block);
    StoredThere(disk, bs, fs[i], i);
  }

  /** The root's inode and the directory. */
  lemma RootStands(bs: Word, root: Inode, fs: seq<File>, disk: seq<seq<Byte>>, blocks: seq<seq<Byte>>, dir: seq<Byte>)
    requires ProperInode(root) && ProperInodes(fs) && ProperFiles(fs)
    requires Consists(disk, bs, blocks) && Laid(blocks, bs, root, fs) && dir == Directory(fs)
    requires 384 <= bs && root.size == |dir| <= bs && root.block[0] == 2
    ensures RootStored(disk, bs, 1, root, dir, [])
  {
    assert BlockStands(disk, bs, 1, blocks[1]) && BlockStands(disk, bs, 2, blocks[2]);
    PartStands(disk, bs, 1, blocks[1], 256, InodeBytes(root));
    PartStands(disk, bs, 2, blocks[2], 0, dir);
    assert dir + [] == dir;
  }

  lemma FilesStand(bs: Word, fs: seq<File>, root: Inode, disk: seq<seq<Byte>>, blocks: seq<seq<Byte>>)
    requires bs > 0 && ProperInode(root) && ProperInodes(fs) && ProperFiles(fs)
    requires forall i :: 0 <= i < |fs| && fs[i].record.Live() ==> Placed(bs, fs[i], i)
    requires Laid(blocks, bs, root, fs) && Consists(disk, bs, blocks)
    ensures AllStored(disk, bs, 1, fs)
  {
    forall i | 0 <= i < |fs| && fs[i].record.Live()
      ensures Stored(disk, bs, 1, fs[i].record.inode, fs[i].inode, fs[i].data)
    {
      FileStands(bs, fs, root, disk, blocks, i);
    }
  }

  /** Blocks that stand on a disk make it an image of the files. */
  lemma ConsistsIsImage(bs: Word, fs: seq<File>, root: Inode, disk: seq<seq<Byte>>, blocks: seq<seq<Byte>>)
    requires 384 <= bs && ProperInode(root) && ProperInodes(fs) && ProperFiles(fs)
    requires forall i :: 0 <= i < |fs| && fs[i].record.Live() ==> Placed(bs, fs[i], i)
    requires root.size == |Directory(fs)| <= bs && root.block[0] == 2
    requires Laid(blocks, bs, root, fs) && Consists(disk, bs, blocks)
    ensures Image(Volume(disk, bs, 1), root, fs, [])
  {
    RootStands(bs, root, fs, disk, blocks, Directory(fs));
    FilesStand(bs, fs, root, disk, blocks);
  }

  lemma PlansPlaced(bs: Word, plans: seq<Plan>, i: nat)
    requires Fits(bs, plans) && i < |plans|
    ensures var f := Files(bs, plans)[i]; ProperInode(f.inode) && (f.record.Live() ==> Placed(bs, f, i))
  {}

  /** The volume with these files. */
  ghost function Made(bs: Word, plans: seq<Plan>, meta: Inode): Volume
    requires Fits(bs, plans) && ProperInode(meta)
  {
    Volume(Sectored(bs / SECTOR, Blocks(bs, Root(bs, plans, meta), Files(bs, plans))), bs, 1)
  }

  /** Any list of files that has room becomes an image of these files. */
  lemma MakesImage(bs: Word, plans: seq<Plan>, meta: Inode)
    requires Fits(bs, plans) && ProperInode(meta)
    ensures Image(Made(bs, plans, meta), Root(bs, plans, meta), Files(bs, plans), [])
  {
    var fs, root := Files(bs, plans), Root(bs, plans, meta);
    var blocks := Blocks(bs, root, fs);
    SectoredConsists(bs, bs / SECTOR, blocks);
    BlocksLaid(bs, root, fs, blocks);
    forall i | 0 <= i < |fs| && fs[i].record.Live() ensures Placed(bs, fs[i], i) {
      PlansPlaced(bs, plans, i);
    }
    ConsistsIsImage(bs, fs, root, Sectored(bs / SECTOR, blocks), blocks);
  }

  /** The first plan with this name that is not of a deleted file. */
  predicate FirstPlan(plans: seq<Plan>, i: nat, name: Name) {
    && i < |plans| && !plans[i].deleted && name != [] && name == plans[i].name
    && forall j :: 0 <= j < i && !plans[j].deleted ==> plans[j].name != name && |plans[j].name| <= 63
  }

  lemma FirstPlanIsFirst(bs: Word, plans: seq<Plan>, i: nat, name: Name)
    requires Fits(bs, plans) && FirstPlan(plans, i, name)
    ensures IsFirst(Files(bs, plans), i, name) && Files(bs, plans)[i].data == plans[i].data
  {}

  /** Whatever files are put on a disk: each name of at most 63 bytes reads as its own file's data. */
  lemma MadeReads(bs: Word, plans: seq<Plan>, meta: Inode, i: nat, name: Name)
    requires Fits(bs, plans) && ProperInode(meta) && FirstPlan(plans, i, name)
    ensures var v := Made(bs, plans, meta);
            v.Fits() && v.HasData(name) && v.Content(name) == plans[i].data
  {
    MakesImage(bs, plans, meta);
    FirstPlanIsFirst(bs, plans, i, name);
    ImageRead(Made(bs, plans, meta), Root(bs, plans, meta), Files(bs, plans), [], i, name);
  }

  /** Put files on a disk, mount it and read one. */
  method MakeAndRead(v: Volume, ghost plans: seq<Plan>, ghost meta: Inode, ghost i: nat, name: Name, buf: array<Byte>)
    requires Fits(v.blockSize, plans) && ProperInode(meta) && v == Made(v.blockSize, plans, meta)
    requires FirstPlan(plans, i, name) && |plans[i].data| < buf.Length
    modifies buf
    ensures buf[..|plans[i].data|] == plans[i].data && buf[|plans[i].data|] == 0
  {
    MakesImage(v.blockSize, plans, meta);
    FirstPlanIsFirst(v.blockSize, plans, i, name);
    MountAndRead(v, Root(v.blockSize, plans, meta), Files(v.blockSize, plans), [], i, name, buf);
  }

  /** The names and types that a listing shows. */
  function Names(plans: seq<Plan>): seq<(seq<Byte>, bool)> {
    if plans == [] then []
    else (if plans[0].deleted || plans[0].name == [] then [] else [(plans[0].name, plans[0].fileType == 2)]) + Names(plans[1..])
  }

  predicate ShortNames(plans: seq<Plan>) { forall i :: 0 <= i < |plans| ==> |plans[i].name| <= 63 }

  predicate AgreeOn(r: Record, p: Plan) {
    r.name == p.name && r.fileType == p.fileType && (r.inode == 0 <==> p.deleted)
  }

  /** The records say what the plans say. */
  predicate Agree(fs: seq<File>, plans: seq<Plan>) {
    |fs| == |plans| && forall i :: 0 <= i < |fs| ==> AgreeOn(fs[i].record, plans[i])
  }

  lemma {:induction false} ShownNames(fs: seq<File>, plans: seq<Plan>)
    requires ProperFiles(fs) && ShortNames(plans) && Agree(fs, plans)
    ensures |ListingOf(fs)| == |Names(plans)|
    ensures forall i :: 0 <= i < |ListingOf(fs)| ==> (ListingOf(fs)[i].name, ListingOf(fs)[i].isDir) == Names(plans)[i]
  {
    if fs != [] {
      assert AgreeOn(fs[0].record, plans[0]);
      ShownNames(fs[1..], plans[1..]);
    }
  }

  lemma PlansAgree(bs: Word, plans: seq<Plan>)
    requires Fits(bs, plans)
    ensures Agree(Files(bs, plans), plans)
  {}

  /** Put files on a disk, mount it and list them: the names that are not deleted, in order, with their types. */
  method MakeAndList(v: Volume, ghost plans: seq<Plan>, ghost meta: Inode) returns (list: array<ListEntry>)
    requires Fits(v.blockSize, plans) && ProperInode(meta) && v == Made(v.blockSize, plans, meta) && ShortNames(plans)
    ensures list.Length == |Names(plans)|
    ensures forall i :: 0 <= i < list.Length ==> (list[i].name, list[i].isDir) == Names(plans)[i] && list[i].size == 0
  {
    MakesImage(v.blockSize, plans, meta);
    PlansAgree(v.blockSize, plans);
    ShownNames(Files(v.blockSize, plans), plans);
    list := MountAndList(v, Root(v.blockSize, plans, meta), Files(v.blockSize, plans), []);
  }

  /** The virtual files stand behind the disk's entries, in their order, with their sizes. */
  lemma FilesListed(disk: seq<DirEntry>, files: seq<VFile>, i: nat)
    requires i < |files|
    ensures |FileList(disk, files)| == |disk| + |files|
    ensures var e := FileList(disk, files)[|disk| + i];
            e.name == files[i].name && !e.isDir && e.size == match files[i].data case Some(d) => |d| case None => 0
  {}
}
