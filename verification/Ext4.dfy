/** src/core/fs/ext4.cpp: the linked list of virtual files in front of the disk. */
module Ext4 {
  import opened Machine32
  import opened Bytes
  import opened Ext4Layout
  import opened VirtualFiles
  import opened Ext4Disk

  class VirtualFile {
    var name: Name
    var data: Option<seq<Byte>>
    var size: int
    var isDir: bool
    var next: VirtualFile?

    constructor (name: Name, next: VirtualFile?)
      ensures this.name == name && data == None && size == 0 && !isDir && this.next == next
    {
      this.name, data, size, isDir, this.next := name, None, 0, false, next;
    }
  }

  /** How far the directory walk goes. */
  function Limit(table: seq<Byte>, bs: Word): Word
    requires InodeFits(table, ROOT_INODE)
  {
    if InodeSize(table, ROOT_INODE) < bs then InodeSize(table, ROOT_INODE) else bs
  }

  /** A mounted volume; block size 0 stands for no disk. */
  datatype Volume = Volume(disk: seq<seq<Byte>>, blockSize: Word, inodeTable: Word) {
    ghost function Table(): seq<Byte>
      requires OnDisk(disk, blockSize, inodeTable)
    {
      BlockBytes(disk, blockSize, inodeTable)
    }

    ghost function RootDir(): seq<Byte>
      requires OnDisk(disk, blockSize, inodeTable) && InodeFits(Table(), ROOT_INODE)
      requires OnDisk(disk, blockSize, InodeBlock(Table(), ROOT_INODE, 0))
    {
      BlockBytes(disk, blockSize, InodeBlock(Table(), ROOT_INODE, 0))
    }

    /** The inode table, the root directory and the files are where the code looks for them. */
    ghost predicate Fits() {
      blockSize > 0 ==>
        && SectorsSized(disk) && OnDisk(disk, blockSize, inodeTable)
        && InodeFits(Table(), ROOT_INODE)
        && OnDisk(disk, blockSize, InodeBlock(Table(), ROOT_INODE, 0))
        && WalkFits(RootDir(), Limit(Table(), blockSize), 0)
    }

    /** What the root directory lists. */
    ghost function Listing(): seq<DirEntry>
      requires Fits()
    {
      if blockSize == 0 then [] else Entries(RootDir(), Limit(Table(), blockSize), 0)
    }

    /** The inode listed for this name, if any, and its blocks are where the code looks for them. */
    ghost predicate HasData(name: Name)
      requires Fits()
    {
      var inode := DiskFind(Listing(), name);
      inode != 0 ==> FileFits(disk, blockSize, Table(), (inode - 1) * INODE_STRIDE)
    }

    /** A file of the disk, from the inode at the 128-byte stride its number gives. */
    ghost function Content(name: Name): seq<Byte>
      requires Fits() && HasData(name)
    {
      var inode := DiskFind(Listing(), name);
      if inode == 0 then [] else FileBytes(disk, blockSize, Table(), (inode - 1) * INODE_STRIDE)
    }
  }

  /** `ReadFile` where no virtual file has the name. */
  method ReadFromDisk(v: Volume, name: Name, buf: array<Byte>)
    requires v.Fits() && v.HasData(name) && |v.Content(name)| < buf.Length
    modifies buf
    ensures var c := v.Content(name); buf[..|c|] == c && buf[|c|] == 0
  {
    if v.blockSize > 0 {
      var table := ReadBlock(v.disk, v.blockSize, v.inodeTable);
      var dir := ReadBlock(v.disk, v.blockSize, InodeBlock(table[..], ROOT_INODE, 0));
      var inode := FindOnDisk(dir, Limit(table[..], v.blockSize), name);
      if inode != 0 {
        ReadInode(v.disk, v.blockSize, table, (inode - 1) * INODE_STRIDE, buf);
      } else {
        buf[0] := 0;
      }
    } else {
      buf[0] := 0;
    }
  }

  /** The counting pass over the disk's directory. */
  method CountOnDisk(v: Volume) returns (count: nat)
    requires v.Fits()
    ensures count == |v.Listing()|
  {
    count := 0;
    if v.blockSize > 0 {
      var table := ReadBlock(v.disk, v.blockSize, v.inodeTable);
      var dir := ReadBlock(v.disk, v.blockSize, InodeBlock(table[..], ROOT_INODE, 0));
      count := CountEntries(dir, Limit(table[..], v.blockSize));
    }
  }

  /** The filling pass, which finds what was counted. */
  method FillFromDisk(v: Volume, list: array<ListEntry>) returns (count: nat)
    requires v.Fits() && |v.Listing()| <= list.Length
    modifies list
    ensures count == |v.Listing()|
    ensures forall i :: 0 <= i < count ==> list[i] == DiskItem(v.Listing()[i])
  {
    count := 0;
    if v.blockSize > 0 {
      var table := ReadBlock(v.disk, v.blockSize, v.inodeTable);
      var dir := ReadBlock(v.disk, v.blockSize, InodeBlock(table[..], ROOT_INODE, 0));
      count := FillEntries(dir, Limit(table[..], v.blockSize), list);
    }
  }

  class FileSystem {
    const volume: Volume
    var root: VirtualFile?
    ghost const listing: seq<DirEntry>
    ghost var nodes: seq<VirtualFile>
    ghost var files: seq<VFile>

    ghost predicate Mounted() {
      volume.Fits() && listing == volume.Listing()
    }

    ghost function At(i: int): VirtualFile?
      requires 0 <= i
      reads this
    {
      if i < |nodes| then nodes[i] else null
    }

    ghost predicate Node(i: int)
      requires 0 <= i < |nodes| == |files|
      reads this, nodes
    {
      && VFile(nodes[i].name, nodes[i].data) == files[i]
      && nodes[i].size == |Content(files[i])| && !nodes[i].isDir
      && nodes[i].next == At(i + 1)
    }

    /** The list from `root` is `nodes`; none of its files is a directory, is named twice, or is on the disk. */
    ghost predicate Valid()
      reads this, nodes
    {
      && |nodes| == |files| && root == At(0)
      && (forall i {:trigger Node(i)} :: 0 <= i < |nodes| ==> Node(i))
      && (forall i, j :: 0 <= i < j < |nodes| ==> nodes[i] != nodes[j])
      && Inv(files, listing)
    }

    constructor (volume: Volume)
      requires volume.Fits()
      ensures Mounted() && Valid() && files == [] && this.volume == volume
    {
      this.volume := volume;
      listing := volume.Listing();
      root, nodes, files := null, [], [];
    }

    // ----- Searching the list -----

    /** The first file with this name, and the node before it. */
    method FindNode(name: Name) returns (curr: VirtualFile?, prev: VirtualFile?)
      requires Valid()
      ensures curr == At(Find(files, name, 0))
      ensures curr == null <==> !Has(files, name)
      ensures curr != null ==> prev == if Find(files, name, 0) == 0 then null else nodes[Find(files, name, 0) - 1]
    {
      curr, prev := root, null;
      ghost var i := 0;
      while curr != null
        invariant 0 <= i <= |nodes| && curr == At(i) && (i > 0 ==> prev == nodes[i - 1]) && (i == 0 ==> prev == null)
        invariant forall j :: 0 <= j < i ==> files[j].name != name
        decreases |nodes| - i
      {
        assert Node(i);
        if curr.name == name {
          FindIs(files, name, i);
          return;
        }
        prev := curr;
        curr := curr.next;
        i := i + 1;
      }
      FindIs(files, name, |files|);
    }

    // ----- Reading -----

    /** There is a virtual file, or what the disk has for the name can be read. */
    ghost predicate Readable(name: Name)
      requires Mounted()
      reads this
    {
      Has(files, name) || volume.HasData(name)
    }

    /** What `ReadFile` puts in front of the NUL. */
    ghost function ReadContent(name: Name): seq<Byte>
      requires Mounted() && Readable(name)
      reads this
    {
      if Has(files, name) then Content(files[Find(files, name, 0)]) else volume.Content(name)
    }

    /** Copy `data` and end it with a NUL. */
    static method CopyOut(data: seq<Byte>, buf: array<Byte>)
      requires |data| < buf.Length
      modifies buf
      ensures buf[..|data|] == data && buf[|data|] == 0
    {
      var i := 0;
      while i < |data|
        invariant 0 <= i <= |data| && buf[..i] == data[..i]
      {
        buf[i] := data[i];
        i := i + 1;
      }
      buf[|data|] := 0;
    }

    method ReadFile(name: Name, buf: array<Byte>)
      requires Mounted() && Valid() && Readable(name) && |ReadContent(name)| < buf.Length
      modifies buf
      ensures Valid()
      ensures var c := ReadContent(name); buf[..|c|] == c && buf[|c|] == 0
    {
      var curr, _ := FindNode(name);
      if curr != null {
        assert Node(Find(files, name, 0));
        if curr.data.Some? {
          CopyOut(curr.data.value, buf);
        } else {
          buf[0] := 0;
        }
      } else {
        ReadFromDisk(volume, name, buf);
      }
    }

    // ----- Listing -----

    /** The number of virtual files. */
    method CountFiles(start: nat) returns (count: nat)
      requires Valid()
      ensures count == start + |files|
    {
      var curr := root;
      count := start;
      ghost var i := 0;
      while curr != null
        invariant 0 <= i <= |nodes| && curr == At(i) && count == start + i
        decreases |nodes| - i
      {
        assert Node(i);
        count := count + 1;
        curr := curr.next;
        i := i + 1;
      }
    }

    /** Append the virtual files behind the disk's entries. */
    method FillFiles(list: array<ListEntry>, start: nat)
      requires Valid() && list.Length == start + |files|
      modifies list
      ensures forall i :: 0 <= i < start ==> list[i] == old(list[i])
      ensures forall i :: 0 <= i < |files| ==> list[start + i] == FileItem(files[i])
    {
      var curr, count := root, start;
      ghost var i := 0;
      while curr != null
        invariant 0 <= i <= |nodes| && curr == At(i) && count == start + i
        invariant forall k :: 0 <= k < start ==> list[k] == old(list[k])
        invariant forall k :: 0 <= k < i ==> list[start + k] == FileItem(files[k])
        decreases |nodes| - i
      {
        assert Node(i);
        list[count] := ListEntry(curr.name, curr.isDir, curr.size);
        count := count + 1;
        curr := curr.next;
        i := i + 1;
      }
    }

    /** The first pass counts exactly what the second pass fills in. */
    method GetFileList() returns (list: array<ListEntry>)
      requires Mounted() && Valid()
      ensures fresh(list) && list[..] == FileList(listing, files)
    {
      var count := CountOnDisk(volume);
      count := CountFiles(count);
      var empty: Name := [];
      list := new ListEntry[count](_ => ListEntry(empty, false, 0));
      count := FillFromDisk(volume, list);
      FillFiles(list, count);
    }

    // ----- Changing -----

    /** A name is in the file list exactly when the disk or the list of virtual files has it. */
    static lemma ListNames(listing: seq<DirEntry>, files: seq<VFile>, name: Name)
      ensures (exists i :: 0 <= i < |FileList(listing, files)| && FileList(listing, files)[i].name == name)
              <==> OnDiskList(listing, name) || Has(files, name)
    {
      var all := FileList(listing, files);
      if OnDiskList(listing, name) {
        var i :| 0 <= i < |listing| && listing[i].name == name;
        assert all[i].name == name;
      }
      if Has(files, name) {
        assert all[|listing| + Find(files, name, 0)].name == name;
      }
      if i :| 0 <= i < |all| && all[i].name == name {
        if i < |listing| {
          assert listing[i].name == name;
        } else {
          assert files[i - |listing|].name == name;
        }
      }
    }

    /** Is the name in the file list? */
    method IsListed(name: Name) returns (found: bool)
      requires Mounted() && Valid()
      ensures Valid() && (found <==> OnDiskList(listing, name) || Has(files, name))
    {
      var list := GetFileList();
      found := false;
      var i := 0;
      while i < list.Length
        invariant 0 <= i <= list.Length && !found
        invariant forall k :: 0 <= k < i ==> list[k].name != name
      {
        if list[i].name == name {
          found := true;
          break;
        }
        i := i + 1;
      }
      ListNames(listing, files, name);
      if found {
        assert list[..][i].name == name;
      } else {
        assert forall k :: 0 <= k < list.Length ==> list[..][k].name != name;
      }
    }

    /** Put a new file in front of the chain. */
    method PushFront(name: Name)
      requires Valid() && Inv([VFile(name, None)] + files, listing)
      modifies this`root, this`nodes, this`files
      ensures Valid() && files == [VFile(name, None)] + old(files)
      ensures fresh(set n | n in nodes && n !in old(nodes))
    {
      var f := new VirtualFile(name, root);
      root := f;
      nodes := [f] + nodes;
      files := [VFile(name, None)] + files;
      forall k | 0 <= k < |nodes| ensures Node(k) {
        if k > 0 { assert old(Node(k - 1)); }
      }
    }

    method Touch(name: Name)
      requires Mounted() && Valid()
      modifies this`root, this`nodes, this`files
      ensures Valid() && files == VirtualFiles.Touch(old(files), listing, name)
      ensures fresh(set n | n in nodes && n !in old(nodes))
    {
      var exists_ := IsListed(name);
      if exists_ {
        return;
      }
      TouchLaw(files, listing, name);
      PushFront(name);
    }

    /** A copy of the first `size` bytes. */
    static method CopyIn(data: array<Byte>, size: nat) returns (copy: seq<Byte>)
      requires size <= data.Length
      ensures copy == data[..size]
    {
      var buffer := new Byte[size];
      var k := 0;
      while k < size
        invariant 0 <= k <= size && buffer[..k] == data[..k]
      {
        buffer[k] := data[k];
        k := k + 1;
      }
      copy := buffer[..];
    }

    /** Give the i-th file new data. */
    method Update(curr: VirtualFile, data: array<Byte>, size: nat, ghost i: nat)
      requires Valid() && size <= data.Length && i < |nodes| && curr == nodes[i]
      modifies this`files, curr`data, curr`size
      ensures Valid() && nodes == old(nodes) && root == old(root)
      ensures files == old(files)[i := VFile(old(files)[i].name, Some(data[..size]))]
    {
      var copy := CopyIn(data, size);
      assert Node(i);
      label Before:
      curr.data := Some(copy);
      curr.size := size;
      files := files[i := VFile(files[i].name, Some(copy))];
      forall j | 0 <= j < |nodes| ensures Node(j) {
        assert old@Before(Node(j));
      }
    }

    /** Writing a file that has just been created is writing it where there was none. */
    static lemma CreatedThenWritten(files: seq<VFile>, name: Name, data: seq<Byte>)
      requires !Has(files, name)
      ensures Has([VFile(name, None)] + files, name)
      ensures Write([VFile(name, None)] + files, name, data) == Write(files, name, data)
    {
      FindIs([VFile(name, None)] + files, name, 0);
    }

    /** `WriteFile`, for the names for which it returns (see `WriteReturnsIff`): at most one recursive call. */
    method WriteFile(name: Name, data: array<Byte>, size: nat)
      requires Mounted() && Valid() && size <= data.Length
      requires Has(files, name) || !OnDiskList(listing, name)
      modifies this`root, this`nodes, this`files, nodes
      ensures Valid() && files == Write(old(files), name, data[..size])
      ensures fresh(set n | n in nodes && n !in old(nodes))
      decreases if Has(files, name) then 0 else 1
    {
      var curr, _ := FindNode(name);
      if curr != null {
        Update(curr, data, size, Find(files, name, 0));
        return;
      }
      CreatedThenWritten(files, name, data[..size]);
      Touch(name);
      WriteFile(name, data, size);
    }

    /** Take the i-th node out of the chain. */
    method Unlink(curr: VirtualFile, prev: VirtualFile?, ghost i: nat)
      requires Valid() && i < |nodes| && curr == nodes[i] && prev == if i == 0 then null else nodes[i - 1]
      requires Inv(files[..i] + files[i + 1..], listing)
      modifies this`root, this`nodes, this`files, nodes
      ensures Valid() && files == old(files)[..i] + old(files)[i + 1..]
      ensures nodes == old(nodes)[..i] + old(nodes)[i + 1..]
    {
      assert Node(i);
      if prev != null {
        prev.next := curr.next;
      } else {
        root := curr.next;
      }
      nodes := nodes[..i] + nodes[i + 1..];
      files := files[..i] + files[i + 1..];
      forall k | 0 <= k < |nodes| ensures Node(k) {
        if k < i { assert old(Node(k)); } else { assert old(Node(k + 1)); }
      }
    }

    method Rm(name: Name)
      requires Valid()
      modifies this`root, this`nodes, this`files, nodes
      ensures Valid() && files == Remove(old(files), name)
      ensures forall n :: n in nodes ==> n in old(nodes)
    {
      var curr, prev := FindNode(name);
      if curr != null {
        ghost var i := Find(files, name, 0);
        RemoveInv(files, listing, i);
        Unlink(curr, prev, i);
      }
    }

    /** `DirExists` answers true for every path, so `MkDir` never adds anything. */
    method DirExists(path: Name) returns (found: bool)
      requires Valid()
      ensures found
    {
      var curr := root;
      ghost var i := 0;
      while curr != null
        invariant 0 <= i <= |nodes| && curr == At(i)
        decreases |nodes| - i
      {
        assert Node(i);
        if curr.name == path && curr.isDir {
          return true;
        }
        curr := curr.next;
        i := i + 1;
      }
      found := true;
    }
  }
}
