/** The list of in-memory files that src/core/fs/ext4.cpp puts in front of its disk, as a value. */
module VirtualFiles {
  import opened Machine32
  import opened Bytes
  import opened Ext4Layout

  /** A file without data has been touched but not written. */
  datatype VFile = VFile(name: Name, data: Option<seq<Byte>>)

  function Content(f: VFile): seq<Byte> { f.data.GetOr([]) }

  /** The first file with this name, or the length of the list. */
  function Find(fs: seq<VFile>, name: Name, i: nat): (r: nat)
    requires i <= |fs|
    ensures i <= r <= |fs|
    ensures r < |fs| ==> fs[r].name == name
    ensures forall j :: i <= j < r ==> fs[j].name != name
    decreases |fs| - i
  {
    if i == |fs| || fs[i].name == name then i else Find(fs, name, i + 1)
  }

  predicate Has(fs: seq<VFile>, name: Name) { Find(fs, name, 0) < |fs| }

  predicate OnDiskList(disk: seq<DirEntry>, name: Name) { exists i :: 0 <= i < |disk| && disk[i].name == name }

  /** `Touch`: a new file in front, unless the listing has the name. */
  function Touch(fs: seq<VFile>, disk: seq<DirEntry>, name: Name): seq<VFile> {
    if OnDiskList(disk, name) || Has(fs, name) then fs else [VFile(name, None)] + fs
  }

  /** `WriteFile` with a bound on its recursion: None while the bound is too small. */
  function WriteBounded(fs: seq<VFile>, disk: seq<DirEntry>, name: Name, data: seq<Byte>, calls: nat): Option<seq<VFile>>
    decreases calls
  {
    if calls == 0 then None
    else if Has(fs, name) then Some(fs[Find(fs, name, 0) := VFile(name, Some(data))])
    else WriteBounded(Touch(fs, disk, name), disk, name, data, calls - 1)
  }

  /** `WriteFile` where it returns. */
  function Write(fs: seq<VFile>, name: Name, data: seq<Byte>): seq<VFile> {
    if Has(fs, name) then fs[Find(fs, name, 0) := VFile(name, Some(data))]
    else [VFile(name, Some(data))] + fs
  }

  function Remove(fs: seq<VFile>, name: Name): seq<VFile> {
    var i := Find(fs, name, 0);
    if i < |fs| then fs[..i] + fs[i + 1..] else fs
  }

  // ----- When WriteFile returns -----

  lemma {:induction false} WriteStuck(fs: seq<VFile>, disk: seq<DirEntry>, name: Name, data: seq<Byte>, calls: nat)
    requires OnDiskList(disk, name) && !Has(fs, name)
    ensures WriteBounded(fs, disk, name, data, calls) == None
  {
    if calls > 0 {
      WriteStuck(fs, disk, name, data, calls - 1);
    }
  }

  lemma WriteReturns(fs: seq<VFile>, disk: seq<DirEntry>, name: Name, data: seq<Byte>, calls: nat)
    requires !OnDiskList(disk, name) || Has(fs, name)
    requires calls >= 2
    ensures WriteBounded(fs, disk, name, data, calls) == Some(Write(fs, name, data))
  {
    if !Has(fs, name) {
      var fs' := Touch(fs, disk, name);
      assert Find(fs', name, 0) == 0;
      assert ([VFile(name, None)] + fs)[0 := VFile(name, Some(data))] == [VFile(name, Some(data))] + fs;
      assert WriteBounded(fs', disk, name, data, calls - 1) == Some(fs'[0 := VFile(name, Some(data))]);
    }
  }

  /**
    `WriteFile` returns, after at most one recursive call, exactly when the name is an
    in-memory file already or is not listed on the disk; otherwise it calls itself forever.
  */
  lemma WriteReturnsIff(fs: seq<VFile>, disk: seq<DirEntry>, name: Name, data: seq<Byte>)
    ensures (exists calls: nat :: WriteBounded(fs, disk, name, data, calls).Some?)
            <==> (Has(fs, name) || !OnDiskList(disk, name))
    ensures Has(fs, name) || !OnDiskList(disk, name) ==>
              WriteBounded(fs, disk, name, data, 2) == Some(Write(fs, name, data))
  {
    if Has(fs, name) || !OnDiskList(disk, name) {
      WriteReturns(fs, disk, name, data, 2);
    } else {
      forall calls: nat ensures WriteBounded(fs, disk, name, data, calls) == None {
        WriteStuck(fs, disk, name, data, calls);
      }
    }
  }

  // ----- The finite map -----

  /** No name twice, and none that the disk lists. */
  ghost predicate Inv(fs: seq<VFile>, disk: seq<DirEntry>) {
    && (forall i, j :: 0 <= i < j < |fs| ==> fs[i].name != fs[j].name)
    && (forall i :: 0 <= i < |fs| ==> !OnDiskList(disk, fs[i].name))
  }

  ghost function Files(fs: seq<VFile>): map<Name, seq<Byte>> {
    if fs == [] then map[] else Files(fs[1..])[fs[0].name := Content(fs[0])]
  }

  lemma FindTail(fs: seq<VFile>, name: Name)
    requires fs != []
    ensures Find(fs, name, 0) == if fs[0].name == name then 0 else Find(fs[1..], name, 0) + 1
  {
    var r, t := Find(fs, name, 0), Find(fs[1..], name, 0);
    if fs[0].name != name {
      assert forall j :: 0 <= j < |fs| - 1 ==> fs[1..][j] == fs[j + 1];
      if t < |fs| - 1 {
        assert fs[t + 1].name == name;
      }
      if 0 < r < |fs| {
        assert fs[1..][r - 1].name == name;
      }
    }
  }

  lemma {:induction false} FilesAre(fs: seq<VFile>, name: Name)
    ensures name in Files(fs) <==> Has(fs, name)
    ensures name in Files(fs) ==> Files(fs)[name] == Content(fs[Find(fs, name, 0)])
  {
    if fs != [] {
      FilesAre(fs[1..], name);
      FindTail(fs, name);
    }
  }

  lemma FindIs(fs: seq<VFile>, name: Name, i: nat)
    requires i <= |fs| && (i < |fs| ==> fs[i].name == name)
    requires forall j :: 0 <= j < i ==> fs[j].name != name
    ensures Find(fs, name, 0) == i
  {}

  /** Replacing the content of a file. */
  lemma UpdateFiles(fs: seq<VFile>, i: nat, data: seq<Byte>)
    requires i < |fs| && forall j, k :: 0 <= j < k < |fs| ==> fs[j].name != fs[k].name
    ensures Files(fs[i := VFile(fs[i].name, Some(data))]) == Files(fs)[fs[i].name := data]
  {
    var name, fs' := fs[i].name, fs[i := VFile(fs[i].name, Some(data))];
    forall n: Name
      ensures n in Files(fs') <==> n == name || n in Files(fs)
      ensures n in Files(fs') ==> Files(fs')[n] == if n == name then data else Files(fs)[n]
    {
      FilesAre(fs, n);
      FilesAre(fs', n);
      FindIs(fs', n, Find(fs, n, 0));
      if n == name {
        FindIs(fs, n, i);
      }
    }
  }

  lemma PushFiles(fs: seq<VFile>, f: VFile)
    ensures Files([f] + fs) == Files(fs)[f.name := Content(f)]
  {
    assert ([f] + fs)[1..] == fs;
  }

  lemma WriteInv(fs: seq<VFile>, disk: seq<DirEntry>, name: Name, data: seq<Byte>)
    requires Inv(fs, disk) && !OnDiskList(disk, name)
    ensures Inv(Write(fs, name, data), disk)
  {}

  /** `WriteFile` is a map update. */
  lemma WriteLaw(fs: seq<VFile>, disk: seq<DirEntry>, name: Name, data: seq<Byte>)
    requires Inv(fs, disk) && !OnDiskList(disk, name)
    ensures Inv(Write(fs, name, data), disk)
    ensures Files(Write(fs, name, data)) == Files(fs)[name := data]
  {
    WriteInv(fs, disk, name, data);
    if Has(fs, name) {
      UpdateFiles(fs, Find(fs, name, 0), data);
    } else {
      PushFiles(fs, VFile(name, Some(data)));
    }
  }

  /** `Touch` adds an empty file under a new name, and changes nothing else. */
  lemma TouchLaw(fs: seq<VFile>, disk: seq<DirEntry>, name: Name)
    requires Inv(fs, disk)
    ensures Inv(Touch(fs, disk, name), disk)
    ensures Files(Touch(fs, disk, name)) ==
            if OnDiskList(disk, name) || name in Files(fs) then Files(fs) else Files(fs)[name := []]
  {
    FilesAre(fs, name);
    PushFiles(fs, VFile(name, None));
  }

  /** What is where after the i-th file has been unlinked. */
  lemma Unlinked(fs: seq<VFile>, i: nat)
    requires i < |fs|
    ensures var fs' := fs[..i] + fs[i + 1..];
            && |fs'| == |fs| - 1
            && (forall j :: 0 <= j < i ==> fs'[j] == fs[j])
            && forall j :: i <= j < |fs'| ==> fs'[j] == fs[j + 1]
  {}

  lemma RemoveOne(fs: seq<VFile>, i: nat, n: Name)
    requires i < |fs| && forall j, k :: 0 <= j < k < |fs| ==> fs[j].name != fs[k].name
    ensures var fs' := fs[..i] + fs[i + 1..];
            && (n in Files(fs') <==> n != fs[i].name && n in Files(fs))
            && (n in Files(fs') ==> Files(fs')[n] == Files(fs)[n])
  {
    var fs' := fs[..i] + fs[i + 1..];
    Unlinked(fs, i);
    FilesAre(fs, n);
    FilesAre(fs', n);
    var r := Find(fs, n, 0);
    if n == fs[i].name {
      FindIs(fs', n, |fs'|);
    } else {
      FindIs(fs', n, if r < i then r else r - 1);
    }
  }

  lemma SameMaps(f: map<Name, seq<Byte>>, g: map<Name, seq<Byte>>)
    requires forall n: Name :: n in f <==> n in g
    requires forall n: Name :: n in f && n in g ==> f[n] == g[n]
    ensures f == g
  {}

  lemma RemoveFiles(fs: seq<VFile>, i: nat)
    requires i < |fs| && forall j, k :: 0 <= j < k < |fs| ==> fs[j].name != fs[k].name
    ensures Files(fs[..i] + fs[i + 1..]) == Files(fs) - {fs[i].name}
  {
    var f, g := Files(fs[..i] + fs[i + 1..]), Files(fs) - {fs[i].name};
    forall n: Name ensures n in f <==> n in g {
      RemoveOne(fs, i, n);
    }
    forall n: Name | n in f && n in g ensures f[n] == g[n] {
      RemoveOne(fs, i, n);
    }
    SameMaps(f, g);
  }

  lemma RemoveInv(fs: seq<VFile>, disk: seq<DirEntry>, i: nat)
    requires Inv(fs, disk) && i < |fs|
    ensures Inv(fs[..i] + fs[i + 1..], disk)
  {
    Unlinked(fs, i);
  }

  /** `Rm` removes the name, and no other. */
  lemma RemoveLaw(fs: seq<VFile>, disk: seq<DirEntry>, name: Name)
    requires Inv(fs, disk)
    ensures Inv(Remove(fs, name), disk)
    ensures Files(Remove(fs, name)) == Files(fs) - {name}
  {
    FilesAre(fs, name);
    var i := Find(fs, name, 0);
    if i < |fs| {
      RemoveFiles(fs, i);
      RemoveInv(fs, disk, i);
    }
  }

  // ----- Runs -----

  datatype Op = TouchOp(name: Name) | WriteOp(name: Name, data: seq<Byte>) | RmOp(name: Name) | MkDirOp(name: Name)

  function Step(fs: seq<VFile>, disk: seq<DirEntry>, op: Op): seq<VFile> {
    match op
    case TouchOp(name) => Touch(fs, disk, name)
    case WriteOp(name, data) => Write(fs, name, data)
    case RmOp(name) => Remove(fs, name)
    case MkDirOp(_) => fs
  }

  function Run(fs: seq<VFile>, disk: seq<DirEntry>, ops: seq<Op>): seq<VFile>
    decreases |ops|
  {
    if ops == [] then fs else Run(Step(fs, disk, ops[0]), disk, ops[1..])
  }

  /** The same run on a map. */
  function MapRun(m: map<Name, seq<Byte>>, disk: seq<DirEntry>, ops: seq<Op>): map<Name, seq<Byte>>
    decreases |ops|
  {
    if ops == [] then m
    else
      var m' := match ops[0]
        case TouchOp(name) => if OnDiskList(disk, name) || name in m then m else m[name := []]
        case WriteOp(name, data) => m[name := data]
        case RmOp(name) => m - {name}
        case MkDirOp(_) => m;
      MapRun(m', disk, ops[1..])
  }

  /** In every run of returning calls the file list is a finite map, disjoint from the disk's names. */
  lemma {:induction false} RunIsMap(fs: seq<VFile>, disk: seq<DirEntry>, ops: seq<Op>)
    requires Inv(fs, disk) && forall op :: op in ops && op.WriteOp? ==> !OnDiskList(disk, op.name)
    ensures Inv(Run(fs, disk, ops), disk)
    ensures Files(Run(fs, disk, ops)) == MapRun(Files(fs), disk, ops)
    decreases |ops|
  {
    if ops != [] {
      assert ops[0] in ops;
      match ops[0] {
        case TouchOp(name) => TouchLaw(fs, disk, name);
        case WriteOp(name, data) => WriteLaw(fs, disk, name, data);
        case RmOp(name) => RemoveLaw(fs, disk, name);
        case MkDirOp(_) =>
      }
      RunIsMap(Step(fs, disk, ops[0]), disk, ops[1..]);
    }
  }

  // ----- cp and mv -----

  /** `cp` between in-memory files: what it copies is the C string in front of the content. */
  function Copy(fs: seq<VFile>, src: Name, dest: Name): seq<VFile>
    requires Has(fs, src)
  {
    Write(fs, dest, CStr(Content(fs[Find(fs, src, 0)])))
  }

  function Move(fs: seq<VFile>, src: Name, dest: Name): seq<VFile>
    requires Has(fs, src)
  {
    Remove(Copy(fs, src, dest), src)
  }

  /** After `mv` the file's content is under the new name exactly when the names differ and it holds no NUL. */
  lemma MoveLaw(fs: seq<VFile>, disk: seq<DirEntry>, src: Name, dest: Name)
    requires Inv(fs, disk) && Has(fs, src) && !OnDiskList(disk, dest)
    ensures Inv(Move(fs, src, dest), disk)
    ensures src in Files(fs)
    ensures Files(Move(fs, src, dest)) == Files(fs)[dest := CStr(Files(fs)[src])] - {src}
    ensures (dest in Files(Move(fs, src, dest)) && Files(Move(fs, src, dest))[dest] == Files(fs)[src])
            <==> (src != dest && 0 !in Files(fs)[src])
  {
    FilesAre(fs, src);
    CStrIsWhole(Files(fs)[src]);
    WriteLaw(fs, disk, dest, CStr(Files(fs)[src]));
    RemoveLaw(Copy(fs, src, dest), disk, src);
  }

  /**
    `mv` of a file that is only on the disk is a copy: the new name is added, the disk still lists
    the old one, and nothing is removed.
  */
  lemma DiskMoveLaw(fs: seq<VFile>, disk: seq<DirEntry>, src: Name, dest: Name, data: seq<Byte>)
    requires Inv(fs, disk) && !Has(fs, src) && OnDiskList(disk, src) && !OnDiskList(disk, dest)
    ensures var fs' := Remove(Write(fs, dest, CStr(data)), src);
            Inv(fs', disk) && Files(fs') == Files(fs)[dest := CStr(data)] && src !in Files(fs') && src != dest
  {
    WriteLaw(fs, disk, dest, CStr(data));
    RemoveLaw(Write(fs, dest, CStr(data)), disk, src);
    FilesAre(fs, src);
    SameMaps(Files(fs)[dest := CStr(data)] - {src}, Files(fs)[dest := CStr(data)]);
  }
}
