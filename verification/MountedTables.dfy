/** Tables that `Init` reads from the disk: one write into any table, and the files over any number of mounts. */
module MountedTables {
  import opened Machine32
  import opened Bytes
  import opened FileTable
  import opened FileTableLaws

  // ----- One write into any table -----

  /** The sector that slot `i` names. */
  function SectorOf(t: seq<FileEntry>, i: nat): Word
    requires i < |t|
  {
    t[i].sector
  }

  /** Naming a slot adds one hit for that name, and takes away that slot's others. */
  lemma NamedHits(t: seq<FileEntry>, i: nat, name: Name, n: Name, k: nat)
    requires EntriesSized(t) && i < |t| && k < |t|
    ensures Hit(Named(t, i, name), n, k) <==> if k == i then n == name else Hit(t, n, k)
  {
    if k == i {
      assert t[i] in t;
      StrCpyMatches(t[i].name, name);
      if Hit(Named(t, i, name), n, i) {
        MatchIsUnique(StrCpy(t[i].name, name), n, name);
      }
    }
  }

  /** After a write its name is found in the slot written, and any other name where it was: elsewhere. */
  lemma LookupAfterWrite(t: seq<FileEntry>, a: Name, n: Name)
    requires EntriesSized(t) && SlotFor(t, a) < |t|
    ensures Lookup(Named(t, SlotFor(t, a), a), n) == if n == a then SlotFor(t, a) else Lookup(t, n)
    ensures n != a ==> !Hit(t, n, SlotFor(t, a))
  {
    var i := SlotFor(t, a);
    var t' := Named(t, i, a);
    forall k | 0 <= k < |t| ensures Hit(t', n, k) <==> if k == i then n == a else Hit(t, n, k) {
      NamedHits(t, i, a, n, k);
    }
    if n == a {
      OnlyHit(t', a, i);
    } else {
      if Hit(t, n, i) {
        MatchIsUnique(t[i].name, n, a);
      }
      SameHits(t, t', n);
    }
  }

  /** Reading `n` after `x` has been written to `a`. */
  ghost function ReadAfter(fs: Fs, a: Name, x: seq<Byte>, n: Name): Option<seq<Byte>>
    requires Shaped(fs)
  {
    WriteShaped(fs, a, x);
    Read(Write(fs, a, x), n)
  }

  /** What any name reads as after any write that finds a slot. */
  lemma ReadAfterWrite(fs: Fs, a: Name, x: seq<Byte>, n: Name)
    requires Shaped(fs) && SlotFor(fs.table, a) < SLOTS
    ensures var t := fs.table; var s := SlotFor(t, a);
            var k := if n == a then s else Lookup(t, n);
            ReadAfter(fs, a, x, n) ==
            if k == SLOTS then None
            else if SectorOf(t, k) == TABLE_SECTOR then Some(SavedTable(Named(t, s, a)))
            else if SectorOf(t, k) == SectorOf(t, s) then Some(Pad(x))
            else Read(fs, n)
  {
    LookupAfterWrite(fs.table, a, n);
    WriteShaped(fs, a, x);
    assert fs.table[SlotFor(fs.table, a)] in fs.table;
    if Lookup(fs.table, n) < SLOTS {
      assert fs.table[Lookup(fs.table, n)] in fs.table;
    }
  }

  /** The file written to reads back, whatever was written. */
  ghost predicate ReadsBack(fs: Fs, a: Name)
    requires Shaped(fs)
  {
    forall x :: 0 !in x ==> ReadAfter(fs, a, x, a) == Some(Pad(x))
  }

  lemma PadFirst(content: seq<Byte>)
    requires content != []
    ensures Pad(content)[0] == content[0]
  {}

  /** A content that does not read as `s`. */
  function Differing(s: seq<Byte>): seq<Byte> { if Pad([1]) == s then [3] else [1] }

  lemma Differs(s: seq<Byte>)
    ensures 0 !in Differing(s) && Pad(Differing(s)) != s
  {
    PadFirst([1]);
    PadFirst([3]);
  }

  /** In any table, a file reads back what is written to it exactly when its slot does not name the table's sector. */
  lemma ReadsBackIff(fs: Fs, a: Name)
    requires Shaped(fs) && SlotFor(fs.table, a) < SLOTS
    ensures ReadsBack(fs, a) <==> SectorOf(fs.table, SlotFor(fs.table, a)) != TABLE_SECTOR
  {
    var t, s := fs.table, SlotFor(fs.table, a);
    if SectorOf(t, s) != TABLE_SECTOR {
      forall x | 0 !in x ensures ReadAfter(fs, a, x, a) == Some(Pad(x)) {
        ReadAfterWrite(fs, a, x, a);
      }
    } else {
      var x := Differing(SavedTable(Named(t, s, a)));
      Differs(SavedTable(Named(t, s, a)));
      ReadAfterWrite(fs, a, x, a);
    }
  }

  /** Name `n` reads as before, whatever is written to `a`. */
  ghost predicate Kept(fs: Fs, a: Name, n: Name)
    requires Shaped(fs)
  {
    forall x :: 0 !in x ==> ReadAfter(fs, a, x, n) == Read(fs, n)
  }

  /** Writing to slot `s` leaves the content of slot `k` alone; `saved` is the table's sector. */
  predicate Spares(t: seq<FileEntry>, saved: seq<Byte>, a: Name, k: nat)
    requires |t| == SLOTS && EntriesSized(t) && SlotFor(t, a) < SLOTS && k < SLOTS
  {
    var s := SlotFor(t, a);
    if SectorOf(t, k) == TABLE_SECTOR then saved == SavedTable(Named(t, s, a))
    else SectorOf(t, k) != SectorOf(t, s)
  }

  /**
    In any table, another name reads as before exactly when its slot's sector is not the one
    written, or, if it names the table's own sector, when the table there does not change.
  */
  lemma KeptIff(fs: Fs, a: Name, n: Name)
    requires Shaped(fs) && SlotFor(fs.table, a) < SLOTS && n != a && Lookup(fs.table, n) < SLOTS
    ensures Kept(fs, a, n) <==> Spares(fs.table, fs.disk[TABLE_SECTOR], a, Lookup(fs.table, n))
  {
    var t, k := fs.table, Lookup(fs.table, n);
    assert t[k] in t;
    if Spares(t, fs.disk[TABLE_SECTOR], a, k) {
      forall x | 0 !in x ensures ReadAfter(fs, a, x, n) == Read(fs, n) {
        ReadAfterWrite(fs, a, x, n);
      }
    } else {
      var x := Differing(fs.disk[SectorOf(t, k)]);
      Differs(fs.disk[SectorOf(t, k)]);
      ReadAfterWrite(fs, a, x, n);
    }
  }

  /** Slot `k` is where its own name is found. */
  predicate Shown(t: seq<FileEntry>, k: nat)
    requires k < |t|
  {
    exists n: Name :: n == CStr(t[k].name) && Lookup(t, n) == k
  }

  /** The slot of `a` has a sector to itself, apart from the table's. */
  ghost predicate OwnSector(t: seq<FileEntry>, saved: seq<Byte>, a: Name)
    requires |t| == SLOTS && EntriesSized(t)
  {
    var s := SlotFor(t, a);
    && s < SLOTS && SectorOf(t, s) != TABLE_SECTOR
    && forall k :: 0 <= k < SLOTS && k != s && Shown(t, k) ==> Spares(t, saved, a, k)
  }

  /** Writing to `a` is an update of one name, whatever is written. */
  ghost predicate Updates(fs: Fs, a: Name)
    requires Shaped(fs)
  {
    ReadsBack(fs, a) && forall n: Name :: n != a ==> Kept(fs, a, n)
  }

  lemma OwnSectorKeeps(fs: Fs, a: Name, n: Name)
    requires Shaped(fs) && OwnSector(fs.table, fs.disk[TABLE_SECTOR], a) && n != a
    ensures Kept(fs, a, n)
  {
    var t, k := fs.table, Lookup(fs.table, n);
    LookupAfterWrite(t, a, n);
    if k < SLOTS {
      assert 0 in t[k].name;
      MatchesCStr(t[k].name, n);
      assert Shown(t, k);
      KeptIff(fs, a, n);
    } else {
      forall x | 0 !in x ensures ReadAfter(fs, a, x, n) == Read(fs, n) {
        ReadAfterWrite(fs, a, x, n);
      }
    }
  }

  /** In any table, writing to `a` is an update of that name and no other exactly when its slot has its own sector. */
  lemma UpdatesIff(fs: Fs, a: Name)
    requires Shaped(fs) && SlotFor(fs.table, a) < SLOTS
    ensures Updates(fs, a) <==> OwnSector(fs.table, fs.disk[TABLE_SECTOR], a)
  {
    ReadsBackIff(fs, a);
    if OwnSector(fs.table, fs.disk[TABLE_SECTOR], a) {
      forall n: Name | n != a ensures Kept(fs, a, n) {
        OwnSectorKeeps(fs, a, n);
      }
    } else if Updates(fs, a) {
      var t := fs.table;
      var k :| 0 <= k < SLOTS && k != SlotFor(t, a) && Shown(t, k) && !Spares(t, fs.disk[TABLE_SECTOR], a, k);
      var n: Name :| n == CStr(t[k].name) && Lookup(t, n) == k;
      KeptIff(fs, a, n);
      assert false;
    }
  }

  // ----- Two new files -----

  /** The slots that the next two new files get, or 16. */
  function SecondFree(t: seq<FileEntry>): (r: nat)
    ensures r <= |t|
  {
    var i := FirstFree(t, 0);
    if i < |t| then FirstFree(t, i + 1) else |t|
  }

  /** The sectors of the next two new files are neither the table's nor each other's. */
  predicate SlotsApart(t: seq<FileEntry>)
    requires FirstFree(t, 0) < |t|
  {
    var i, j := FirstFree(t, 0), SecondFree(t);
    && SectorOf(t, i) != TABLE_SECTOR
    && (j < |t| ==> SectorOf(t, j) != TABLE_SECTOR && SectorOf(t, j) != SectorOf(t, i))
  }

  ghost function AfterTwo(fs: Fs, a: Name, x: seq<Byte>, b: Name, y: seq<Byte>): (r: Fs)
    requires Shaped(fs)
    ensures Shaped(r)
  {
    WriteShaped(fs, a, x);
    WriteShaped(Write(fs, a, x), b, y);
    Write(Write(fs, a, x), b, y)
  }

  /** Two new names, in a table with a free slot. */
  predicate TwoNew(t: seq<FileEntry>, a: Name, b: Name) {
    a != b && Lookup(t, a) == |t| && Lookup(t, b) == |t| && FirstFree(t, 0) < |t|
  }

  lemma FirstFreeIs(t: seq<FileEntry>, r: nat)
    requires r <= |t| && (r < |t| ==> t[r].flags == 0) && forall j :: 0 <= j < r ==> t[j].flags != 0
    ensures FirstFree(t, 0) == r
  {}

  /** The second new file's slot. */
  lemma SecondSlot(t: seq<FileEntry>, a: Name, b: Name)
    requires EntriesSized(t) && TwoNew(t, a, b)
    ensures SlotFor(Named(t, FirstFree(t, 0), a), b) == SecondFree(t)
  {
    LookupAfterWrite(t, a, b);
    FirstFreeIs(Named(t, FirstFree(t, 0), a), SecondFree(t));
  }

  /** The table after both have been stored. */
  function BothNamed(t: seq<FileEntry>, a: Name, b: Name): (t': seq<FileEntry>)
    requires EntriesSized(t) && FirstFree(t, 0) < |t|
    ensures |t'| == |t| && EntriesSized(t')
  {
    var t1 := Named(t, FirstFree(t, 0), a);
    if SecondFree(t) < |t| then Named(t1, SecondFree(t), b) else t1
  }

  /** What two new files read as after both have been written. */
  lemma BothRead(fs: Fs, a: Name, x: seq<Byte>, b: Name, y: seq<Byte>)
    requires Shaped(fs) && TwoNew(fs.table, a, b)
    ensures var t := fs.table; var i, j := FirstFree(t, 0), SecondFree(t); var fs' := AfterTwo(fs, a, x, b, y);
            && Read(fs', a) == Some(if SectorOf(t, i) == TABLE_SECTOR then SavedTable(BothNamed(t, a, b))
                                    else if j < SLOTS && SectorOf(t, j) == SectorOf(t, i) then Pad(y)
                                    else Pad(x))
            && (j < SLOTS ==> Read(fs', b) == Some(if SectorOf(t, j) == TABLE_SECTOR then SavedTable(BothNamed(t, a, b))
                                                   else Pad(y)))
  {
    var fs1 := Write(fs, a, x);
    WriteShaped(fs, a, x);
    SecondSlot(fs.table, a, b);
    LookupAfterWrite(fs.table, a, a);
    ReadAfterWrite(fs, a, x, a);
    if SecondFree(fs.table) < SLOTS {
      ReadAfterWrite(fs1, b, y, a);
      ReadAfterWrite(fs1, b, y, b);
    }
  }

  /** For all contents, both files read back after both have been written, the second one if there was a slot for it. */
  ghost predicate BothReadBack(fs: Fs, a: Name, b: Name)
    requires Shaped(fs)
  {
    forall x, y :: 0 !in x && 0 !in y ==>
      && Read(AfterTwo(fs, a, x, b, y), a) == Some(Pad(x))
      && (SecondFree(fs.table) < SLOTS ==> Read(AfterTwo(fs, a, x, b, y), b) == Some(Pad(y)))
  }

  /** One of the two files reads as the saved table, or the first one as the second. */
  lemma NotBoth(fs: Fs, a: Name, b: Name)
    requires Shaped(fs) && TwoNew(fs.table, a, b) && !SlotsApart(fs.table)
    ensures !BothReadBack(fs, a, b)
  {
    var saved := SavedTable(BothNamed(fs.table, a, b));
    Differs(saved);
    Differs(Pad(Differing(saved)));
    var x, y := Differing(Pad(Differing(saved))), Differing(saved);
    BothRead(fs, a, x, b, y);
    BothRead(fs, a, y, b, x);
  }

  /** In any table, two new files both read back exactly when their slots' sectors are apart. */
  lemma BothReadBackIff(fs: Fs, a: Name, b: Name)
    requires Shaped(fs) && TwoNew(fs.table, a, b)
    ensures BothReadBack(fs, a, b) <==> SlotsApart(fs.table)
  {
    if SlotsApart(fs.table) {
      forall x, y | 0 !in x && 0 !in y
        ensures Read(AfterTwo(fs, a, x, b, y), a) == Some(Pad(x))
        ensures SecondFree(fs.table) < SLOTS ==> Read(AfterTwo(fs, a, x, b, y), b) == Some(Pad(y))
      {
        BothRead(fs, a, x, b, y);
      }
    } else {
      NotBoth(fs, a, b);
    }
  }

  // ----- Mounting any disk -----

  /** The table `Init` reads. */
  function Stored(fs: Fs, beyond: seq<Byte>): (t: seq<FileEntry>)
    requires Shaped(fs) && |beyond| == ENTRY_SIZE * SLOTS - SECTOR_SIZE
    ensures |t| == SLOTS && EntriesSized(t)
  {
    assert fs.disk[TABLE_SECTOR] in fs.disk;
    ReadTable(fs.disk[TABLE_SECTOR], beyond)
  }

  /** A mounted table can be used when it was formatted for being garbage, or names sectors of the disk only. */
  lemma MountShapedIff(fs: Fs, beyond: seq<Byte>)
    requires Shaped(fs) && |beyond| == ENTRY_SIZE * SLOTS - SECTOR_SIZE
    ensures Shaped(Mount(fs, beyond)) <==>
              (Garbage(Stored(fs, beyond)) || forall e :: e in Stored(fs, beyond) ==> e.sector < |fs.disk|)
  {
    if Garbage(Stored(fs, beyond)) {
      FormatLaw(fs);
    }
  }

  /** A formatted table gives every file a sector of its own. */
  lemma FormattedUpdates(fs: Fs, a: Name)
    requires Shaped(fs)
    ensures Shaped(Format(fs)) && Updates(Format(fs), a)
  {
    FormatLaw(fs);
    FirstFreeIs(Format(fs).table, 0);
    UpdatesIff(Format(fs), a);
  }

  lemma FormattedEmpty(fs: Fs, n: Name)
    requires Shaped(fs)
    ensures Lookup(Format(fs).table, n) == SLOTS
  {}

  /** After `Init`, what is written to a name reads back exactly when the disk was formatted or the slot's sector is not the table's. */
  lemma MountReadsBackIff(fs: Fs, beyond: seq<Byte>, a: Name)
    requires Shaped(fs) && |beyond| == ENTRY_SIZE * SLOTS - SECTOR_SIZE
    requires Shaped(Mount(fs, beyond)) && SlotFor(Mount(fs, beyond).table, a) < SLOTS
    ensures var t := Stored(fs, beyond);
            ReadsBack(Mount(fs, beyond), a) <==> Garbage(t) || SectorOf(t, SlotFor(t, a)) != TABLE_SECTOR
  {
    if Garbage(Stored(fs, beyond)) {
      FormattedUpdates(fs, a);
    } else {
      ReadsBackIff(Mount(fs, beyond), a);
    }
  }

  /** After `Init`, a file that is on the disk keeps its content through any write to another name exactly when its sector is spared. */
  lemma MountKeptIff(fs: Fs, beyond: seq<Byte>, a: Name, n: Name)
    requires Shaped(fs) && |beyond| == ENTRY_SIZE * SLOTS - SECTOR_SIZE
    requires Shaped(Mount(fs, beyond)) && SlotFor(Mount(fs, beyond).table, a) < SLOTS
    requires n != a && Lookup(Mount(fs, beyond).table, n) < SLOTS
    ensures var t := Stored(fs, beyond);
            t == Mount(fs, beyond).table
            && (Kept(Mount(fs, beyond), a, n) <==> Spares(t, fs.disk[TABLE_SECTOR], a, Lookup(t, n)))
  {
    FormattedEmpty(fs, n);
    if !Garbage(Stored(fs, beyond)) {
      KeptIff(Mount(fs, beyond), a, n);
    }
  }

  /** Whatever the disk holds: after `Init`, writing to `a` updates that name and no other exactly under this condition. */
  lemma MountUpdatesIff(fs: Fs, beyond: seq<Byte>, a: Name)
    requires Shaped(fs) && |beyond| == ENTRY_SIZE * SLOTS - SECTOR_SIZE
    requires Shaped(Mount(fs, beyond)) && SlotFor(Mount(fs, beyond).table, a) < SLOTS
    ensures Updates(Mount(fs, beyond), a) <==>
              Garbage(Stored(fs, beyond)) || OwnSector(Stored(fs, beyond), fs.disk[TABLE_SECTOR], a)
  {
    if Garbage(Stored(fs, beyond)) {
      FormattedUpdates(fs, a);
    } else {
      UpdatesIff(Mount(fs, beyond), a);
    }
  }

  /**
    Whatever the disk holds: after `Init`, two new files both read back exactly when the stored
    table was garbage, and so was formatted, or its free slots' sectors are apart.
  */
  lemma MountBothReadBackIff(fs: Fs, beyond: seq<Byte>, a: Name, b: Name)
    requires Shaped(fs) && |beyond| == ENTRY_SIZE * SLOTS - SECTOR_SIZE
    requires Shaped(Mount(fs, beyond)) && TwoNew(Mount(fs, beyond).table, a, b)
    ensures BothReadBack(Mount(fs, beyond), a, b) <==>
              (Garbage(Stored(fs, beyond))
               || (FirstFree(Stored(fs, beyond), 0) < SLOTS && SlotsApart(Stored(fs, beyond))))
  {
    var m := Mount(fs, beyond);
    BothReadBackIff(m, a, b);
    if Garbage(Stored(fs, beyond)) {
      assert m == Format(fs);
      FirstFreeIs(m.table, 0);
      assert FirstFree(m.table, 1) == 1;
    }
  }

  lemma ZeroEntries(fs: Fs, beyond: seq<Byte>)
    requires Shaped(fs) && fs.disk[TABLE_SECTOR] == seq(SECTOR_SIZE, _ => 0)
    requires |beyond| == ENTRY_SIZE * SLOTS - SECTOR_SIZE && forall v :: v in beyond ==> v == 0
    ensures forall e :: e in Stored(fs, beyond) ==> e.sector == 0 && e.flags == 0
  {
    var zeros := fs.disk[TABLE_SECTOR] + beyond;
    forall k | 0 <= k < |zeros| ensures zeros[k] == 0 {
      if k >= SECTOR_SIZE { assert zeros[k] in beyond; }
    }
    forall i | 0 <= i < SLOTS
      ensures ParseEntry(zeros, ENTRY_SIZE * i).sector == 0 && ParseEntry(zeros, ENTRY_SIZE * i).flags == 0
    {
      assert Read32(zeros, ENTRY_SIZE * i + 32) == 0 && Read32(zeros, ENTRY_SIZE * i + 40) == 0;
    }
  }

  lemma ZeroSlots(t: seq<FileEntry>, a: Name, b: Name)
    requires |t| == SLOTS && a != b && forall e :: e in t ==> e.sector == 0 && e.flags == 0
    ensures TwoNew(t, a, b) && FirstFree(t, 0) == 0 && SecondFree(t) == 1
    ensures SectorOf(t, 0) == SectorOf(t, 1) == 0
  {
    assert forall k :: 0 <= k < SLOTS ==> t[k] in t;
    FirstFreeIs(t, 0);
    assert FirstFree(t, 1) == 1;
  }

  /** On a zeroed disk `Init` does not format, so its files overwrite each other. */
  lemma ZeroDiskAliases(fs: Fs, beyond: seq<Byte>, a: Name, b: Name, x: seq<Byte>, y: seq<Byte>)
    requires Shaped(fs) && fs.disk[TABLE_SECTOR] == seq(SECTOR_SIZE, _ => 0)
    requires |beyond| == ENTRY_SIZE * SLOTS - SECTOR_SIZE && forall v :: v in beyond ==> v == 0
    requires a != b
    ensures Shaped(Mount(fs, beyond)) && Read(AfterTwo(Mount(fs, beyond), a, x, b, y), a) == Some(Pad(y))
  {
    ZeroEntries(fs, beyond);
    MountShapedIff(fs, beyond);
    ZeroSlots(Mount(fs, beyond).table, a, b);
    BothRead(Mount(fs, beyond), a, x, b, y);
  }

  // ----- Any number of mounts -----

  datatype Event = Do(op: Op) | Remount(beyond: seq<Byte>)

  predicate ProperEvent(e: Event) { e.Remount? ==> |e.beyond| == ENTRY_SIZE * SLOTS - SECTOR_SIZE }

  function After(fs: Fs, e: Event): (r: Fs)
    requires Shaped(fs) && ProperEvent(e)
    ensures e.Do? ==> Shaped(r)
  {
    match e
    case Do(WriteOp(name, content)) =>
      WriteShaped(fs, name, content);
      Write(fs, name, content)
    case Do(DeleteOp(name)) =>
      DeleteShaped(fs, name);
      Delete(fs, name)
    case Remount(beyond) => Mount(fs, beyond)
  }

  /** The same on a map: a mount changes nothing. */
  function MapAfter(m: map<seq<Byte>, seq<Byte>>, e: Event): map<seq<Byte>, seq<Byte>> {
    match e
    case Do(WriteOp(name, content)) => m[name := Pad(content)]
    case Do(DeleteOp(name)) => m - {name}
    case Remount(_) => m
  }

  /** No used entry that the sector does not hold carries one of the names. */
  ghost predicate Quiet(t: seq<FileEntry>, names: set<seq<Byte>>) {
    forall k, n: Name :: SAVED_SLOTS <= k < |t| && n in names ==> !Hit(t, n, k)
  }

  /** The first eleven entries are those of the saved sector, whatever follows the buffer. */
  ghost predicate Lasting(t: seq<FileEntry>, saved: seq<Byte>)
    requires |t| == SLOTS && |saved| == SECTOR_SIZE
  {
    forall beyond: seq<Byte>, i :: |beyond| == ENTRY_SIZE * SLOTS - SECTOR_SIZE && 0 <= i < SAVED_SLOTS ==>
      ReadTable(saved, beyond)[i] == t[i]
  }

  /** The entries that are saved are as `Format` and the operations leave them. */
  ghost predicate InOrder(t: seq<FileEntry>, names: set<seq<Byte>>)
    requires |t| == SLOTS
  {
    && (forall i :: 0 <= i < SAVED_SLOTS ==> SectorOf(t, i) == FIRST_DATA_SECTOR + i && t[i].flags <= 1)
    && (forall n: Name, i, j :: n in names && 0 <= i < SAVED_SLOTS && 0 <= j < SAVED_SLOTS && Hit(t, n, i) && Hit(t, n, j) ==> i == j)
  }

  /** A table, mounted or not, of which the names only use the entries that are saved. */
  ghost predicate Serving(fs: Fs, names: set<seq<Byte>>) {
    && Shaped(fs) && fs.disk[TABLE_SECTOR] in fs.disk && Lasting(fs.table, fs.disk[TABLE_SECTOR])
    && Quiet(fs.table, names) && InOrder(fs.table, names)
  }

  /** The names read as the map says, and it has as many as there are saved entries in use. */
  ghost predicate Shows(fs: Fs, m: map<seq<Byte>, seq<Byte>>, names: set<seq<Byte>>)
    requires Shaped(fs)
  {
    && |m| == CountUsed(fs.table, SAVED_SLOTS) && m.Keys <= names
    && forall n: Name :: n in names ==> Read(fs, n) == if n in m then Some(m[n]) else None
  }

  /** The slot for a name is one that is saved, as long as the map has at most eleven. */
  lemma SavedSlot(fs: Fs, m: map<seq<Byte>, seq<Byte>>, names: set<seq<Byte>>, a: Name)
    requires Serving(fs, names) && Shows(fs, m, names) && a in names
    requires a in m || |m| < SAVED_SLOTS
    ensures SlotFor(fs.table, a) < SAVED_SLOTS
    ensures Used(fs.table, SlotFor(fs.table, a)) <==> a in m
  {
    var t := fs.table;
    if a !in m {
      AllUsed(t, SAVED_SLOTS);
      var i :| 0 <= i < SAVED_SLOTS && !Used(t, i);
      assert t[i].flags == 0;
    }
  }

  lemma {:induction false} CountUpdated(t: seq<FileEntry>, t': seq<FileEntry>, n: nat, i: nat)
    requires n <= |t| == |t'| && i < |t| && forall k :: 0 <= k < |t| && k != i ==> Used(t', k) == Used(t, k)
    ensures CountUsed(t', n) == CountUsed(t, n) +
            if i < n then (if Used(t', i) then 1 else 0) - (if Used(t, i) then 1 else 0) else 0
  {
    if n > 0 {
      CountUpdated(t, t', n - 1, i);
    }
  }

  lemma SavedIsLasting(t: seq<FileEntry>)
    requires |t| == SLOTS && EntriesSized(t)
    ensures Lasting(t, SavedTable(t))
  {
    forall beyond: seq<Byte>, i | |beyond| == ENTRY_SIZE * SLOTS - SECTOR_SIZE && 0 <= i < SAVED_SLOTS
      ensures ReadTable(SavedTable(t), beyond)[i] == t[i]
    {
      SavedEntries(t, beyond, i);
    }
  }

  lemma NamedInOrder(t: seq<FileEntry>, i: nat, a: Name, names: set<seq<Byte>>)
    requires EntriesSized(t) && |t| == SLOTS && i == SlotFor(t, a) < SAVED_SLOTS && Quiet(t, names) && InOrder(t, names)
    ensures Quiet(Named(t, i, a), names) && InOrder(Named(t, i, a), names)
  {
    var t' := Named(t, i, a);
    forall n: Name, k | 0 <= k < SLOTS ensures Hit(t', n, k) <==> if k == i then n == a else Hit(t, n, k) {
      NamedHits(t, i, a, n, k);
    }
  }

  lemma WriteUpdates(fs: Fs, names: set<seq<Byte>>, a: Name, x: seq<Byte>, n: Name)
    requires Serving(fs, names) && n in names && SlotFor(fs.table, a) < SAVED_SLOTS
    ensures ReadAfter(fs, a, x, n) == if n == a then Some(Pad(x)) else Read(fs, n)
  {
    ReadAfterWrite(fs, a, x, n);
    LookupAfterWrite(fs.table, a, n);
    assert SectorOf(fs.table, SlotFor(fs.table, a)) == FIRST_DATA_SECTOR + SlotFor(fs.table, a);
  }

  lemma WriteInOrder(fs: Fs, names: set<seq<Byte>>, a: Name, x: seq<Byte>)
    requires Serving(fs, names) && a in names && SlotFor(fs.table, a) < SAVED_SLOTS
    ensures Serving(Write(fs, a, x), names)
  {
    WriteShaped(fs, a, x);
    WriteSaved(fs, a, x);
    SavedIsLasting(Write(fs, a, x).table);
    NamedInOrder(fs.table, SlotFor(fs.table, a), a, names);
  }

  lemma WriteShows(fs: Fs, m: map<seq<Byte>, seq<Byte>>, names: set<seq<Byte>>, a: Name, x: seq<Byte>)
    requires Serving(fs, names) && Shows(fs, m, names) && a in names
    requires SlotFor(fs.table, a) < SAVED_SLOTS && (Used(fs.table, SlotFor(fs.table, a)) <==> a in m)
    ensures Shaped(Write(fs, a, x)) && Shows(Write(fs, a, x), m[a := Pad(x)], names)
  {
    WriteShaped(fs, a, x);
    CountUpdated(fs.table, Write(fs, a, x).table, SAVED_SLOTS, SlotFor(fs.table, a));
    forall n: Name | n in names ensures Read(Write(fs, a, x), n) == if n == a then Some(Pad(x)) else Read(fs, n) {
      WriteUpdates(fs, names, a, x, n);
    }
  }

  /** A write that leaves at most eleven files updates the map. */
  lemma WriteServes(fs: Fs, m: map<seq<Byte>, seq<Byte>>, names: set<seq<Byte>>, a: Name, x: seq<Byte>)
    requires Serving(fs, names) && Shows(fs, m, names) && a in names && |m[a := Pad(x)]| <= SAVED_SLOTS
    ensures Serving(Write(fs, a, x), names) && Shows(Write(fs, a, x), m[a := Pad(x)], names)
  {
    SavedSlot(fs, m, names, a);
    WriteInOrder(fs, names, a, x);
    WriteShows(fs, m, names, a, x);
  }

  lemma DeletedHits(t: seq<FileEntry>, a: Name, n: Name, k: nat)
    requires Lookup(t, a) < |t| && k < |t|
    ensures Hit(t[Lookup(t, a) := t[Lookup(t, a)].(flags := 0)], n, k) <==> k != Lookup(t, a) && Hit(t, n, k)
  {}

  /** A name of the program's hits the slot where it is found, and no other. */
  lemma HitsHere(t: seq<FileEntry>, names: set<seq<Byte>>, a: Name)
    requires |t| == SLOTS && Quiet(t, names) && InOrder(t, names) && a in names
    ensures forall k :: 0 <= k < SLOTS && Hit(t, a, k) ==> k == Lookup(t, a)
  {
    forall k | 0 <= k < SLOTS && Hit(t, a, k) ensures k == Lookup(t, a) {
      assert Hit(t, a, Lookup(t, a));
    }
  }

  /** After a delete its name is not found, and any other where it was. */
  lemma LookupAfterDelete(t: seq<FileEntry>, names: set<seq<Byte>>, a: Name, n: Name)
    requires |t| == SLOTS && Quiet(t, names) && InOrder(t, names) && a in names && Lookup(t, a) < SLOTS
    ensures Lookup(t[Lookup(t, a) := t[Lookup(t, a)].(flags := 0)], n) == if n == a then SLOTS else Lookup(t, n)
  {
    var i := Lookup(t, a);
    var t' := t[i := t[i].(flags := 0)];
    forall k | 0 <= k < SLOTS ensures Hit(t', n, k) <==> k != i && Hit(t, n, k) {
      DeletedHits(t, a, n, k);
    }
    if n != a {
      if Hit(t, n, i) {
        MatchIsUnique(t[i].name, n, a);
      }
      SameHits(t, t', n);
    } else {
      HitsHere(t, names, a);
    }
  }

  lemma DeletedInOrder(t: seq<FileEntry>, a: Name, names: set<seq<Byte>>)
    requires |t| == SLOTS && Quiet(t, names) && InOrder(t, names) && a in names && Lookup(t, a) < SLOTS
    ensures var t' := t[Lookup(t, a) := t[Lookup(t, a)].(flags := 0)]; Quiet(t', names) && InOrder(t', names)
  {
    var t' := t[Lookup(t, a) := t[Lookup(t, a)].(flags := 0)];
    forall n: Name, k | 0 <= k < SLOTS ensures Hit(t', n, k) <==> k != Lookup(t, a) && Hit(t, n, k) {
      DeletedHits(t, a, n, k);
    }
  }

  lemma DeleteInOrder(fs: Fs, names: set<seq<Byte>>, a: Name)
    requires Serving(fs, names) && a in names && Lookup(fs.table, a) < SLOTS
    ensures Serving(Delete(fs, a), names)
  {
    DeleteShaped(fs, a);
    SavedIsLasting(Delete(fs, a).table);
    DeletedInOrder(fs.table, a, names);
  }

  lemma DeleteRemoves(fs: Fs, names: set<seq<Byte>>, a: Name, n: Name)
    requires Serving(fs, names) && a in names && n in names && Lookup(fs.table, a) < SLOTS
    ensures Shaped(Delete(fs, a)) && Read(Delete(fs, a), n) == if n == a then None else Read(fs, n)
  {
    DeleteShaped(fs, a);
    LookupAfterDelete(fs.table, names, a, n);
    var k := Lookup(fs.table, n);
    assert k < SAVED_SLOTS ==> SectorOf(fs.table, k) == FIRST_DATA_SECTOR + k;
  }

  lemma DeleteShows(fs: Fs, m: map<seq<Byte>, seq<Byte>>, names: set<seq<Byte>>, a: Name)
    requires Serving(fs, names) && Shows(fs, m, names) && a in names && Lookup(fs.table, a) < SLOTS
    ensures Shaped(Delete(fs, a)) && Shows(Delete(fs, a), m - {a}, names)
  {
    DeleteShaped(fs, a);
    CountUpdated(fs.table, Delete(fs, a).table, SAVED_SLOTS, Lookup(fs.table, a));
    forall n: Name | n in names ensures Read(Delete(fs, a), n) == if n == a then None else Read(fs, n) {
      DeleteRemoves(fs, names, a, n);
    }
  }

  /** A delete removes one name from the map. */
  lemma DeleteServes(fs: Fs, m: map<seq<Byte>, seq<Byte>>, names: set<seq<Byte>>, a: Name)
    requires Serving(fs, names) && Shows(fs, m, names) && a in names
    ensures Serving(Delete(fs, a), names) && Shows(Delete(fs, a), m - {a}, names)
  {
    if Lookup(fs.table, a) < SLOTS {
      DeleteInOrder(fs, names, a);
      DeleteShows(fs, m, names, a);
    } else {
      assert m - {a} == m;
    }
  }

  lemma {:induction false} SameCount(t: seq<FileEntry>, t': seq<FileEntry>, n: nat)
    requires n <= |t| && n <= |t'| && forall i :: 0 <= i < n ==> t'[i] == t[i]
    ensures CountUsed(t', n) == CountUsed(t, n)
  {
    if n > 0 {
      SameCount(t, t', n - 1);
    }
  }

  /** `Init` finds the saved entries as they were. */
  lemma MountSaved(fs: Fs, names: set<seq<Byte>>, beyond: seq<Byte>)
    requires Serving(fs, names) && |beyond| == ENTRY_SIZE * SLOTS - SECTOR_SIZE
    ensures Mount(fs, beyond) == fs.(table := Stored(fs, beyond))
    ensures forall i :: 0 <= i < SAVED_SLOTS ==> Stored(fs, beyond)[i] == fs.table[i]
  {
    assert Stored(fs, beyond)[0] == fs.table[0] && SectorOf(fs.table, 0) == FIRST_DATA_SECTOR;
  }

  lemma MountLookup(t: seq<FileEntry>, t': seq<FileEntry>, names: set<seq<Byte>>, n: Name)
    requires |t| == |t'| == SLOTS && Quiet(t, names) && Quiet(t', names) && n in names
    requires forall i :: 0 <= i < SAVED_SLOTS ==> t'[i] == t[i]
    ensures Lookup(t', n) == Lookup(t, n)
    ensures Lookup(t, n) < SAVED_SLOTS || Lookup(t, n) == SLOTS
  {
    forall k | 0 <= k < SLOTS ensures Hit(t', n, k) == Hit(t, n, k) {
      if k < SAVED_SLOTS {
        assert t'[k] == t[k];
      }
    }
    SameHits(t, t', n);
  }

  lemma MountInOrder(t: seq<FileEntry>, t': seq<FileEntry>, names: set<seq<Byte>>)
    requires |t| == |t'| == SLOTS && InOrder(t, names) && forall i :: 0 <= i < SAVED_SLOTS ==> t'[i] == t[i]
    ensures InOrder(t', names)
  {
    assert forall n: Name, i :: 0 <= i < SAVED_SLOTS ==> Hit(t', n, i) == Hit(t, n, i);
  }

  /** A mount whose other entries are quiet leaves the map as it is. */
  lemma MountServes(fs: Fs, m: map<seq<Byte>, seq<Byte>>, names: set<seq<Byte>>, beyond: seq<Byte>)
    requires Serving(fs, names) && Shows(fs, m, names) && |beyond| == ENTRY_SIZE * SLOTS - SECTOR_SIZE
    requires Shaped(Mount(fs, beyond)) && Quiet(Mount(fs, beyond).table, names)
    ensures Serving(Mount(fs, beyond), names) && Shows(Mount(fs, beyond), m, names)
  {
    var t, t' := fs.table, Mount(fs, beyond).table;
    MountSaved(fs, names, beyond);
    SameCount(t, t', SAVED_SLOTS);
    MountInOrder(t, t', names);
    forall n: Name | n in names ensures Read(Mount(fs, beyond), n) == Read(fs, n) {
      MountLookup(t, t', names, n);
    }
  }

  /** Whatever a run needs: names in use only, and mounts whose unsaved entries are quiet and name existing sectors. */
  ghost predicate Calm(fs: Fs, events: seq<Event>, names: set<seq<Byte>>)
    requires Shaped(fs)
    decreases |events|
  {
    events == [] ||
    (var e := events[0];
     && ProperEvent(e)
     && (e.Do? ==> e.op.name in names)
     && (e.Remount? ==> Shaped(After(fs, e)) && Quiet(After(fs, e).table, names))
     && Calm(After(fs, e), events[1..], names))
  }

  ghost function AfterAll(fs: Fs, events: seq<Event>, names: set<seq<Byte>>): Fs
    requires Shaped(fs) && Calm(fs, events, names)
    decreases |events|
  {
    if events == [] then fs else AfterAll(After(fs, events[0]), events[1..], names)
  }

  /** The map after the events, and whether it ever has more than eleven names. */
  function MapAfterAll(m: map<seq<Byte>, seq<Byte>>, events: seq<Event>): map<seq<Byte>, seq<Byte>>
    decreases |events|
  {
    if events == [] then m else MapAfterAll(MapAfter(m, events[0]), events[1..])
  }

  predicate AtMostEleven(m: map<seq<Byte>, seq<Byte>>, events: seq<Event>)
    decreases |events|
  {
    |m| <= SAVED_SLOTS && (events != [] ==> AtMostEleven(MapAfter(m, events[0]), events[1..]))
  }

  lemma EventServes(fs: Fs, m: map<seq<Byte>, seq<Byte>>, names: set<seq<Byte>>, e: Event)
    requires Serving(fs, names) && Shows(fs, m, names) && ProperEvent(e) && |MapAfter(m, e)| <= SAVED_SLOTS
    requires e.Do? ==> e.op.name in names
    requires e.Remount? ==> Shaped(After(fs, e)) && Quiet(After(fs, e).table, names)
    ensures Serving(After(fs, e), names) && Shows(After(fs, e), MapAfter(m, e), names)
  {
    match e
    case Do(WriteOp(name, content)) => WriteServes(fs, m, names, name, content);
    case Do(DeleteOp(name)) => DeleteServes(fs, m, names, name);
    case Remount(beyond) => MountServes(fs, m, names, beyond);
  }

  lemma {:induction false} RunServes(fs: Fs, m: map<seq<Byte>, seq<Byte>>, names: set<seq<Byte>>, events: seq<Event>)
    requires Serving(fs, names) && Shows(fs, m, names) && Calm(fs, events, names) && AtMostEleven(m, events)
    ensures Serving(AfterAll(fs, events, names), names)
    ensures Shows(AfterAll(fs, events, names), MapAfterAll(m, events), names)
    decreases |events|
  {
    if events != [] {
      EventServes(fs, m, names, events[0]);
      RunServes(After(fs, events[0]), MapAfter(m, events[0]), names, events[1..]);
    }
  }

  lemma LowServes(fs: Fs, names: set<seq<Byte>>)
    requires Inv(fs) && Low(fs.table) && Files(fs).Keys <= names
    ensures Serving(fs, names) && Shows(fs, Files(fs), names)
  {
    SavedIsLasting(fs.table);
    FileCount(fs);
    CountOfLow(fs.table, SLOTS);
    forall n: Name, i, j | 0 <= i < SAVED_SLOTS && 0 <= j < SAVED_SLOTS && Hit(fs.table, n, i) && Hit(fs.table, n, j)
      ensures i == j
    {
      HitOnce(fs, n, i, j);
    }
    forall n: Name ensures Read(fs, n) == if n in Files(fs) then Some(Files(fs)[n]) else None {
      ReadLaw(fs, n);
    }
  }

  /**
    Writes, deletes and any number of mounts, in any order: from a disk whose files are in the
    first eleven slots, such as `Format` leaves, every name always reads as on a map that mounts
    do not change, as long as that has at most eleven names and no used entry that a mount finds
    behind the saved ones carries a name in use.
  */
  lemma RemountsKeepMap(fs: Fs, events: seq<Event>, names: set<seq<Byte>>, n: Name)
    requires Inv(fs) && Low(fs.table) && Files(fs).Keys <= names && n in names
    requires Calm(fs, events, names) && AtMostEleven(Files(fs), events)
    ensures var m := MapAfterAll(Files(fs), events);
            var fs' := AfterAll(fs, events, names);
            Shaped(fs') && Read(fs', n) == if n in m then Some(m[n]) else None
  {
    LowServes(fs, names);
    RunServes(fs, Files(fs), names, events);
  }
}
