/** What the file table is for: from `Format` on it is a map from names to sectors' contents. */
module FileTableLaws {
  import opened Machine32
  import opened Bytes
  import opened FileTable

  /** No name is used twice. */
  ghost predicate Distinct(t: seq<FileEntry>) {
    forall i, j :: 0 <= i < j < |t| && Used(t, i) && Used(t, j) ==> CStr(t[i].name) != CStr(t[j].name)
  }

  /** What `Format` establishes and every operation keeps. */
  ghost predicate Inv(fs: Fs) {
    && Shaped(fs)
    && (forall i :: 0 <= i < SLOTS ==>
          && fs.table[i].sector == FIRST_DATA_SECTOR + i
          && fs.table[i].flags <= 1
          && (Used(fs.table, i) ==> 0 in fs.table[i].name))
    && Distinct(fs.table)
    && fs.disk[TABLE_SECTOR] == SavedTable(fs.table)
  }

  /** The files in the first `n` slots. */
  ghost function FilesIn(fs: Fs, n: nat): map<seq<Byte>, seq<Byte>>
    requires Shaped(fs) && n <= SLOTS
    decreases |fs.table|, n
  {
    if n == 0 then map[]
    else if Used(fs.table, n - 1) then
      assert fs.table[n - 1] in fs.table;
      FilesIn(fs, n - 1)[CStr(fs.table[n - 1].name) := fs.disk[fs.table[n - 1].sector]]
    else FilesIn(fs, n - 1)
  }

  /** The live files. */
  ghost function Files(fs: Fs): map<seq<Byte>, seq<Byte>>
    requires Shaped(fs)
  {
    FilesIn(fs, SLOTS)
  }

  // ----- Lookups -----

  lemma HitIsName(t: seq<FileEntry>, n: Name, i: nat)
    requires i < |t| && (Used(t, i) ==> 0 in t[i].name)
    ensures Hit(t, n, i) <==> Used(t, i) && CStr(t[i].name) == n
  {
    if Used(t, i) {
      MatchesCStr(t[i].name, n);
    }
  }

  lemma MatchIsUnique(field: seq<Byte>, n: Name, n': Name)
    requires Matches(field, n) && Matches(field, n')
    ensures n == n'
  {
    assert 0 in field;
    MatchesCStr(field, n);
    MatchesCStr(field, n');
  }

  lemma StrCpyMatches(field: seq<Byte>, name: Name)
    requires |field| == 32
    ensures Matches(StrCpy(field, name), name) && 0 in StrCpy(field, name)
  {
    assert StrCpy(field, name)[|name|] == 0;
  }

  lemma SameHits(t: seq<FileEntry>, t': seq<FileEntry>, n: Name)
    requires |t'| == |t| && forall j :: 0 <= j < |t| ==> Hit(t', n, j) == Hit(t, n, j)
    ensures Lookup(t', n) == Lookup(t, n)
  {
    var r, r' := Lookup(t, n), Lookup(t', n);
    assert r < |t| ==> Hit(t', n, r);
    assert r' < |t| ==> Hit(t, n, r');
  }

  lemma OnlyHit(t: seq<FileEntry>, n: Name, i: nat)
    requires i < |t| && Hit(t, n, i) && forall j :: 0 <= j < i ==> !Hit(t, n, j)
    ensures Lookup(t, n) == i
  {}

  /** What slot `n` adds to the files in front of it. */
  lemma FilesInStep(fs: Fs, n: nat, name: Name)
    requires Inv(fs) && n < SLOTS
    ensures name in FilesIn(fs, n + 1) <==> Hit(fs.table, name, n) || name in FilesIn(fs, n)
    ensures name in FilesIn(fs, n + 1) ==>
              FilesIn(fs, n + 1)[name] == if Hit(fs.table, name, n) then fs.disk[FIRST_DATA_SECTOR + n] else FilesIn(fs, n)[name]
  {
    HitIsName(fs.table, name, n);
  }

  lemma HitOnce(fs: Fs, name: Name, i: nat, j: nat)
    requires Inv(fs) && i < SLOTS && j < SLOTS && Hit(fs.table, name, i) && Hit(fs.table, name, j)
    ensures i == j
  {
    HitIsName(fs.table, name, i);
    HitIsName(fs.table, name, j);
  }

  lemma LookupStep(fs: Fs, n: nat, name: Name)
    requires Inv(fs) && n < SLOTS
    ensures Hit(fs.table, name, n) ==> Lookup(fs.table, name) == n
    ensures !Hit(fs.table, name, n) ==> Lookup(fs.table, name) != n
  {
    if Hit(fs.table, name, n) {
      HitOnce(fs, name, Lookup(fs.table, name), n);
    }
  }

  lemma {:induction false} FilesInLookup(fs: Fs, n: nat, name: Name)
    requires Inv(fs) && n <= SLOTS
    ensures name in FilesIn(fs, n) <==> Lookup(fs.table, name) < n
    ensures name in FilesIn(fs, n) ==> FilesIn(fs, n)[name] == fs.disk[FIRST_DATA_SECTOR + Lookup(fs.table, name)]
  {
    if n > 0 {
      FilesInLookup(fs, n - 1, name);
      FilesInStep(fs, n - 1, name);
      LookupStep(fs, n - 1, name);
    }
  }

  /** A name is live exactly when its lookup succeeds. */
  lemma LiveIff(fs: Fs, name: Name)
    requires Inv(fs)
    ensures name in Files(fs) <==> Lookup(fs.table, name) < SLOTS
    ensures name in Files(fs) ==> Files(fs)[name] == fs.disk[FIRST_DATA_SECTOR + Lookup(fs.table, name)]
  {
    FilesInLookup(fs, SLOTS, name);
  }

  lemma {:induction false} KeysAreNames(fs: Fs, n: nat)
    requires Inv(fs) && n <= SLOTS
    ensures forall s :: s in FilesIn(fs, n) ==> |s| < 32 && 0 !in s
  {
    if n > 0 {
      KeysAreNames(fs, n - 1);
      assert fs.table[n - 1] in fs.table;
      if Used(fs.table, n - 1) {
        CStrIsName(fs.table[n - 1].name);
      }
    }
  }

  /** `ReadFile` answers what the map holds. */
  lemma ReadLaw(fs: Fs, n: Name)
    requires Inv(fs)
    ensures Read(fs, n) == if n in Files(fs) then Some(Files(fs)[n]) else None
  {
    LiveIff(fs, n);
  }

  // ----- Counting -----

  ghost function CountUsed(t: seq<FileEntry>, n: nat): (c: nat)
    requires n <= |t|
    ensures c <= n
    decreases |t|, n
  {
    if n == 0 then 0 else CountUsed(t, n - 1) + if Used(t, n - 1) then 1 else 0
  }

  lemma {:induction false} AllUsed(t: seq<FileEntry>, n: nat)
    requires n <= |t|
    ensures CountUsed(t, n) == n <==> forall i :: 0 <= i < n ==> Used(t, i)
  {
    if n > 0 {
      AllUsed(t, n - 1);
    }
  }

  /** The name in slot `n` is not that of an earlier slot. */
  lemma NameIsNew(fs: Fs, n: nat)
    requires Inv(fs) && n < SLOTS && Used(fs.table, n)
    ensures CStr(fs.table[n].name) !in FilesIn(fs, n)
  {
    assert fs.table[n] in fs.table;
    CStrIsName(fs.table[n].name);
    var name: Name := CStr(fs.table[n].name);
    FilesInLookup(fs, n, name);
    if Lookup(fs.table, name) < n {
      HitIsName(fs.table, name, Lookup(fs.table, name));
    }
  }

  lemma {:induction false} FilesCounted(fs: Fs, n: nat)
    requires Inv(fs) && n <= SLOTS
    ensures |FilesIn(fs, n)| == CountUsed(fs.table, n)
  {
    if n > 0 {
      FilesCounted(fs, n - 1);
      if Used(fs.table, n - 1) {
        NameIsNew(fs, n - 1);
      }
    }
  }

  lemma FileCount(fs: Fs)
    requires Inv(fs)
    ensures |Files(fs)| == CountUsed(fs.table, SLOTS)
  {
    FilesCounted(fs, SLOTS);
  }

  /** A new file finds a slot exactly when fewer than 16 files are live. */
  lemma RoomIff(fs: Fs)
    requires Inv(fs)
    ensures FirstFree(fs.table, 0) < SLOTS <==> |Files(fs)| < SLOTS
  {
    FileCount(fs);
    AllUsed(fs.table, SLOTS);
    var r := FirstFree(fs.table, 0);
    if r < SLOTS {
      assert !Used(fs.table, r);
    } else {
      assert forall i :: 0 <= i < SLOTS ==> Used(fs.table, i);
    }
  }

  // ----- The operations -----

  lemma {:induction false} NoFiles(fs: Fs, n: nat)
    requires Shaped(fs) && n <= SLOTS && forall i :: 0 <= i < SLOTS ==> !Used(fs.table, i)
    ensures FilesIn(fs, n) == map[]
  {
    if n > 0 {
      NoFiles(fs, n - 1);
    }
  }

  lemma FormatLaw(fs: Fs)
    requires Shaped(fs)
    ensures Inv(Format(fs)) && Files(Format(fs)) == map[]
  {
    var fs' := Format(fs);
    assert forall e :: e in fs'.table ==> e.sector < FIRST_DATA_SECTOR + SLOTS;
    NoFiles(fs', SLOTS);
  }

  /** Renaming slot `i` to a name that no other used slot has. */
  lemma StoreDistinct(t: seq<FileEntry>, t': seq<FileEntry>, i: nat, name: Name)
    requires Distinct(t) && i < |t| && |t'| == |t| && 0 in t'[i].name && Matches(t'[i].name, name)
    requires forall j :: 0 <= j < |t| && j != i ==> t'[j] == t[j]
    requires forall j :: 0 <= j < |t| && j != i && Used(t, j) ==> 0 in t[j].name && !Matches(t[j].name, name)
    ensures Distinct(t')
  {
    MatchesCStr(t'[i].name, name);
    forall j | 0 <= j < |t| && j != i && Used(t, j) ensures CStr(t[j].name) != name {
      MatchesCStr(t[j].name, name);
    }
  }

  /** No slot but the one that is written holds `name`. */
  lemma OtherSlots(fs: Fs, name: Name)
    requires Inv(fs) && SlotFor(fs.table, name) < SLOTS
    ensures forall j :: 0 <= j < SLOTS && j != SlotFor(fs.table, name) && Used(fs.table, j) ==>
              0 in fs.table[j].name && !Matches(fs.table[j].name, name)
  {
    var t, slot := fs.table, SlotFor(fs.table, name);
    forall j | 0 <= j < SLOTS && j != slot && Used(t, j) ensures !Matches(t[j].name, name) {
      HitIsName(t, name, j);
      if Lookup(t, name) < SLOTS {
        HitIsName(t, name, slot);
      }
    }
  }

  lemma WriteShaped(fs: Fs, name: Name, content: seq<Byte>)
    requires Shaped(fs)
    ensures Shaped(Write(fs, name, content))
  {
    var slot := SlotFor(fs.table, name);
    if slot < SLOTS {
      assert fs.table[slot] in fs.table;
      assert forall e :: e in Write(fs, name, content).table ==> e in fs.table || e.sector == fs.table[slot].sector;
    }
  }

  lemma WriteSaved(fs: Fs, name: Name, content: seq<Byte>)
    requires Shaped(fs) && SlotFor(fs.table, name) < SLOTS
    ensures EntriesSized(Write(fs, name, content).table)
    ensures Write(fs, name, content).disk[TABLE_SECTOR] == SavedTable(Write(fs, name, content).table)
  {
    assert fs.table[SlotFor(fs.table, name)] in fs.table;
  }

  /** Storing into one slot keeps the table well formed. */
  lemma StoreInv(fs: Fs, name: Name, content: seq<Byte>)
    requires Inv(fs)
    ensures Inv(Write(fs, name, content))
  {
    WriteShaped(fs, name, content);
    var slot, t := SlotFor(fs.table, name), fs.table;
    if slot < SLOTS {
      assert t[slot] in t;
      StrCpyMatches(t[slot].name, name);
      WriteSaved(fs, name, content);
      OtherSlots(fs, name);
      StoreDistinct(t, Write(fs, name, content).table, slot, name);
    }
  }

  /** After a write, other names are looked up as before, and `name` is found in its slot. */
  lemma StoreLookup(fs: Fs, name: Name, content: seq<Byte>, n: Name)
    requires Inv(fs) && SlotFor(fs.table, name) < SLOTS
    ensures Lookup(Write(fs, name, content).table, n) ==
            if n == name then SlotFor(fs.table, name) else Lookup(fs.table, n)
    ensures n != name && Lookup(fs.table, n) < SLOTS ==> Lookup(fs.table, n) != SlotFor(fs.table, name)
  {
    var slot, t, t' := SlotFor(fs.table, name), fs.table, Write(fs, name, content).table;
    assert t[slot] in t;
    StrCpyMatches(t[slot].name, name);
    assert Hit(t', name, slot);
    if n == name {
      assert forall j :: 0 <= j < slot ==> Hit(t', name, j) == Hit(t, name, j);
      OnlyHit(t', name, slot);
    } else {
      if Hit(t', n, slot) {
        MatchIsUnique(t'[slot].name, n, name);
      }
      if Hit(t, n, slot) {
        MatchIsUnique(t[slot].name, n, name);
      }
      SameHits(t, t', n);
    }
  }

  /** Two file maps, from all of their names. */
  lemma SameFiles(f: map<seq<Byte>, seq<Byte>>, g: map<seq<Byte>, seq<Byte>>)
    requires forall s :: s in f || s in g ==> |s| < 32 && 0 !in s
    requires forall n: Name :: n in f <==> n in g
    requires forall n: Name :: n in f && n in g ==> f[n] == g[n]
    ensures f == g
  {
    forall s: seq<Byte> ensures s in f <==> s in g {
      if s in f || s in g {
        var n: Name := s;
      }
    }
    forall s: seq<Byte> | s in f && s in g ensures f[s] == g[s] {
      var n: Name := s;
    }
  }

  lemma WriteKeys(fs: Fs, name: Name, content: seq<Byte>, n: Name)
    requires Inv(fs) && Inv(Write(fs, name, content)) && SlotFor(fs.table, name) < SLOTS
    ensures n in Files(Write(fs, name, content)) <==> n == name || n in Files(fs)
  {
    StoreLookup(fs, name, content, n);
    LiveIff(fs, n);
    LiveIff(Write(fs, name, content), n);
  }

  /** Writing changes the slot's own sector and the table's only. */
  lemma WriteDisk(fs: Fs, name: Name, content: seq<Byte>, i: nat)
    requires Inv(fs) && SlotFor(fs.table, name) < SLOTS && i < SLOTS
    ensures |Write(fs, name, content).disk| == |fs.disk|
    ensures Write(fs, name, content).disk[FIRST_DATA_SECTOR + i] ==
            if i == SlotFor(fs.table, name) then Pad(content) else fs.disk[FIRST_DATA_SECTOR + i]
  {
    assert fs.table[SlotFor(fs.table, name)] in fs.table;
  }

  lemma WriteValues(fs: Fs, name: Name, content: seq<Byte>, n: Name)
    requires Inv(fs) && Inv(Write(fs, name, content)) && SlotFor(fs.table, name) < SLOTS
    requires n in Files(Write(fs, name, content)) && (n == name || n in Files(fs))
    ensures Files(Write(fs, name, content))[n] == if n == name then Pad(content) else Files(fs)[n]
  {
    var fs' := Write(fs, name, content);
    LiveIff(fs', n);
    StoreLookup(fs, name, content, n);
    WriteDisk(fs, name, content, Lookup(fs'.table, n));
    if n != name {
      LiveIff(fs, n);
    }
  }

  lemma WriteFiles(fs: Fs, name: Name, content: seq<Byte>)
    requires Inv(fs) && Inv(Write(fs, name, content)) && SlotFor(fs.table, name) < SLOTS
    ensures Files(Write(fs, name, content)) == Files(fs)[name := Pad(content)]
  {
    var f, g := Files(Write(fs, name, content)), Files(fs)[name := Pad(content)];
    KeysAreNames(fs, SLOTS);
    KeysAreNames(Write(fs, name, content), SLOTS);
    forall n: Name ensures n in f <==> n in g {
      WriteKeys(fs, name, content, n);
    }
    forall n: Name | n in f && n in g ensures f[n] == g[n] {
      WriteValues(fs, name, content, n);
    }
    SameFiles(f, g);
  }

  /**
    `WriteFile` is a map update, for a name that is live or when fewer than 16 files are;
    otherwise it changes nothing.
  */
  lemma WriteLaw(fs: Fs, name: Name, content: seq<Byte>)
    requires Inv(fs)
    ensures Inv(Write(fs, name, content))
    ensures Files(Write(fs, name, content)) ==
            if name in Files(fs) || |Files(fs)| < SLOTS then Files(fs)[name := Pad(content)] else Files(fs)
  {
    StoreInv(fs, name, content);
    LiveIff(fs, name);
    RoomIff(fs);
    if SlotFor(fs.table, name) < SLOTS {
      WriteFiles(fs, name, content);
    }
  }

  lemma DeleteShaped(fs: Fs, name: Name)
    requires Shaped(fs)
    ensures Shaped(Delete(fs, name))
  {
    var i := Lookup(fs.table, name);
    if i < SLOTS {
      assert fs.table[i] in fs.table;
      assert forall e :: e in Delete(fs, name).table ==> e in fs.table || e.sector == fs.table[i].sector;
    }
  }

  lemma DeleteSaved(fs: Fs, name: Name)
    requires Inv(fs)
    ensures EntriesSized(Delete(fs, name).table)
    ensures Delete(fs, name).disk[TABLE_SECTOR] == SavedTable(Delete(fs, name).table)
  {
    DeleteShaped(fs, name);
  }

  lemma FewerDistinct(t: seq<FileEntry>, t': seq<FileEntry>)
    requires Distinct(t) && |t'| == |t|
    requires forall j :: 0 <= j < |t| && Used(t', j) ==> Used(t, j) && t'[j].name == t[j].name
    ensures Distinct(t')
  {}

  lemma DeleteInv(fs: Fs, name: Name)
    requires Inv(fs)
    ensures Inv(Delete(fs, name))
  {
    DeleteShaped(fs, name);
    DeleteSaved(fs, name);
    var i, t := Lookup(fs.table, name), fs.table;
    if i < SLOTS {
      FewerDistinct(t, Delete(fs, name).table);
    }
  }

  lemma DeleteLookup(fs: Fs, name: Name, n: Name)
    requires Inv(fs) && Lookup(fs.table, name) < SLOTS
    ensures Lookup(Delete(fs, name).table, n) == if n == name then SLOTS else Lookup(fs.table, n)
  {
    var i, t, t' := Lookup(fs.table, name), fs.table, Delete(fs, name).table;
    if n == name {
      forall j | 0 <= j < SLOTS ensures !Hit(t', name, j) {
        HitIsName(t, name, j);
        HitIsName(t, name, i);
      }
    } else {
      if Hit(t, n, i) {
        MatchIsUnique(t[i].name, n, name);
      }
      SameHits(t, t', n);
    }
  }

  lemma DeleteKeys(fs: Fs, name: Name, n: Name)
    requires Inv(fs) && Inv(Delete(fs, name)) && Lookup(fs.table, name) < SLOTS
    ensures n in Files(Delete(fs, name)) <==> n != name && n in Files(fs)
  {
    DeleteLookup(fs, name, n);
    LiveIff(fs, n);
    LiveIff(Delete(fs, name), n);
  }

  /** Deleting touches the table's sector only. */
  lemma DeleteDisk(fs: Fs, name: Name)
    requires Inv(fs)
    ensures var d := Delete(fs, name).disk;
            |d| == |fs.disk| && forall k :: FIRST_DATA_SECTOR <= k < |d| ==> d[k] == fs.disk[k]
  {}

  lemma DeleteValues(fs: Fs, name: Name, n: Name)
    requires Inv(fs) && Inv(Delete(fs, name)) && Lookup(fs.table, name) < SLOTS
    requires n in Files(Delete(fs, name)) && n in Files(fs) && n != name
    ensures Files(Delete(fs, name))[n] == Files(fs)[n]
  {
    DeleteLookup(fs, name, n);
    DeleteDisk(fs, name);
    LiveIff(fs, n);
    LiveIff(Delete(fs, name), n);
  }

  lemma DeleteFiles(fs: Fs, name: Name)
    requires Inv(fs) && Inv(Delete(fs, name)) && Lookup(fs.table, name) < SLOTS
    ensures Files(Delete(fs, name)) == Files(fs) - {name}
  {
    var f, g := Files(Delete(fs, name)), Files(fs) - {name};
    KeysAreNames(fs, SLOTS);
    KeysAreNames(Delete(fs, name), SLOTS);
    forall n: Name ensures n in f <==> n in g {
      DeleteKeys(fs, name, n);
    }
    forall n: Name | n in f && n in g ensures f[n] == g[n] {
      DeleteValues(fs, name, n);
    }
    SameFiles(f, g);
  }

  /** `DeleteFile` removes the name, and no other. */
  lemma DeleteLaw(fs: Fs, name: Name)
    requires Inv(fs)
    ensures Inv(Delete(fs, name))
    ensures Files(Delete(fs, name)) == Files(fs) - {name}
  {
    DeleteInv(fs, name);
    LiveIff(fs, name);
    if Lookup(fs.table, name) < SLOTS {
      DeleteFiles(fs, name);
    }
  }

  // ----- Remounting -----

  /** All live files are in slots that the saved sector covers. */
  ghost predicate Low(t: seq<FileEntry>) {
    forall i :: SAVED_SLOTS <= i < |t| ==> !Used(t, i)
  }

  /** `ReadFile` right after `Init`. */
  ghost function MountedRead(fs: Fs, beyond: seq<Byte>, n: Name): Option<seq<Byte>>
    requires Shaped(fs) && |beyond| == ENTRY_SIZE * SLOTS - SECTOR_SIZE
  {
    var fs' := Mount(fs, beyond);
    var i := Lookup(fs'.table, n);
    if i == SLOTS || fs'.table[i].sector >= |fs'.disk| then None else Some(fs'.disk[fs'.table[i].sector])
  }

  lemma MountKeepsSaved(fs: Fs, beyond: seq<Byte>)
    requires Inv(fs) && |beyond| == ENTRY_SIZE * SLOTS - SECTOR_SIZE
    ensures Mount(fs, beyond) == fs.(table := ReadTable(SavedTable(fs.table), beyond))
    ensures forall i :: 0 <= i < SAVED_SLOTS ==> Mount(fs, beyond).table[i] == fs.table[i]
  {
    forall i | 0 <= i < SAVED_SLOTS ensures ReadTable(SavedTable(fs.table), beyond)[i] == fs.table[i] {
      SavedEntries(fs.table, beyond, i);
    }
  }

  lemma LowLookup(t: seq<FileEntry>, t': seq<FileEntry>, n: Name)
    requires |t| == |t'| == SLOTS && Lookup(t, n) < SAVED_SLOTS && forall i :: 0 <= i < SAVED_SLOTS ==> t'[i] == t[i]
    ensures Lookup(t', n) == Lookup(t, n)
  {
    assert forall j :: 0 <= j < SAVED_SLOTS ==> Hit(t', n, j) == Hit(t, n, j);
    OnlyHit(t', n, Lookup(t, n));
  }

  /** A file in one of the first eleven slots is found there again, before anything arbitrary. */
  lemma LowFileSurvives(fs: Fs, beyond: seq<Byte>, n: Name)
    requires Inv(fs) && |beyond| == ENTRY_SIZE * SLOTS - SECTOR_SIZE
    requires Lookup(fs.table, n) < SAVED_SLOTS
    ensures n in Files(fs) && MountedRead(fs, beyond, n) == Some(Files(fs)[n])
  {
    MountKeepsSaved(fs, beyond);
    LiveIff(fs, n);
    LowLookup(fs.table, Mount(fs, beyond).table, n);
  }

  /** With zeros behind the buffer, a file in a later slot is gone. */
  lemma HighFileLost(fs: Fs, beyond: seq<Byte>, n: Name)
    requires Inv(fs) && |beyond| == ENTRY_SIZE * SLOTS - SECTOR_SIZE
    requires forall b :: b in beyond ==> b == 0
    requires SAVED_SLOTS <= Lookup(fs.table, n) < SLOTS
    ensures MountedRead(fs, beyond, n) == None
  {
    MountKeepsSaved(fs, beyond);
    var t' := Mount(fs, beyond).table;
    forall j | 0 <= j < SLOTS ensures !Hit(t', n, j) {
      if j < SAVED_SLOTS {
        assert !Hit(fs.table, n, j);
      } else {
        LostEntries(fs.table, beyond, j);
      }
    }
  }

  /** Every live file is answered with its present content after a mount. */
  ghost predicate Survives(fs: Fs, beyond: seq<Byte>)
    requires Shaped(fs) && |beyond| == ENTRY_SIZE * SLOTS - SECTOR_SIZE
  {
    forall n: Name :: n in Files(fs) ==> MountedRead(fs, beyond, n) == Some(Files(fs)[n])
  }

  lemma LowSurvives(fs: Fs, beyond: seq<Byte>)
    requires Inv(fs) && Low(fs.table) && |beyond| == ENTRY_SIZE * SLOTS - SECTOR_SIZE
    ensures Survives(fs, beyond)
  {
    forall n: Name | n in Files(fs) ensures MountedRead(fs, beyond, n) == Some(Files(fs)[n]) {
      LiveIff(fs, n);
      LowFileSurvives(fs, beyond, n);
    }
  }

  lemma HighDoesNot(fs: Fs, beyond: seq<Byte>, i: nat)
    requires Inv(fs) && SAVED_SLOTS <= i < SLOTS && Used(fs.table, i)
    requires |beyond| == ENTRY_SIZE * SLOTS - SECTOR_SIZE && forall b :: b in beyond ==> b == 0
    ensures !Survives(fs, beyond)
  {
    assert fs.table[i] in fs.table;
    CStrIsName(fs.table[i].name);
    var n: Name := CStr(fs.table[i].name);
    forall j | 0 <= j < i ensures !Hit(fs.table, n, j) {
      HitIsName(fs.table, n, j);
    }
    HitIsName(fs.table, n, i);
    OnlyHit(fs.table, n, i);
    LiveIff(fs, n);
    HighFileLost(fs, beyond, n);
  }

  /**
    All live files survive a mount, whatever lies behind the buffer, exactly when all of
    them are in the first eleven slots.
  */
  lemma SurvivesIff(fs: Fs)
    requires Inv(fs)
    ensures (forall beyond: seq<Byte> :: |beyond| == ENTRY_SIZE * SLOTS - SECTOR_SIZE ==> Survives(fs, beyond))
            <==> Low(fs.table)
  {
    if Low(fs.table) {
      forall beyond: seq<Byte> | |beyond| == ENTRY_SIZE * SLOTS - SECTOR_SIZE ensures Survives(fs, beyond) {
        LowSurvives(fs, beyond);
      }
    } else {
      var i :| SAVED_SLOTS <= i < SLOTS && Used(fs.table, i);
      HighDoesNot(fs, seq(ENTRY_SIZE * SLOTS - SECTOR_SIZE, _ => 0), i);
    }
  }

  // ----- Runs -----

  datatype Op = WriteOp(name: Name, content: seq<Byte>) | DeleteOp(name: Name)

  function Step(fs: Fs, op: Op): Fs
    requires Shaped(fs)
  {
    match op
    case WriteOp(name, content) => Write(fs, name, content)
    case DeleteOp(name) => Delete(fs, name)
  }

  lemma StepInv(fs: Fs, op: Op)
    requires Inv(fs)
    ensures Inv(Step(fs, op))
  {
    match op
    case WriteOp(name, content) => StoreInv(fs, name, content);
    case DeleteOp(name) => DeleteInv(fs, name);
  }

  ghost function Run(fs: Fs, ops: seq<Op>): (fs': Fs)
    requires Inv(fs)
    ensures Inv(fs')
    decreases |ops|
  {
    if ops == [] then fs
    else
      StepInv(fs, ops[0]);
      Run(Step(fs, ops[0]), ops[1..])
  }

  ghost function MapStep(m: map<seq<Byte>, seq<Byte>>, op: Op): map<seq<Byte>, seq<Byte>> {
    match op
    case WriteOp(name, content) => if name in m || |m| < SLOTS then m[name := Pad(content)] else m
    case DeleteOp(name) => m - {name}
  }

  /** The same run on a map that takes up to 16 names. */
  ghost function MapRun(m: map<seq<Byte>, seq<Byte>>, ops: seq<Op>): map<seq<Byte>, seq<Byte>>
    decreases |ops|
  {
    if ops == [] then m else MapRun(MapStep(m, ops[0]), ops[1..])
  }

  lemma StepFiles(fs: Fs, op: Op)
    requires Inv(fs)
    ensures Inv(Step(fs, op)) && Files(Step(fs, op)) == MapStep(Files(fs), op)
  {
    match op
    case WriteOp(name, content) => WriteLaw(fs, name, content);
    case DeleteOp(name) => DeleteLaw(fs, name);
  }

  /** From `Format` on, every run is a run on a map of capacity 16. */
  lemma {:induction false} RunIsMap(fs: Fs, ops: seq<Op>)
    requires Inv(fs)
    ensures Files(Run(fs, ops)) == MapRun(Files(fs), ops)
    decreases |ops|
  {
    if ops != [] {
      StepInv(fs, ops[0]);
      StepFiles(fs, ops[0]);
      RunIsMap(Step(fs, ops[0]), ops[1..]);
    }
  }

  /** At no point of the run are more than `n` files live. */
  ghost predicate AtMostLive(fs: Fs, ops: seq<Op>, n: nat)
    requires Inv(fs)
    decreases |ops|
  {
    && |Files(fs)| <= n
    && (ops != [] ==> (StepInv(fs, ops[0]); AtMostLive(Step(fs, ops[0]), ops[1..], n)))
  }

  lemma {:induction false} CountAtLeast(t: seq<FileEntry>, n: nat)
    requires SAVED_SLOTS <= n <= |t| && forall j :: 0 <= j < SAVED_SLOTS ==> Used(t, j)
    ensures CountUsed(t, n) >= SAVED_SLOTS
  {
    if n == SAVED_SLOTS {
      AllUsed(t, n);
    } else {
      CountAtLeast(t, n - 1);
    }
  }

  lemma {:induction false} CountLow(t: seq<FileEntry>, n: nat, i: nat)
    requires SAVED_SLOTS <= i < n <= |t| && Used(t, i)
    requires forall j :: 0 <= j < SAVED_SLOTS ==> Used(t, j)
    ensures CountUsed(t, n) > SAVED_SLOTS
  {
    if i == n - 1 {
      CountAtLeast(t, n - 1);
    } else {
      CountLow(t, n - 1, i);
    }
  }

  /** A slot beyond the eleventh is taken only when that makes more than eleven files. */
  lemma HighSlotCount(t: seq<FileEntry>, name: Name, t': seq<FileEntry>)
    requires |t| == |t'| == SLOTS && SAVED_SLOTS <= SlotFor(t, name) < SLOTS && Low(t)
    requires forall i :: 0 <= i < SLOTS ==> t[i].flags <= 1
    requires Used(t', SlotFor(t, name)) && forall j :: 0 <= j < SLOTS && Used(t, j) ==> Used(t', j)
    ensures CountUsed(t', SLOTS) > SAVED_SLOTS
  {
    assert Lookup(t, name) == SLOTS;
    forall j | 0 <= j < SAVED_SLOTS ensures Used(t', j) {
      assert t[j].flags != 0;
      assert Used(t, j);
    }
    CountLow(t', SLOTS, SlotFor(t, name));
  }

  lemma LowUpdate(t: seq<FileEntry>, i: nat, e: FileEntry)
    requires Low(t) && i < |t| && (i < SAVED_SLOTS || e.flags != 1)
    ensures Low(t[i := e])
  {
    var t' := t[i := e];
    forall k | SAVED_SLOTS <= k < |t| ensures !Used(t', k) {
      assert !Used(t, k);
    }
  }

  lemma StepLowWrite(fs: Fs, name: Name, content: seq<Byte>)
    requires Inv(fs) && Low(fs.table) && SlotFor(fs.table, name) < SLOTS
    requires Inv(Write(fs, name, content)) && CountUsed(Write(fs, name, content).table, SLOTS) <= SAVED_SLOTS
    ensures Low(Write(fs, name, content).table)
  {
    var slot, t, t' := SlotFor(fs.table, name), fs.table, Write(fs, name, content).table;
    assert forall j :: 0 <= j < SLOTS && j != slot ==> t'[j] == t[j];
    if SAVED_SLOTS <= slot {
      HighSlotCount(t, name, t');
    } else {
      LowUpdate(t, slot, t'[slot]);
    }
  }

  /** The lowest free slot is among the first eleven unless eleven files are there already. */
  lemma StepKeepsLow(fs: Fs, op: Op)
    requires Inv(fs) && Low(fs.table)
    requires Inv(Step(fs, op)) && |Files(Step(fs, op))| <= SAVED_SLOTS
    ensures Low(Step(fs, op).table)
  {
    FileCount(Step(fs, op));
    match op
    case DeleteOp(name) =>
      var i := Lookup(fs.table, name);
      if i < SLOTS {
        LowUpdate(fs.table, i, fs.table[i].(flags := 0));
      }
    case WriteOp(name, content) =>
      var slot := SlotFor(fs.table, name);
      if slot < SLOTS {
        StepLowWrite(fs, name, content);
      }
  }

  lemma {:induction false} RunKeepsLow(fs: Fs, ops: seq<Op>)
    requires Inv(fs) && Low(fs.table) && AtMostLive(fs, ops, SAVED_SLOTS)
    ensures Low(Run(fs, ops).table)
    decreases |ops|
  {
    if ops != [] {
      StepInv(fs, ops[0]);
      StepKeepsLow(fs, ops[0]);
      RunKeepsLow(Step(fs, ops[0]), ops[1..]);
    }
  }

  lemma {:induction false} NoneUsed(t: seq<FileEntry>, n: nat)
    requires n <= |t| && CountUsed(t, n) == 0
    ensures forall i :: 0 <= i < n ==> !Used(t, i)
  {
    if n > 0 {
      NoneUsed(t, n - 1);
    }
  }

  /**
    From a disk without files, such as `Format` leaves, if at most 11 files were ever live
    at once, every live file reads back the same sector after the next `Init`, whatever
    follows its buffer.
  */
  lemma RemountAfterRun(fs: Fs, ops: seq<Op>, beyond: seq<Byte>)
    requires Inv(fs) && Files(fs) == map[] && AtMostLive(fs, ops, SAVED_SLOTS)
    requires |beyond| == ENTRY_SIZE * SLOTS - SECTOR_SIZE
    ensures Survives(Run(fs, ops), beyond)
  {
    FileCount(fs);
    NoneUsed(fs.table, SLOTS);
    RunKeepsLow(fs, ops);
    LowSurvives(Run(fs, ops), beyond);
  }

  // ----- Twelve files -----

  const NOTHING_BEHIND := seq(ENTRY_SIZE * SLOTS - SECTOR_SIZE, _ => 0)

  lemma {:induction false} CountOfLow(t: seq<FileEntry>, n: nat)
    requires SAVED_SLOTS <= n <= |t| && Low(t)
    ensures CountUsed(t, n) == CountUsed(t, SAVED_SLOTS)
  {
    if n > SAVED_SLOTS {
      CountOfLow(t, n - 1);
    }
  }

  /** Wherever they came from: when more than eleven files are live, one of them is lost if zeros follow the buffer. */
  lemma TwelveDoNotSurvive(fs: Fs)
    requires Inv(fs) && |Files(fs)| > SAVED_SLOTS
    ensures !Survives(fs, NOTHING_BEHIND)
  {
    FileCount(fs);
    if Low(fs.table) {
      CountOfLow(fs.table, SLOTS);
    } else {
      var i :| SAVED_SLOTS <= i < SLOTS && Used(fs.table, i);
      HighDoesNot(fs, NOTHING_BEHIND, i);
    }
  }

  /** Empty files with the one-byte names from `i` to 12. */
  function EmptyFiles(i: nat): seq<Op>
    requires 1 <= i <= 13
    decreases 13 - i
  {
    if i == 13 then [] else [WriteOp([i], [])] + EmptyFiles(i + 1)
  }

  lemma {:induction false} EmptyFilesCounted(m: map<seq<Byte>, seq<Byte>>, i: nat)
    requires 1 <= i <= 13 && |m| == i - 1 && forall s :: s in m ==> |s| == 1 && s[0] < i
    ensures |MapRun(m, EmptyFiles(i))| == 12
    decreases 13 - i
  {
    if i < 13 {
      EmptyFilesCounted(m[[i] := Pad([])], i + 1);
      assert EmptyFiles(i)[1..] == EmptyFiles(i + 1);
    }
  }

  /** From a formatted disk, twelve writes are enough to lose a file at the next `Init`. */
  lemma TwelveWritesDoNotSurvive(fs: Fs)
    requires Shaped(fs)
    ensures Inv(Format(fs)) && !Survives(Run(Format(fs), EmptyFiles(1)), NOTHING_BEHIND)
  {
    FormatLaw(fs);
    RunIsMap(Format(fs), EmptyFiles(1));
    EmptyFilesCounted(map[], 1);
    TwelveDoNotSurvive(Run(Format(fs), EmptyFiles(1)));
  }
}
