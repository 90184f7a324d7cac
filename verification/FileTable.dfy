/**
  The file table of src/core/fs/sfs.cpp as a value: sixteen 44-byte entries cached in
  memory, of which one 512-byte sector is saved, and one data sector for each entry.
*/
module FileTable {
  import opened Machine32
  import opened Bytes

  const SLOTS := 16
  const ENTRY_SIZE := 44
  const SECTOR_SIZE := 512
  const TABLE_SECTOR := 1
  const FIRST_DATA_SECTOR := 10
  const SAVED_SLOTS := 11  // entries that lie completely within one sector

  /** A file name: at most 31 bytes, none of them NUL. */
  type Name = n: seq<Byte> | |n| < 32 && 0 !in n

  datatype FileEntry = FileEntry(name: seq<Byte>, sector: Word, size: Word, flags: Word)

  /** `file_table` and the disk, as an array of sectors. */
  datatype Fs = Fs(table: seq<FileEntry>, disk: seq<seq<Byte>>)

  // ----- Names in fixed fields -----

  /** `field` starts with `name` and a NUL: what `sfs_strcmp` decides. */
  predicate Matches(field: seq<Byte>, name: Name) {
    |name| < |field| && field[..|name|] == name && field[|name|] == 0
  }

  lemma {:induction false} MatchesCStr(field: seq<Byte>, name: Name)
    requires 0 in field
    ensures Matches(field, name) <==> CStr(field) == name
  {
    if field[0] != 0 {
      assert 0 in field[1..];
      if name != [] {
        var rest: Name := name[1..];
        MatchesCStr(field[1..], rest);
        if |name| < |field| {
          assert field[..|name|] == [field[0]] + field[1..][..|rest|];
        }
        assert name == [name[0]] + rest;
      }
    }
  }

  lemma {:induction false} CStrIsName(field: seq<Byte>)
    requires 0 in field && |field| <= 32
    ensures |CStr(field)| < |field| && 0 !in CStr(field)
  {
    if field[0] != 0 {
      assert 0 in field[1..];
      CStrIsName(field[1..]);
    }
  }

  /** `sfs_strcpy`: the name, a NUL, and whatever the field held behind that. */
  function StrCpy(field: seq<Byte>, name: Name): seq<Byte>
    requires |field| == 32
  {
    name + [0] + field[|name| + 1..]
  }

  // ----- Table and sectors -----

  function Word32(w: Word): seq<Byte> { [ByteOf(w, 0), ByteOf(w, 1), ByteOf(w, 2), ByteOf(w, 3)] }

  function EntryBytes(e: FileEntry): seq<Byte> { e.name + Word32(e.sector) + Word32(e.size) + Word32(e.flags) }

  function TableBytes(t: seq<FileEntry>): seq<Byte> {
    if t == [] then [] else EntryBytes(t[0]) + TableBytes(t[1..])
  }

  function ParseEntry(bytes: seq<Byte>, at: nat): FileEntry
    requires at + ENTRY_SIZE <= |bytes|
  {
    FileEntry(bytes[at..at + 32], Read32(bytes, at + 32), Read32(bytes, at + 36), Read32(bytes, at + 40))
  }

  predicate EntriesSized(t: seq<FileEntry>) { forall e :: e in t ==> |e.name| == 32 }

  lemma ReadWord(bytes: seq<Byte>, at: nat, w: Word)
    requires at + 4 <= |bytes| && bytes[at..at + 4] == Word32(w)
    ensures Read32(bytes, at) == w
  {
    var s := bytes[at..at + 4];
    assert s[0] == bytes[at] && s[1] == bytes[at + 1] && s[2] == bytes[at + 2] && s[3] == bytes[at + 3];
    ReadBack(s, 0, w);
  }

  lemma ParseOne(bytes: seq<Byte>, at: nat, e: FileEntry)
    requires at + ENTRY_SIZE <= |bytes| && |e.name| == 32
    requires bytes[at..at + ENTRY_SIZE] == EntryBytes(e)
    ensures ParseEntry(bytes, at) == e
  {
    var s := bytes[at..at + ENTRY_SIZE];
    assert bytes[at..at + 32] == s[..32] == e.name;
    assert s[32..36] == Word32(e.sector) && s[36..40] == Word32(e.size) && s[40..44] == Word32(e.flags);
    SliceOfSlice(bytes, at, at + ENTRY_SIZE, 32, 36);
    SliceOfSlice(bytes, at, at + ENTRY_SIZE, 36, 40);
    SliceOfSlice(bytes, at, at + ENTRY_SIZE, 40, 44);
    ReadWord(bytes, at + 32, e.sector);
    ReadWord(bytes, at + 36, e.size);
    ReadWord(bytes, at + 40, e.flags);
  }

  lemma {:induction false} TableLength(t: seq<FileEntry>)
    requires EntriesSized(t)
    ensures |TableBytes(t)| == ENTRY_SIZE * |t|
  {
    if t != [] {
      assert t[0] in t && EntriesSized(t[1..]);
      TableLength(t[1..]);
    }
  }

  lemma {:induction false} TableLayout(t: seq<FileEntry>, i: nat)
    requires EntriesSized(t) && i < |t|
    ensures |TableBytes(t)| == ENTRY_SIZE * |t|
    ensures TableBytes(t)[ENTRY_SIZE * i..ENTRY_SIZE * i + ENTRY_SIZE] == EntryBytes(t[i])
  {
    assert t[0] in t && EntriesSized(t[1..]);
    TableLength(t[1..]);
    if i > 0 {
      TableLayout(t[1..], i - 1);
      var rest := TableBytes(t[1..]);
      assert TableBytes(t)[ENTRY_SIZE * i..ENTRY_SIZE * i + ENTRY_SIZE] ==
             rest[ENTRY_SIZE * (i - 1)..ENTRY_SIZE * (i - 1) + ENTRY_SIZE];
    }
  }

  /** The part of the table that one sector write saves. */
  function SavedTable(t: seq<FileEntry>): (s: seq<Byte>)
    requires EntriesSized(t) && |t| == SLOTS
    ensures |s| == SECTOR_SIZE
  {
    TableLength(t);
    TableBytes(t)[..SECTOR_SIZE]
  }

  /**
    The table `Init` sees: the saved sector, followed by the 192 bytes that happen to
    follow its 512-byte buffer in memory.
  */
  function ReadTable(sector: seq<Byte>, beyond: seq<Byte>): (t: seq<FileEntry>)
    requires |sector| == SECTOR_SIZE && |beyond| == ENTRY_SIZE * SLOTS - SECTOR_SIZE
    ensures |t| == SLOTS && EntriesSized(t)
  {
    seq(SLOTS, i requires 0 <= i < SLOTS => ParseEntry(sector + beyond, ENTRY_SIZE * i))
  }

  /** Saving and loading keeps exactly the first eleven entries, whatever follows the buffer. */
  lemma SavedEntries(t: seq<FileEntry>, beyond: seq<Byte>, i: nat)
    requires EntriesSized(t) && |t| == SLOTS && |beyond| == ENTRY_SIZE * SLOTS - SECTOR_SIZE
    requires i < SAVED_SLOTS
    ensures ReadTable(SavedTable(t), beyond)[i] == t[i]
  {
    TableLayout(t, i);
    var bytes := SavedTable(t) + beyond;
    assert bytes[ENTRY_SIZE * i..ENTRY_SIZE * i + ENTRY_SIZE] ==
           TableBytes(t)[ENTRY_SIZE * i..ENTRY_SIZE * i + ENTRY_SIZE];
    assert t[i] in t;
    ParseOne(bytes, ENTRY_SIZE * i, t[i]);
  }

  /** The flags of the other entries come from beyond the buffer. */
  lemma LostEntries(t: seq<FileEntry>, beyond: seq<Byte>, i: nat)
    requires EntriesSized(t) && |t| == SLOTS && |beyond| == ENTRY_SIZE * SLOTS - SECTOR_SIZE
    requires SAVED_SLOTS <= i < SLOTS && forall b :: b in beyond ==> b == 0
    ensures ReadTable(SavedTable(t), beyond)[i].flags == 0
  {
    var bytes := SavedTable(t) + beyond;
    var at := ENTRY_SIZE * i + 40;
    var k := at - SECTOR_SIZE;
    assert bytes[at..at + 4] == beyond[k..k + 4];
    assert beyond[k] in beyond && beyond[k + 1] in beyond && beyond[k + 2] in beyond && beyond[k + 3] in beyond;
    assert beyond[k..k + 4] == [0, 0, 0, 0] == Word32(0);
    ReadWord(bytes, at, 0);
  }

  // ----- Looking things up -----

  predicate Used(t: seq<FileEntry>, i: int)
    requires 0 <= i < |t|
  {
    t[i].flags == 1
  }

  predicate Hit(t: seq<FileEntry>, name: Name, i: int)
    requires 0 <= i < |t|
  {
    Used(t, i) && Matches(t[i].name, name)
  }

  function LookupFrom(t: seq<FileEntry>, name: Name, i: nat): (r: nat)
    requires i <= |t|
    ensures i <= r <= |t|
    ensures r < |t| ==> Hit(t, name, r)
    ensures forall j :: i <= j < r ==> !Hit(t, name, j)
    decreases |t| - i
  {
    if i == |t| || Hit(t, name, i) then i else LookupFrom(t, name, i + 1)
  }

  /** The first used entry with this name, or the length of the table. */
  function Lookup(t: seq<FileEntry>, name: Name): (r: nat)
    ensures r <= |t|
    ensures r < |t| ==> Hit(t, name, r)
    ensures forall j :: 0 <= j < r ==> !Hit(t, name, j)
  {
    LookupFrom(t, name, 0)
  }

  /** The first entry that is not in use, or the length of the table. */
  function FirstFree(t: seq<FileEntry>, i: nat): (r: nat)
    requires i <= |t|
    ensures i <= r <= |t|
    ensures r < |t| ==> t[r].flags == 0
    ensures forall j :: i <= j < r ==> t[j].flags != 0
    decreases |t| - i
  {
    if i == |t| || t[i].flags == 0 then i else FirstFree(t, i + 1)
  }

  /** The slot a write goes to, or 16 when the disk is full. */
  function SlotFor(t: seq<FileEntry>, name: Name): nat {
    if Lookup(t, name) < |t| then Lookup(t, name) else FirstFree(t, 0)
  }

  // ----- The operations -----

  /** `content` cut or zero-padded to a sector. */
  function Pad(content: seq<Byte>): (s: seq<Byte>)
    ensures |s| == SECTOR_SIZE
  {
    if |content| >= SECTOR_SIZE then content[..SECTOR_SIZE] else content + seq(SECTOR_SIZE - |content|, _ => 0)
  }

  function EmptyEntry(e: FileEntry, i: int): FileEntry
    requires 0 <= i < SLOTS
  {
    e.(name := seq(32, _ => 0), sector := FIRST_DATA_SECTOR + i, flags := 0)
  }

  /** What every operation finds: a table of 16 entries, and sectors of 512 bytes. */
  predicate Shaped(fs: Fs) {
    && |fs.table| == SLOTS && EntriesSized(fs.table)
    && |fs.disk| >= FIRST_DATA_SECTOR + SLOTS
    && (forall s :: s in fs.disk ==> |s| == SECTOR_SIZE)
    && (forall e :: e in fs.table ==> e.sector < |fs.disk|)
  }

  function Format(fs: Fs): Fs
    requires |fs.table| == SLOTS && |fs.disk| > TABLE_SECTOR
  {
    var t := seq(SLOTS, i requires 0 <= i < SLOTS => EmptyEntry(fs.table[i], i));
    assert EntriesSized(t);
    Fs(t, fs.disk[TABLE_SECTOR := SavedTable(t)])
  }

  /** The table with slot `i` in use under a name. */
  function Named(t: seq<FileEntry>, i: nat, name: Name): (t': seq<FileEntry>)
    requires EntriesSized(t) && i < |t|
    ensures |t'| == |t| && EntriesSized(t')
  {
    assert t[i] in t;
    t[i := t[i].(name := StrCpy(t[i].name, name), flags := 1)]
  }

  function Write(fs: Fs, name: Name, content: seq<Byte>): Fs
    requires Shaped(fs)
  {
    var slot := SlotFor(fs.table, name);
    if slot == SLOTS then fs
    else
      assert fs.table[slot] in fs.table;
      var t := Named(fs.table, slot, name);
      Fs(t, fs.disk[fs.table[slot].sector := Pad(content)][TABLE_SECTOR := SavedTable(t)])
  }

  function Delete(fs: Fs, name: Name): Fs
    requires Shaped(fs)
  {
    var i := Lookup(fs.table, name);
    if i == SLOTS then fs
    else
      var t := fs.table[i := fs.table[i].(flags := 0)];
      assert fs.table[i] in fs.table && EntriesSized(t);
      Fs(t, fs.disk[TABLE_SECTOR := SavedTable(t)])
  }

  /** The sector of the file, if there is one. */
  function Read(fs: Fs, name: Name): Option<seq<Byte>>
    requires Shaped(fs)
  {
    var i := Lookup(fs.table, name);
    if i == SLOTS then None
    else
      assert fs.table[i] in fs.table;
      Some(fs.disk[fs.table[i].sector])
  }

  /** `Init` takes such a table for random bytes. */
  predicate Garbage(t: seq<FileEntry>)
    requires |t| > 0
  {
    t[0].flags > 1 || t[0].sector > 100000
  }

  /** `Init`, with `beyond` the bytes that follow its buffer. */
  function Mount(fs: Fs, beyond: seq<Byte>): Fs
    requires Shaped(fs) && |beyond| == ENTRY_SIZE * SLOTS - SECTOR_SIZE
  {
    assert fs.disk[TABLE_SECTOR] in fs.disk;
    var t := ReadTable(fs.disk[TABLE_SECTOR], beyond);
    if Garbage(t) then Format(fs) else fs.(table := t)
  }
}
