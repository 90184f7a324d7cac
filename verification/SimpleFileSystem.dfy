/** src/core/fs/sfs.cpp: the cached table and the disk, changed in place. */
module SimpleFileSystem {
  import opened Machine32
  import opened Bytes
  import opened FileTable

  lemma MismatchAt(field: seq<Byte>, name: Name, i: nat)
    requires i < |name| < |field| && field[i] != name[i]
    ensures !Matches(field, name)
  {
    assert field[..|name|][i] != name[i];
  }

  /** `sfs_strcmp` of a 32-byte name field against a NUL-terminated name. */
  method StrEqual(field: seq<Byte>, name: Name) returns (equal: bool)
    requires |field| == 32
    ensures equal == Matches(field, name)
  {
    var b := name + [0];
    var i := 0;
    while field[i] != 0 && b[i] != 0
      invariant 0 <= i <= |name| && field[..i] == name[..i] && 0 !in field[..i]
      decreases |name| - i
    {
      if field[i] != b[i] {
        MismatchAt(field, name, i);
        return false;
      }
      assert name[..i + 1] == name[..i] + [b[i]] && field[..i + 1] == field[..i] + [field[i]];
      i := i + 1;
    }
    equal := field[i] == b[i];
    if i < |name| {
      assert name[i] in name;
      MismatchAt(field, name, i);
    }
  }

  /** `sfs_strcpy` into a name field. */
  method StrCopy(field: array<Byte>, name: Name)
    requires field.Length == 32
    modifies field
    ensures field[..] == StrCpy(old(field[..]), name)
  {
    var src := name + [0];
    assert forall k :: 0 <= k < |name| ==> src[k] in name;
    var i := 0;
    while src[i] != 0
      invariant 0 <= i <= |name|
      invariant field[..i] == name[..i] && field[i..] == old(field[i..])
      decreases |name| - i
    {
      field[i] := src[i];
      i := i + 1;
    }
    field[i] := 0;
    assert field[..] == name + [0] + old(field[..])[|name| + 1..];
  }

  class SimpleFileSystem {
    const table: array<FileEntry>
    const disk: array<seq<Byte>>  // one element for each sector

    ghost function State(): Fs
      reads this, table, disk
    {
      Fs(table[..], disk[..])
    }

    constructor (table: array<FileEntry>, disk: array<seq<Byte>>)
      ensures this.table == table && this.disk == disk
    {
      this.table, this.disk := table, disk;
    }

    /** What one sector write of the table puts on disk. */
    method SaveTable()
      requires table.Length == SLOTS && EntriesSized(table[..]) && disk.Length > TABLE_SECTOR
      modifies disk
      ensures disk[..] == old(disk[..])[TABLE_SECTOR := SavedTable(table[..])]
    {
      disk[TABLE_SECTOR] := SavedTable(table[..]);
    }

    /** Format the disk: an empty table with one sector for each slot. */
    method FormatDisk()
      requires table.Length == SLOTS && disk.Length > TABLE_SECTOR
      modifies table, disk
      ensures State() == Format(old(State()))
    {
      var i := 0;
      while i < 16
        invariant 0 <= i <= 16
        invariant disk[..] == old(disk[..])
        invariant forall k :: 0 <= k < i ==> table[k] == EmptyEntry(old(table[k]), k)
        invariant forall k :: i <= k < 16 ==> table[k] == old(table[k])
      {
        table[i] := table[i].(flags := 0);
        table[i] := table[i].(sector := FIRST_DATA_SECTOR + i);
        table[i] := table[i].(name := seq(32, _ => 0));
        i := i + 1;
      }
      assert table[..] == Format(old(State())).table;
      SaveTable();
    }

    /** Copy a table to the cache. */
    method Load(entries: seq<FileEntry>)
      requires |entries| == table.Length == 16
      modifies table
      ensures table[..] == entries
    {
      var i := 0;
      while i < 16
        invariant 0 <= i <= 16
        invariant forall k :: 0 <= k < i ==> table[k] == entries[k]
      {
        table[i] := entries[i];
        i := i + 1;
      }
      assert table[..] == entries;
    }

    /** Mount; `beyond` is what lies behind the 512-byte buffer, which the copy loop reads past. */
    method Init(beyond: seq<Byte>)
      requires Shaped(State()) && |beyond| == ENTRY_SIZE * SLOTS - SECTOR_SIZE
      modifies table, disk
      ensures State() == Mount(old(State()), beyond)
    {
      assert disk[TABLE_SECTOR] in disk[..];
      var entries := ReadTable(disk[TABLE_SECTOR], beyond);
      if entries[0].flags > 1 || entries[0].sector > 100000 {
        FormatDisk();
        return;
      }
      Load(entries);
    }

    /** The first used entry with this name, or -1. */
    method FindEntry(name: Name) returns (slot: int)
      requires table.Length == SLOTS && EntriesSized(table[..])
      ensures slot == if Lookup(table[..], name) < SLOTS then Lookup(table[..], name) else -1
    {
      var i := 0;
      while i < 16
        invariant 0 <= i <= 16
        invariant forall j :: 0 <= j < i ==> !Hit(table[..], name, j)
      {
        assert table[i] in table[..];
        if table[i].flags == 1 {
          var equal := StrEqual(table[i].name, name);
          if equal {
            assert Hit(table[..], name, i);
            return i;
          }
        }
        i := i + 1;
      }
      slot := -1;
    }

    /** Put the name into the slot and mark it used. */
    method Rename(slot: nat, name: Name)
      requires Shaped(State()) && slot < SLOTS
      modifies table
      ensures table[..] == Named(old(table[..]), slot, name)
      ensures Shaped(State())
    {
      ghost var t := table[..];
      assert t[slot] in t;
      var before := table[slot].name;
      assert |before| == 32;
      var field := new Byte[32](k requires 0 <= k < 32 => before[k]);
      assert field[..] == before;
      StrCopy(field, name);
      table[slot] := table[slot].(name := field[..]);
      table[slot] := table[slot].(flags := 1);
      assert forall e :: e in table[..] ==> e in t || e == table[slot];
    }

    /** Clear the buffer, then copy up to 512 bytes of the string. */
    static method FillSector(buffer: array<Byte>, content: seq<Byte>)
      requires buffer.Length == SECTOR_SIZE && 0 !in content
      modifies buffer
      ensures buffer[..] == Pad(content)
    {
      var i := 0;
      while i < 512
        invariant 0 <= i <= 512 && forall k :: 0 <= k < i ==> buffer[k] == 0
      {
        buffer[i] := 0;
        i := i + 1;
      }
      var src := content + [0];
      i := 0;
      while src[i] != 0 && i < 512
        invariant 0 <= i <= |content| && i <= 512
        invariant buffer[..i] == content[..i] && forall k :: i <= k < 512 ==> buffer[k] == 0
        decreases |content| - i
      {
        buffer[i] := src[i];
        i := i + 1;
      }
      assert i < |content| ==> src[i] in content;
    }

    /** Update the entry, write the content to its sector, and save the table. */
    method Store(slot: nat, name: Name, content: seq<Byte>)
      requires Shaped(State()) && slot < SLOTS && 0 !in content
      modifies table, disk
      ensures table[..] == Named(old(table[..]), slot, name)
      ensures old(table[slot].sector) < disk.Length
      ensures disk[..] == old(disk[..])[old(table[slot].sector) := Pad(content)][TABLE_SECTOR := SavedTable(table[..])]
    {
      assert table[slot] in table[..];
      Rename(slot, name);
      var buffer := new Byte[512];
      FillSector(buffer, content);
      assert table[slot].sector < disk.Length;
      disk[table[slot].sector] := buffer[..];
      SaveTable();
    }

    /** The first entry that is not in use, or -1. */
    method FindFree() returns (slot: int)
      requires table.Length == SLOTS
      ensures slot == if FirstFree(table[..], 0) < SLOTS then FirstFree(table[..], 0) else -1
    {
      slot := -1;
      var i := 0;
      while i < 16 && slot == -1
        invariant 0 <= i <= 16
        invariant slot == -1 ==> forall j :: 0 <= j < i ==> table[j].flags != 0
        invariant slot != -1 ==> slot == FirstFree(table[..], 0) < 16
      {
        if table[i].flags == 0 {
          slot := i;
        }
        i := i + 1;
      }
    }

    method WriteFile(name: Name, content: seq<Byte>)
      requires Shaped(State()) && 0 !in content  // up to the NUL that ends it
      modifies table, disk
      ensures State() == Write(old(State()), name, content)
    {
      var slot := FindEntry(name);
      if slot == -1 {
        slot := FindFree();
      }
      if slot == -1 {
        return;  // "Disk Full!"
      }
      assert slot == SlotFor(table[..], name);
      Store(slot, name, content);
    }

    /** The file's sector is copied to `out`; for a missing file only `out[0]` is cleared. */
    method ReadFile(name: Name, out: array<Byte>)
      requires Shaped(State()) && out.Length >= SECTOR_SIZE
      modifies out
      ensures match Read(old(State()), name)
              case Some(s) => out[..] == s + old(out[SECTOR_SIZE..])
              case None => out[..] == [0] + old(out[1..])
    {
      var i := FindEntry(name);
      if i == -1 {
        out[0] := 0;
        return;
      }
      assert table[i] in table[..];
      var buffer := disk[table[i].sector];
      assert buffer in disk[..];
      var b := 0;
      while b < 512
        invariant 0 <= b <= 512
        invariant out[..b] == buffer[..b] && out[b..] == old(out[b..])
      {
        out[b] := buffer[b];
        b := b + 1;
      }
    }

    method DeleteFile(name: Name)
      requires Shaped(State())
      modifies table, disk
      ensures State() == Delete(old(State()), name)
    {
      var i := FindEntry(name);
      if i == -1 {
        return;  // "File not found."
      }
      ghost var t := table[..];
      assert t[i] in t;
      table[i] := table[i].(flags := 0);
      assert table[..] == t[i := t[i].(flags := 0)];
      SaveTable();
    }
  }
}
