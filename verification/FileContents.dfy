/** What the files of src/core/fs/sfs.cpp hold, and what its table looks like on the disk, byte by byte. */
module FileContents {
  import opened Machine32
  import opened Bytes
  import opened FileTable
  import opened FileTableLaws
  import opened MountedTables
  import opened SimpleFileSystem

  // ----- Contents -----

  /** The first 512 bytes of `x`, and zeros behind them. */
  predicate Holds(x: seq<Byte>, s: seq<Byte>) {
    |s| == 512 && forall k :: 0 <= k < 512 ==> s[k] == if k < |x| then x[k] else 0
  }

  lemma PadHolds(x: seq<Byte>)
    ensures Holds(x, Pad(x))
  {}

  /** A string of less than 512 bytes can be taken out again. */
  lemma HeldString(x: seq<Byte>, s: seq<Byte>)
    requires Holds(x, s) && 0 !in x && |x| < 512
    ensures CStr(s) == x
  {
    assert s == x + [0] + s[|x| + 1..];
    CStrStops(x, s[|x| + 1..]);
    CStrIsWhole(x);
  }

  /** What a name reads as is this content. */
  predicate ReadsAs(answer: Option<seq<Byte>>, x: seq<Byte>) {
    answer.Some? && Holds(x, answer.value) && (|x| < 512 && 0 !in x ==> CStr(answer.value) == x)
  }

  /** A write that finds a slot is read back, byte for byte. */
  lemma WriteReads(fs: Fs, name: Name, x: seq<Byte>)
    requires Inv(fs) && (name in Files(fs) || |Files(fs)| < SLOTS)
    ensures Inv(Write(fs, name, x)) && ReadsAs(Read(Write(fs, name, x), name), x)
  {
    WriteLaw(fs, name, x);
    ReadLaw(Write(fs, name, x), name);
    PadHolds(x);
    if |x| < 512 && 0 !in x {
      HeldString(x, Pad(x));
    }
  }

  // ----- Runs -----

  /** The contents as they were given. */
  function Given(m: map<seq<Byte>, seq<Byte>>, op: Op): map<seq<Byte>, seq<Byte>> {
    match op
    case WriteOp(name, content) => if name in m || |m| < SLOTS then m[name := content] else m
    case DeleteOp(name) => m - {name}
  }

  function GivenAll(m: map<seq<Byte>, seq<Byte>>, ops: seq<Op>): map<seq<Byte>, seq<Byte>>
    decreases |ops|
  {
    if ops == [] then m else GivenAll(Given(m, ops[0]), ops[1..])
  }

  /** The sectors hold the contents that were given. */
  ghost predicate AllHold(given: map<seq<Byte>, seq<Byte>>, m: map<seq<Byte>, seq<Byte>>) {
    given.Keys == m.Keys && forall s :: s in given ==> Holds(given[s], m[s])
  }

  lemma SameSize(given: map<seq<Byte>, seq<Byte>>, m: map<seq<Byte>, seq<Byte>>)
    requires given.Keys == m.Keys
    ensures |given| == |m|
  {
    assert |given| == |given.Keys| && |m| == |m.Keys|;
  }

  lemma {:induction false} RunHolds(given: map<seq<Byte>, seq<Byte>>, m: map<seq<Byte>, seq<Byte>>, ops: seq<Op>)
    requires AllHold(given, m)
    ensures AllHold(GivenAll(given, ops), MapRun(m, ops))
    decreases |ops|
  {
    if ops != [] {
      SameSize(given, m);
      if ops[0].WriteOp? {
        PadHolds(ops[0].content);
      }
      RunHolds(Given(given, ops[0]), MapStep(m, ops[0]), ops[1..]);
    }
  }

  /** A map's answer, as `ReadFile` gives it. */
  ghost predicate Answers(answer: Option<seq<Byte>>, given: map<seq<Byte>, seq<Byte>>, n: Name) {
    if n in given then ReadsAs(answer, given[n]) else answer == None
  }

  lemma HeldAnswers(given: map<seq<Byte>, seq<Byte>>, m: map<seq<Byte>, seq<Byte>>, n: Name)
    requires AllHold(given, m)
    ensures Answers(if n in m then Some(m[n]) else None, given, n)
  {
    if n in m && |given[n]| < 512 && 0 !in given[n] {
      HeldString(given[n], m[n]);
    }
  }

  /** From `Format` on, after every run, every name reads as the content last written to it, or is not there. */
  lemma RunReads(fs: Fs, ops: seq<Op>, n: Name)
    requires Shaped(fs)
    ensures Inv(Format(fs)) && Answers(Read(Run(Format(fs), ops), n), GivenAll(map[], ops), n)
  {
    FormatLaw(fs);
    RunIsMap(Format(fs), ops);
    ReadLaw(Run(Format(fs), ops), n);
    RunHolds(map[], map[], ops);
    HeldAnswers(GivenAll(map[], ops), MapRun(map[], ops), n);
  }

  // ----- Runs with remounts -----

  function GivenAfter(m: map<seq<Byte>, seq<Byte>>, e: Event): map<seq<Byte>, seq<Byte>> {
    match e
    case Do(WriteOp(name, content)) => m[name := content]
    case Do(DeleteOp(name)) => m - {name}
    case Remount(_) => m
  }

  function GivenAfterAll(m: map<seq<Byte>, seq<Byte>>, events: seq<Event>): map<seq<Byte>, seq<Byte>>
    decreases |events|
  {
    if events == [] then m else GivenAfterAll(GivenAfter(m, events[0]), events[1..])
  }

  lemma {:induction false} EventsHold(given: map<seq<Byte>, seq<Byte>>, m: map<seq<Byte>, seq<Byte>>, events: seq<Event>)
    requires AllHold(given, m)
    ensures AllHold(GivenAfterAll(given, events), MapAfterAll(m, events))
    decreases |events|
  {
    if events != [] {
      if events[0].Do? && events[0].op.WriteOp? {
        PadHolds(events[0].op.content);
      }
      EventsHold(GivenAfter(given, events[0]), MapAfter(m, events[0]), events[1..]);
    }
  }

  /** The same with any number of remounts, under the conditions of `RemountsKeepMap`. */
  lemma RemountsRead(fs: Fs, events: seq<Event>, names: set<seq<Byte>>, n: Name)
    requires Shaped(fs) && n in names
    requires Shaped(Format(fs)) && Calm(Format(fs), events, names) && AtMostEleven(map[], events)
    ensures var fs' := AfterAll(Format(fs), events, names);
            Shaped(fs') && Answers(Read(fs', n), GivenAfterAll(map[], events), n)
  {
    FormatLaw(fs);
    assert forall i :: 0 <= i < SLOTS ==> !Used(Format(fs).table, i);
    RemountsKeepMap(Format(fs), events, names, n);
    EventsHold(map[], map[], events);
    HeldAnswers(GivenAfterAll(map[], events), MapAfterAll(map[], events), n);
  }

  // ----- The calls -----

  lemma OutIs(out: seq<Byte>, s: seq<Byte>, rest: seq<Byte>, x: seq<Byte>)
    requires ReadsAs(Some(s), x) && 0 !in x && out == s + rest
    ensures forall k :: 0 <= k < 512 ==> out[k] == if k < |x| then x[k] else 0
    ensures |x| < 512 ==> CStr(out) == x
  {
    if |x| < 512 {
      assert out == x + [0] + out[|x| + 1..];
      CStrStops(x, out[|x| + 1..]);
      CStrIsWhole(x);
    }
  }

  /** `WriteFile` and then `ReadFile`. */
  method WriteAndRead(sfs: SimpleFileSystem, name: Name, content: seq<Byte>, out: array<Byte>)
    requires Inv(sfs.State()) && 0 !in content && (name in Files(sfs.State()) || |Files(sfs.State())| < SLOTS)
    requires out.Length >= 512
    modifies sfs.table, sfs.disk, out
    ensures forall k :: 0 <= k < 512 ==> out[k] == if k < |content| then content[k] else 0
    ensures |content| < 512 ==> CStr(out[..]) == content
  {
    WriteReads(sfs.State(), name, content);
    sfs.WriteFile(name, content);
    ghost var answer, rest := Read(sfs.State(), name), out[SECTOR_SIZE..];
    sfs.ReadFile(name, out);
    OutIs(out[..], answer.value, rest, content);
  }

  /** A written file in one of the first eleven slots, after `Init`. */
  lemma WriteMountReads(fs: Fs, name: Name, x: seq<Byte>, beyond: seq<Byte>)
    requires Inv(fs) && SlotFor(fs.table, name) < SAVED_SLOTS && |beyond| == ENTRY_SIZE * SLOTS - SECTOR_SIZE
    requires Shaped(Write(fs, name, x)) && Shaped(Mount(Write(fs, name, x), beyond))
    ensures ReadsAs(Read(Mount(Write(fs, name, x), beyond), name), x)
  {
    LiveIff(fs, name);
    RoomIff(fs);
    WriteReads(fs, name, x);
    StoreLookup(fs, name, x, name);
    ReadLaw(Write(fs, name, x), name);
    LowFileSurvives(Write(fs, name, x), beyond, name);
  }

  /** `WriteFile`, then `Init`, then `ReadFile`: for a file in one of the slots that are saved, whatever follows the buffer. */
  method WriteMountAndRead(sfs: SimpleFileSystem, name: Name, content: seq<Byte>, beyond: seq<Byte>, out: array<Byte>)
    requires Inv(sfs.State()) && 0 !in content && SlotFor(sfs.table[..], name) < SAVED_SLOTS
    requires |beyond| == ENTRY_SIZE * SLOTS - SECTOR_SIZE && out.Length >= 512
    requires Shaped(Write(sfs.State(), name, content)) && Shaped(Mount(Write(sfs.State(), name, content), beyond))
    modifies sfs.table, sfs.disk, out
    ensures forall k :: 0 <= k < 512 ==> out[k] == if k < |content| then content[k] else 0
    ensures |content| < 512 ==> CStr(out[..]) == content
  {
    WriteMountReads(sfs.State(), name, content, beyond);
    sfs.WriteFile(name, content);
    sfs.Init(beyond);
    ghost var answer, rest := Read(sfs.State(), name), out[SECTOR_SIZE..];
    sfs.ReadFile(name, out);
    OutIs(out[..], answer.value, rest, content);
  }

  // ----- The table's sector -----

  /** The four bytes of `w` from position `at` on, the lowest first. */
  predicate WordAt(s: seq<Byte>, at: nat, w: Word) {
    && at + 4 <= |s|
    && s[at] == w % 256 && s[at + 1] == w / 256 % 256 && s[at + 2] == w / 65536 % 256 && s[at + 3] == w / 16777216
  }

  /** An entry is its name's 32 bytes, the sector, the size and the flags. */
  predicate EntryAt(s: seq<Byte>, at: nat, e: FileEntry) {
    && at + 44 <= |s| && |e.name| == 32 && s[at..at + 32] == e.name
    && WordAt(s, at + 32, e.sector) && WordAt(s, at + 36, e.size) && WordAt(s, at + 40, e.flags)
  }

  lemma Quotients(w: Word)
    ensures w / 65536 == w / 256 / 256 && w / 16777216 == w / 256 / 256 / 256
  {}

  lemma WordStands(s: seq<Byte>, at: nat, w: Word)
    requires at + 4 <= |s| && s[at..at + 4] == Word32(w)
    ensures WordAt(s, at, w)
  {
    var t := s[at..at + 4];
    assert s[at] == t[0] && s[at + 1] == t[1] && s[at + 2] == t[2] && s[at + 3] == t[3];
    Quotients(w);
  }

  lemma EntryStands(s: seq<Byte>, at: nat, e: FileEntry)
    requires at + 44 <= |s| && |e.name| == 32 && s[at..at + 44] == EntryBytes(e)
    ensures EntryAt(s, at, e)
  {
    var t := EntryBytes(e);
    assert t[0..32] == e.name && t[32..36] == Word32(e.sector) && t[36..40] == Word32(e.size) && t[40..44] == Word32(e.flags);
    SliceOfSlice(s, at, at + 44, 0, 32);
    SliceOfSlice(s, at, at + 44, 32, 36);
    SliceOfSlice(s, at, at + 44, 36, 40);
    SliceOfSlice(s, at, at + 44, 40, 44);
    WordStands(s, at + 32, e.sector);
    WordStands(s, at + 36, e.size);
    WordStands(s, at + 40, e.flags);
  }

  /** From `Format` on, the table's sector holds the first eleven entries, 44 bytes each. */
  lemma TableOnDisk(fs: Fs, i: nat)
    requires Inv(fs) && i < 11
    ensures EntryAt(fs.disk[1], 44 * i, fs.table[i])
  {
    var t := fs.table;
    TableLayout(t, i);
    assert t[i] in t;
    assert SavedTable(t)[44 * i..44 * i + 44] == TableBytes(t)[44 * i..44 * i + 44];
    EntryStands(fs.disk[1], 44 * i, t[i]);
  }

  lemma WordReads(s: seq<Byte>, beyond: seq<Byte>, at: nat, w: Word)
    requires WordAt(s, at, w)
    ensures Read32(s + beyond, at) == w
  {
    Quotients(w);
    ReadBack(s + beyond, at, w);
  }

  /** A formatted table: empty names, sectors 10 to 25, and no file in use. */
  lemma FormattedTable(fs: Fs, i: nat)
    requires Shaped(fs) && i < 16
    ensures var e := Format(fs).table[i]; e.name == seq(32, _ => 0) && e.sector == 10 + i && e.flags == 0
    ensures forall k :: 0 <= k < |fs.disk| && k != 1 ==> Format(fs).disk[k] == fs.disk[k]
    ensures i < 11 ==> EntryAt(Format(fs).disk[1], 44 * i, Format(fs).table[i])
  {
    FormatLaw(fs);
    if i < 11 {
      TableOnDisk(Format(fs), i);
    }
  }

  /** A sector is taken for random bytes by the flags and the sector number of its first entry. */
  lemma GarbageIs(fs: Fs, beyond: seq<Byte>, sector: Word, flags: Word)
    requires Shaped(fs) && |beyond| == ENTRY_SIZE * SLOTS - SECTOR_SIZE
    requires WordAt(fs.disk[1], 32, sector) && WordAt(fs.disk[1], 40, flags)
    ensures Garbage(Stored(fs, beyond)) <==> flags > 1 || sector > 100000
  {
    assert fs.disk[1] in fs.disk;
    WordReads(fs.disk[1], beyond, 32, sector);
    WordReads(fs.disk[1], beyond, 40, flags);
  }
}
