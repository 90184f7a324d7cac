/**
  The two-level page tables of src/core/paging.cpp, kept in the very memory they
  translate.  Physical memory is a sequence of 32-bit words; word k holds bytes
  4k .. 4k+3, so page frame number f owns words 1024*f .. 1024*f + 1023.
*/
module PageWalk {
  import opened Machine32

  const LOW_MEMORY := 0x800_0000  // 128 MB

  /** A 20-bit page frame number. */
  type PageFrame = f: int | 0 <= f < 0x10_0000

  /** The page frame number in a page address or a paging-structure entry. */
  function FrameNumber(w: Word): PageFrame {
    w / PAGE_SIZE
  }

  lemma InFrame(f: int, r: int)
    requires 0 <= f && 0 <= r < PAGE_SIZE
    ensures (f * PAGE_SIZE + r) / PAGE_SIZE == f && (f * PAGE_SIZE + r) % PAGE_SIZE == r
  {}

  lemma EightTimes(k: int)
    ensures 8 * k % 8 == 0
  {}

  lemma TwoTimes(k: int)
    ensures (2 * k + 1) % 2 == 1
  {}

  /** `f << 12 | 7` is a present entry for frame `f`. */
  lemma EntryForFrame(f: PageFrame)
    ensures f * PAGE_SIZE < TWO_32 && f * PAGE_SIZE % PAGE_SIZE == 0
    ensures FrameNumber(f * PAGE_SIZE) == f && FrameBase(f * PAGE_SIZE) == f * PAGE_SIZE
    ensures WithFlags(f * PAGE_SIZE) == f * PAGE_SIZE + 7
    ensures Present(WithFlags(f * PAGE_SIZE)) && FrameNumber(WithFlags(f * PAGE_SIZE)) == f
  {
    InFrame(f, 0);
    InFrame(f, 7);
    EightTimes(f * 512);
    TwoTimes(f * 2048 + 3);
  }

  function DirectoryIndex(v: Word): (i: int)
    ensures 0 <= i < 1024
  {
    v / 0x40_0000
  }

  function TableIndex(v: Word): (i: int)
    ensures 0 <= i < 1024
  {
    v / PAGE_SIZE % 1024
  }

  /** Two addresses lie on one page exactly when both of their indices agree. */
  lemma SamePage(v: Word, w: Word)
    ensures FrameNumber(v) == FrameNumber(w) <==>
            DirectoryIndex(v) == DirectoryIndex(w) && TableIndex(v) == TableIndex(w)
  {
    assert forall a: Word :: DirectoryIndex(a) == FrameNumber(a) / 1024;
  }

  /** Word `k` of page frame `f`. */
  function Entry(m: seq<Word>, f: int, k: int): Word
    requires 0 <= k < 1024 && 0 <= f && (f + 1) * 1024 <= |m|
  {
    m[f * 1024 + k]
  }

  /** Entry `i` of the directory in frame `dir`. */
  function DirectoryEntry(m: seq<Word>, dir: int, i: int): Word
    requires 0 <= i < 1024 && 0 <= dir && (dir + 1) * 1024 <= |m|
  {
    Entry(m, dir, i)
  }

  predicate Linked(m: seq<Word>, dir: int, i: int)
    requires 0 <= i < 1024 && 0 <= dir && (dir + 1) * 1024 <= |m|
  {
    Present(DirectoryEntry(m, dir, i))
  }

  /** The frame number of the table that directory entry `i` points at. */
  function TableOf(m: seq<Word>, dir: int, i: int): PageFrame
    requires 0 <= i < 1024 && 0 <= dir && (dir + 1) * 1024 <= |m|
  {
    FrameNumber(DirectoryEntry(m, dir, i))
  }

  /** The page frame reached through directory entry `i` and table entry `k`, if any. */
  function Walk(m: seq<Word>, dir: int, i: int, k: int): Option<PageFrame>
    requires 0 <= i < 1024 && 0 <= k < 1024 && 0 <= dir
  {
    if (dir + 1) * 1024 > |m| || !Linked(m, dir, i) then None
    else
      var t := TableOf(m, dir, i);
      if (t + 1) * 1024 > |m| || !Present(Entry(m, t, k)) then None
      else Some(FrameNumber(Entry(m, t, k)))
  }

  /**
    The hardware walk for 4-KByte pages, section 4.3 of the Intel SDM, volume 3A:
    `None` is a page fault (or a paging structure outside the installed memory).
  */
  function Translate(m: seq<Word>, cr3: Word, v: Word): Option<Word> {
    match Walk(m, FrameNumber(cr3), DirectoryIndex(v), TableIndex(v))
    case None => None
    case Some(f) => Some(f * PAGE_SIZE + v % PAGE_SIZE)
  }

  /** Directory entries other than number `i` are the same in `m'` as in `m`. */
  ghost predicate OtherEntriesKept(m: seq<Word>, m': seq<Word>, dir: int, i: int)
    requires 0 <= dir && (dir + 1) * 1024 <= |m|
  {
    |m'| == |m| && forall j :: 0 <= j < 1024 && j != i ==> DirectoryEntry(m', dir, j) == DirectoryEntry(m, dir, j)
  }

  /**
    What makes it sound to keep the tables in ordinary memory: the directory and the
    linked tables are distinct page frames, all of them in the part [lo, top) of the
    kernel heap that has been handed out.
  */
  ghost predicate Wf(m: seq<Word>, dir: int, lo: int, top: int) {
    && 0 <= lo <= dir < top && top * 1024 <= |m|
    && (forall i :: 0 <= i < 1024 && Linked(m, dir, i) ==> lo <= TableOf(m, dir, i) < top && TableOf(m, dir, i) != dir)
    && (forall i, j :: 0 <= i < j < 1024 && Linked(m, dir, i) && Linked(m, dir, j) ==>
          TableOf(m, dir, i) != TableOf(m, dir, j))
  }

  /** The walk through `m'` is the walk through `m` except that (i, k) now reaches frame `f`. */
  ghost predicate RemapsWalk(m: seq<Word>, m': seq<Word>, dir: nat, i: int, k: int, f: PageFrame) {
    forall d, t :: 0 <= d < 1024 && 0 <= t < 1024 ==>
      Walk(m', dir, d, t) == if d == i && t == k then Some(f) else Walk(m, dir, d, t)
  }

  ghost predicate SameWalk(m: seq<Word>, m': seq<Word>, dir: nat) {
    forall d, t :: 0 <= d < 1024 && 0 <= t < 1024 ==> Walk(m', dir, d, t) == Walk(m, dir, d, t)
  }

  /** `m'` translates like `m` except that the page of `virt` now maps to the page of `phys`. */
  ghost predicate Remaps(m: seq<Word>, m': seq<Word>, cr3: Word, virt: Word, phys: Word) {
    forall v: Word :: Translate(m', cr3, v) ==
      if FrameNumber(v) == FrameNumber(virt) then Some(FrameBase(phys) + v % PAGE_SIZE)
      else Translate(m, cr3, v)
  }

  ghost predicate SameTranslation(m: seq<Word>, m': seq<Word>, cr3: Word) {
    forall v: Word :: Translate(m', cr3, v) == Translate(m, cr3, v)
  }

  /** Every address in [lo, hi) is mapped to itself. */
  ghost predicate IdentityOn(m: seq<Word>, cr3: Word, lo: int, hi: int) {
    forall v: Word :: lo <= v < hi ==> Translate(m, cr3, v) == Some(v)
  }

  lemma IdentityKept(m: seq<Word>, m': seq<Word>, cr3: Word, lo: int, hi: int)
    requires IdentityOn(m, cr3, lo, hi) && SameTranslation(m, m', cr3)
    ensures IdentityOn(m', cr3, lo, hi)
  {}

  lemma SameWalkTranslates(m: seq<Word>, m': seq<Word>, cr3: Word)
    requires SameWalk(m, m', FrameNumber(cr3))
    ensures SameTranslation(m, m', cr3)
  {}

  lemma FrameStart(w: Word)
    ensures FrameNumber(w) * PAGE_SIZE == FrameBase(w)
  {}

  lemma RemapsAt(m: seq<Word>, m': seq<Word>, cr3: Word, virt: Word, phys: Word, v: Word)
    requires RemapsWalk(m, m', FrameNumber(cr3), DirectoryIndex(virt), TableIndex(virt), FrameNumber(phys))
    ensures Translate(m', cr3, v) ==
            if FrameNumber(v) == FrameNumber(virt) then Some(FrameBase(phys) + v % PAGE_SIZE)
            else Translate(m, cr3, v)
  {
    SamePage(v, virt);
    FrameStart(phys);
  }

  lemma RemapsWalkTranslates(m: seq<Word>, m': seq<Word>, cr3: Word, virt: Word, phys: Word)
    requires RemapsWalk(m, m', FrameNumber(cr3), DirectoryIndex(virt), TableIndex(virt), FrameNumber(phys))
    ensures Remaps(m, m', cr3, virt, phys)
  {
    forall v: Word
      ensures Translate(m', cr3, v) ==
              if FrameNumber(v) == FrameNumber(virt) then Some(FrameBase(phys) + v % PAGE_SIZE)
              else Translate(m, cr3, v)
    {
      RemapsAt(m, m', cr3, virt, phys, v);
    }
  }

  /** The page frame `f` is the only place where `m'` may differ from `m`. */
  ghost predicate DiffersOnlyIn(m: seq<Word>, m': seq<Word>, f: int) {
    && |m'| == |m|
    && forall k :: 0 <= k < |m| && !(f * 1024 <= k < (f + 1) * 1024) ==> m'[k] == m[k]
  }

  /** What one store into frame `f` does. */
  lemma WriteEntry(m: seq<Word>, m': seq<Word>, f: int, k: int, w: Word)
    requires 0 <= k < 1024 && 0 <= f && (f + 1) * 1024 <= |m|
    requires m' == m[f * 1024 + k := w]
    ensures DiffersOnlyIn(m, m', f)
    ensures forall j :: 0 <= j < 1024 ==> Entry(m', f, j) == if j == k then w else Entry(m, f, j)
  {}

  /** A frame that `DiffersOnlyIn` does not name keeps its entries. */
  lemma OtherFrame(m: seq<Word>, m': seq<Word>, f: int, g: int)
    requires DiffersOnlyIn(m, m', f) && f != g && 0 <= g && (g + 1) * 1024 <= |m|
    ensures forall k :: 0 <= k < 1024 ==> Entry(m', g, k) == Entry(m, g, k)
  {
    if f < g {
      assert (f + 1) * 1024 <= g * 1024;
    } else {
      assert (g + 1) * 1024 <= f * 1024;
    }
  }

  /** The directory's own entries decide whether the tables are well formed. */
  lemma SameDirectory(m: seq<Word>, m': seq<Word>, dir: int, lo: int, top: int)
    requires Wf(m, dir, lo, top) && |m'| == |m|
    requires forall i :: 0 <= i < 1024 ==> Entry(m', dir, i) == Entry(m, dir, i)
    ensures Wf(m', dir, lo, top)
    ensures forall i :: 0 <= i < 1024 ==> Linked(m', dir, i) == Linked(m, dir, i)
    ensures forall i :: 0 <= i < 1024 ==> TableOf(m', dir, i) == TableOf(m, dir, i)
  {
    forall i | 0 <= i < 1024
      ensures Linked(m', dir, i) == Linked(m, dir, i) && TableOf(m', dir, i) == TableOf(m, dir, i)
    {
      assert Entry(m', dir, i) == Entry(m, dir, i);
    }
  }

  lemma SetEntryWalk(m: seq<Word>, m': seq<Word>, dir: int, lo: int, top: int, i: int, k: int, w: Word, d: int, j: int)
    requires 0 <= i < 1024 && 0 <= k < 1024 && 0 <= d < 1024 && 0 <= j < 1024
    requires Wf(m, dir, lo, top) && Linked(m, dir, i) && Present(w)
    requires m' == m[TableOf(m, dir, i) * 1024 + k := w]
    requires Linked(m', dir, d) == Linked(m, dir, d) && TableOf(m', dir, d) == TableOf(m, dir, d)
    ensures Walk(m', dir, d, j) == if d == i && j == k then Some(FrameNumber(w)) else Walk(m, dir, d, j)
  {
    if Linked(m, dir, d) {
      var t := TableOf(m, dir, d);
      if d != i {
        assert t != TableOf(m, dir, i);
        OtherFrame(m, m', TableOf(m, dir, i), t);
      }
      assert Entry(m', t, j) == if d == i && j == k then w else Entry(m, t, j);
    }
  }

  /** Writing one entry of a linked table is exactly a one-page remapping. */
  lemma SetEntry(m: seq<Word>, m': seq<Word>, dir: int, lo: int, top: int, i: int, k: int, w: Word)
    requires 0 <= i < 1024 && 0 <= k < 1024
    requires Wf(m, dir, lo, top) && Linked(m, dir, i) && Present(w)
    requires m' == m[TableOf(m, dir, i) * 1024 + k := w]
    ensures Wf(m', dir, lo, top)
    ensures OtherEntriesKept(m, m', dir, i) && Linked(m', dir, i)
    ensures RemapsWalk(m, m', dir, i, k, FrameNumber(w))
  {
    var t := TableOf(m, dir, i);
    OtherFrame(m, m', t, dir);
    SameDirectory(m, m', dir, lo, top);
    forall d, j | 0 <= d < 1024 && 0 <= j < 1024
      ensures Walk(m', dir, d, j) == if d == i && j == k then Some(FrameNumber(w)) else Walk(m, dir, d, j)
    {
      SetEntryWalk(m, m', dir, lo, top, i, k, w, d, j);
    }
  }

  lemma FrameBelow(m: seq<Word>, m': seq<Word>, f: int, top: int)
    requires 0 <= f < top && top * 1024 <= |m| == |m'| && forall k :: 0 <= k < top * 1024 ==> m'[k] == m[k]
    ensures forall k :: 0 <= k < 1024 ==> Entry(m', f, k) == Entry(m, f, k)
  {
    assert (f + 1) * 1024 <= top * 1024;
  }

  /** Writes from the frame `top` upwards are invisible to the walk. */
  lemma ScribbleFree(m: seq<Word>, m': seq<Word>, dir: int, lo: int, top: int)
    requires Wf(m, dir, lo, top)
    requires |m'| == |m| && forall k :: 0 <= k < top * 1024 ==> m'[k] == m[k]
    ensures Wf(m', dir, lo, top)
    ensures SameWalk(m, m', dir)
    ensures forall d :: 0 <= d < 1024 ==> DirectoryEntry(m', dir, d) == DirectoryEntry(m, dir, d)
  {
    FrameBelow(m, m', dir, top);
    SameDirectory(m, m', dir, lo, top);
    forall d, j | 0 <= d < 1024 && 0 <= j < 1024 ensures Walk(m', dir, d, j) == Walk(m, dir, d, j) {
      if Linked(m, dir, d) {
        FrameBelow(m, m', TableOf(m, dir, d), top);
      }
    }
  }

  /** The 1024 words from `b` on are absent entries. */
  function Cleared(m: seq<Word>, b: int): (r: seq<Word>)
    requires 0 <= b && b + 1024 <= |m|
    ensures |r| == |m| && forall k :: 0 <= k < |m| ==> r[k] == if b <= k < b + 1024 then 2 else m[k]
  {
    m[..b] + seq(1024, _ => 2) + m[b + 1024..]
  }

  /** Entry `j` of the frame that starts at or before the block `b` is left over from before the block. */
  ghost predicate LeftOver(m: seq<Word>, top: int, b: int, j: int) {
    0 <= top && 0 <= j < 1024 && (top + 1) * 1024 <= |m| && top * 1024 + j < b && Present(Entry(m, top, j))
  }

  /** Linking the frame `top` gives entry `i` that frame's entries and changes no other walk. */
  lemma LinkTop(m: seq<Word>, m': seq<Word>, dir: int, lo: int, top: int, i: int, w: Word)
    requires 0 <= i < 1024
    requires Wf(m, dir, lo, top) && !Linked(m, dir, i)
    requires (top + 1) * 1024 <= |m| && Present(w) && FrameNumber(w) == top
    requires m' == m[dir * 1024 + i := w]
    ensures Wf(m', dir, lo, top + 1) && Linked(m', dir, i)
    ensures OtherEntriesKept(m, m', dir, i)
    ensures forall d, j :: 0 <= d < 1024 && 0 <= j < 1024 ==>
              Walk(m', dir, d, j) ==
              if d != i then Walk(m, dir, d, j)
              else if Present(Entry(m, top, j)) then Some(FrameNumber(Entry(m, top, j))) else None
  {
    assert DirectoryEntry(m', dir, i) == w;
    forall d | 0 <= d < 1024 && d != i
      ensures Linked(m', dir, d) == Linked(m, dir, d) && TableOf(m', dir, d) == TableOf(m, dir, d)
    {
      assert DirectoryEntry(m', dir, d) == DirectoryEntry(m, dir, d);
    }
    forall d, j | 0 <= d < 1024 && 0 <= j < 1024
      ensures Walk(m', dir, d, j) ==
              if d != i then Walk(m, dir, d, j)
              else if Present(Entry(m, top, j)) then Some(FrameNumber(Entry(m, top, j))) else None
    {
      if d == i {
        OtherFrame(m, m', dir, top);
      } else if Linked(m, dir, d) {
        OtherFrame(m, m', dir, TableOf(m, dir, d));
      }
    }
  }

  /** Linking the frame of a cleared block: its walk sees what is left over in front of the block. */
  lemma LinkBlock(m: seq<Word>, m': seq<Word>, dir: int, lo: int, top: int, b: int, i: int, w: Word)
    requires 0 <= i < 1024
    requires Wf(m, dir, lo, top) && !Linked(m, dir, i)
    requires top * 1024 <= b < (top + 1) * 1024 && b + 1024 <= |m|
    requires Present(w) && FrameNumber(w) == top
    requires m' == Cleared(m, b)[dir * 1024 + i := w]
    ensures Wf(m', dir, lo, top + 1) && Linked(m', dir, i)
    ensures OtherEntriesKept(m, m', dir, i)
    ensures forall d, j :: 0 <= d < 1024 && 0 <= j < 1024 ==>
              Walk(m', dir, d, j) ==
              if d != i then Walk(m, dir, d, j)
              else if LeftOver(m, top, b, j) then Some(FrameNumber(Entry(m, top, j))) else None
  {
    var m1 := Cleared(m, b);
    ScribbleFree(m, m1, dir, lo, top);
    LinkTop(m1, m', dir, lo, top, i, w);
    forall d, j | 0 <= d < 1024 && 0 <= j < 1024
      ensures Walk(m', dir, d, j) ==
              if d != i then Walk(m, dir, d, j)
              else if LeftOver(m, top, b, j) then Some(FrameNumber(Entry(m, top, j))) else None
    {
      assert d != i ==> Walk(m1, dir, d, j) == Walk(m, dir, d, j);
      assert Entry(m1, top, j) == if top * 1024 + j < b then Entry(m, top, j) else 2;
    }
  }

  /** No entry is left over, or none but the one that is about to be written. */
  ghost predicate Clean(m: seq<Word>, top: int, b: int, k: int) {
    forall j :: 0 <= j < 1024 && j != k ==> !LeftOver(m, top, b, j)
  }

  /** Addresses that were translated are translated as before. */
  lemma TranslatedKept(m: seq<Word>, m': seq<Word>, cr3: Word, i: int, lo: int, hi: int)
    requires IdentityOn(m, cr3, lo, hi)
    requires 0 <= i < 1024 && forall j :: 0 <= j < 1024 ==> Walk(m, FrameNumber(cr3), i, j) == None
    requires forall d, j :: 0 <= d < 1024 && 0 <= j < 1024 && d != i ==>
               Walk(m', FrameNumber(cr3), d, j) == Walk(m, FrameNumber(cr3), d, j)
    ensures IdentityOn(m', cr3, lo, hi)
  {}

  /** The walk once a block at word `b`, in frame `top`, has been linked as table `i`, where there was none. */
  ghost predicate Linkage(m: seq<Word>, m': seq<Word>, dir: nat, top: int, b: int, i: int) {
    && 0 <= i < 1024 && (forall j :: 0 <= j < 1024 ==> Walk(m, dir, i, j) == None)
    && forall d, j :: 0 <= d < 1024 && 0 <= j < 1024 ==>
         Walk(m', dir, d, j) ==
         if d != i then Walk(m, dir, d, j)
         else if LeftOver(m, top, b, j) then Some(FrameNumber(Entry(m, top, j))) else None
  }

  lemma CleanKeeps(m: seq<Word>, m1: seq<Word>, cr3: Word, top: int, b: int, virt: Word, v: Word)
    requires Linkage(m, m1, FrameNumber(cr3), top, b, DirectoryIndex(virt)) && Clean(m, top, b, TableIndex(virt))
    ensures FrameNumber(v) != FrameNumber(virt) ==> Translate(m1, cr3, v) == Translate(m, cr3, v)
  {
    SamePage(v, virt);
  }

  /** The first address that is walked by these indices. */
  function AddressAt(i: int, j: int): (v: Word)
    requires 0 <= i < 1024 && 0 <= j < 1024
    ensures DirectoryIndex(v) == i && TableIndex(v) == j
  {
    i * 0x40_0000 + j * PAGE_SIZE
  }

  lemma LeftOverShows(m: seq<Word>, m1: seq<Word>, cr3: Word, top: int, b: int, virt: Word, j: int)
    requires Linkage(m, m1, FrameNumber(cr3), top, b, DirectoryIndex(virt))
    requires 0 <= j < 1024 && j != TableIndex(virt) && LeftOver(m, top, b, j)
    ensures var v := AddressAt(DirectoryIndex(virt), j);
            FrameNumber(v) != FrameNumber(virt) && Translate(m1, cr3, v) != Translate(m, cr3, v)
  {
    SamePage(AddressAt(DirectoryIndex(virt), j), virt);
  }

  /** Linking a block and then setting an entry is a one-page remapping exactly when the block was clean. */
  lemma LinkThenSet(m: seq<Word>, m1: seq<Word>, m': seq<Word>, cr3: Word, top: int, b: int, virt: Word, phys: Word)
    requires Linkage(m, m1, FrameNumber(cr3), top, b, DirectoryIndex(virt)) && Remaps(m1, m', cr3, virt, phys)
    ensures Remaps(m, m', cr3, virt, phys) <==> Clean(m, top, b, TableIndex(virt))
  {
    if Clean(m, top, b, TableIndex(virt)) {
      forall v: Word
        ensures Translate(m', cr3, v) ==
                if FrameNumber(v) == FrameNumber(virt) then Some(FrameBase(phys) + v % PAGE_SIZE) else Translate(m, cr3, v)
      {
        CleanKeeps(m, m1, cr3, top, b, virt, v);
      }
    } else {
      var j :| 0 <= j < 1024 && j != TableIndex(virt) && LeftOver(m, top, b, j);
      LeftOverShows(m, m1, cr3, top, b, virt, j);
    }
  }

  // ----- The flags -----

  /** Every linked table's entry, and the entry of every mapped page, has the Present, Read/Write and User bits. */
  ghost predicate AllUser(m: seq<Word>, dir: int) {
    && 0 <= dir && (dir + 1) * 1024 <= |m|
    && (forall i :: 0 <= i < 1024 && Linked(m, dir, i) ==> DirectoryEntry(m, dir, i) % 8 == 7)
    && (forall i, k :: 0 <= i < 1024 && 0 <= k < 1024 && Walk(m, dir, i, k).Some? ==> Entry(m, TableOf(m, dir, i), k) % 8 == 7)
  }

  /** The entries that the walk of an address goes through have all three bits. */
  ghost predicate UserPage(m: seq<Word>, cr3: Word, v: Word) {
    var dir, i, k := FrameNumber(cr3), DirectoryIndex(v), TableIndex(v);
    && Walk(m, dir, i, k).Some?
    && DirectoryEntry(m, dir, i) % 8 == 7 && Entry(m, TableOf(m, dir, i), k) % 8 == 7
  }

  lemma AllUserPages(m: seq<Word>, cr3: Word, v: Word)
    requires AllUser(m, FrameNumber(cr3)) && Translate(m, cr3, v).Some?
    ensures UserPage(m, cr3, v)
  {}

  lemma FlagsOf(w: Word)
    ensures WithFlags(w) % 8 == 7
  {
    var q := w / 8;
    assert w - w % 8 + 7 == 8 * q + 7;
  }

  lemma SetEntryFlags(m: seq<Word>, m': seq<Word>, dir: int, lo: int, top: int, i: int, k: int, w: Word, d: int, j: int)
    requires 0 <= i < 1024 && 0 <= k < 1024 && 0 <= d < 1024 && 0 <= j < 1024
    requires Wf(m, dir, lo, top) && Linked(m, dir, i) && w % 8 == 7 && AllUser(m, dir)
    requires m' == m[TableOf(m, dir, i) * 1024 + k := w]
    requires DirectoryEntry(m', dir, d) == DirectoryEntry(m, dir, d) && Walk(m', dir, d, j).Some?
    ensures Entry(m', TableOf(m', dir, d), j) % 8 == 7
  {
    var t := TableOf(m, dir, d);
    if d != i {
      assert t != TableOf(m, dir, i);
      OtherFrame(m, m', TableOf(m, dir, i), t);
      assert Walk(m, dir, d, j).Some?;
    } else if j != k {
      assert Entry(m', t, j) == Entry(m, t, j);
      assert Walk(m, dir, d, j).Some?;
    }
  }

  /** What `SetEntry` does to the flags. */
  lemma SetEntryUser(m: seq<Word>, m': seq<Word>, dir: int, lo: int, top: int, i: int, k: int, w: Word)
    requires 0 <= i < 1024 && 0 <= k < 1024
    requires Wf(m, dir, lo, top) && Linked(m, dir, i) && Present(w) && w % 8 == 7
    requires m' == m[TableOf(m, dir, i) * 1024 + k := w]
    ensures forall d :: 0 <= d < 1024 ==> DirectoryEntry(m', dir, d) == DirectoryEntry(m, dir, d)
    ensures Walk(m', dir, i, k).Some? && Entry(m', TableOf(m', dir, i), k) % 8 == 7
    ensures AllUser(m, dir) ==> AllUser(m', dir)
  {
    var t := TableOf(m, dir, i);
    SetEntry(m, m', dir, lo, top, i, k, w);
    OtherFrame(m, m', t, dir);
    forall d | 0 <= d < 1024 ensures DirectoryEntry(m', dir, d) == DirectoryEntry(m, dir, d) {
      assert Entry(m', dir, d) == Entry(m, dir, d);
    }
    assert Entry(m', t, k) == w;
    if AllUser(m, dir) {
      forall d, j | 0 <= d < 1024 && 0 <= j < 1024 && Walk(m', dir, d, j).Some?
        ensures Entry(m', TableOf(m', dir, d), j) % 8 == 7
      {
        SetEntryFlags(m, m', dir, lo, top, i, k, w, d, j);
      }
    }
  }

  lemma LinkBlockFlags(m: seq<Word>, m': seq<Word>, dir: int, lo: int, top: int, b: int, i: int, w: Word, d: int, j: int)
    requires 0 <= i < 1024 && 0 <= d < 1024 && 0 <= j < 1024 && d != i
    requires Wf(m, dir, lo, top) && AllUser(m, dir)
    requires top * 1024 == b && b + 1024 <= |m| && m' == Cleared(m, b)[dir * 1024 + i := w]
    requires DirectoryEntry(m', dir, d) == DirectoryEntry(m, dir, d) && Walk(m', dir, d, j).Some?
    ensures Entry(m', TableOf(m', dir, d), j) % 8 == 7
  {
    var t := TableOf(m, dir, d);
    assert Linked(m, dir, d) && t < top && t != dir;
    FrameBelow(m, Cleared(m, b), t, top);
    OtherFrame(Cleared(m, b), m', dir, t);
    assert Entry(m', t, j) == Entry(m, t, j);
    assert Walk(m, dir, d, j).Some?;
  }

  /** What `LinkBlock` does to the flags, for a block that fills its frame. */
  lemma LinkBlockUser(m: seq<Word>, m': seq<Word>, dir: int, lo: int, top: int, b: int, i: int, w: Word)
    requires 0 <= i < 1024
    requires Wf(m, dir, lo, top) && !Linked(m, dir, i)
    requires top * 1024 == b && b + 1024 <= |m|
    requires Present(w) && FrameNumber(w) == top && w % 8 == 7
    requires m' == Cleared(m, b)[dir * 1024 + i := w]
    requires AllUser(m, dir)
    ensures AllUser(m', dir)
  {
    LinkBlock(m, m', dir, lo, top, b, i, w);
    forall d | 0 <= d < 1024 && Linked(m', dir, d) ensures DirectoryEntry(m', dir, d) % 8 == 7 {
      assert d != i ==> DirectoryEntry(m', dir, d) == DirectoryEntry(m, dir, d);
    }
    forall d, j | 0 <= d < 1024 && 0 <= j < 1024 && Walk(m', dir, d, j).Some?
      ensures Entry(m', TableOf(m', dir, d), j) % 8 == 7
    {
      LinkBlockFlags(m, m', dir, lo, top, b, i, w, d, j);
    }
  }

  // ----- Counting the linked tables -----

  /** How many of the first `n` directory entries are present. */
  ghost function Count(m: seq<Word>, dir: int, n: nat): (c: nat)
    requires n <= 1024 && 0 <= dir && (dir + 1) * 1024 <= |m|
    ensures c <= n
    decreases |m|, n
  {
    if n == 0 then 0 else Count(m, dir, n - 1) + if Linked(m, dir, n - 1) then 1 else 0
  }

  /** Linking entry `i` (and no other) adds one to the count, unless it was linked already. */
  lemma {:induction false} CountAfterLink(m: seq<Word>, m': seq<Word>, dir: int, n: nat, i: nat)
    requires n <= 1024 && i < 1024 && 0 <= dir && (dir + 1) * 1024 <= |m|
    requires OtherEntriesKept(m, m', dir, i) && Linked(m', dir, i)
    ensures Count(m', dir, n) == Count(m, dir, n) + if i < n && !Linked(m, dir, i) then 1 else 0
  {
    if n > 0 {
      CountAfterLink(m, m', dir, n - 1, i);
      if n - 1 != i {
        assert DirectoryEntry(m', dir, n - 1) == DirectoryEntry(m, dir, n - 1);
      }
    }
  }

  /** A directory with an absent entry has room for one more table. */
  lemma {:induction false} CountBelow(m: seq<Word>, dir: int, n: nat, i: nat)
    requires i < n <= 1024 && 0 <= dir && (dir + 1) * 1024 <= |m|
    requires !Linked(m, dir, i)
    ensures Count(m, dir, n) < n
  {
    if i < n - 1 {
      CountBelow(m, dir, n - 1, i);
    }
  }
}
