/**
  The kernel's memory state: installed RAM, the bump heap (src/core/mm/kheap.cpp), the
  page directory (src/core/paging.cpp) and the boot sequence of src/kernel.cpp.
*/
module KernelMemory {
  import opened Machine32
  import opened PageWalk

  const HEAP_START: Word := 0x00A0_0000
  const HEAP_END: Word := 0x0140_0000

  /** The frame `Init` puts the directory in, and the bump pointer's frame afterwards. */
  const DIRECTORY: PageFrame := 0xA01
  const TOP_AFTER_INIT: PageFrame := 0xA42

  /** `heap_curr` rounded up to a multiple of 4. */
  function Align4(a: Word): Word {
    if a % 4 == 0 then a else Add(a, 4 - a % 4)
  }

  /** `kmalloc`: the block, or null, and the new `heap_curr`, which keeps the rounding even then. */
  function Bump(curr: Word, end: Word, size: Word): (Word, Word) {
    var a := Align4(curr);
    if Add(a, size) >= end then (0, a) else (a, Add(a, size))
  }

  /**
    A block lies below the end of the heap exactly when the 32-bit sum does not wrap to an
    address below it.
  */
  lemma BumpInHeap(curr: Word, end: Word, size: Word)
    requires 0 < curr <= end && end % 4 == 0
    ensures var (p, curr') := Bump(curr, end, size);
            (p != 0 ==> curr <= p && p % 4 == 0 && curr' == p + size < end)
            <==> (Align4(curr) + size < TWO_32 || Align4(curr) + size >= TWO_32 + end)
  {
    var a := Align4(curr);
    assert a % 4 == 0 && curr <= a < curr + 4;
    if a + size >= TWO_32 {
      assert Add(a, size) == a + size - TWO_32;
    }
  }

  lemma AlignUp(curr: Word, end: Word)
    requires curr <= end && end % 4 == 0
    ensures curr <= Align4(curr) <= end
  {}

  lemma BumpStep(curr: Word, end: Word, size: Word)
    requires 0 < curr <= end && end % 4 == 0 && end + size < TWO_32
    ensures var (p, curr') := Bump(curr, end, size);
            && curr <= curr' <= end
            && (p != 0 ==> curr <= p && p % 4 == 0 && curr' == p + size < end)
  {
    BumpInHeap(curr, end, size);
    AlignUp(curr, end);
  }

  /** The blocks that a run of requests gets, each with its size. */
  function Blocks(curr: Word, end: Word, sizes: seq<Word>): seq<(int, int)>
    decreases |sizes|
  {
    if sizes == [] then []
    else
      var (p, curr') := Bump(curr, end, sizes[0]);
      (if p == 0 then [] else [(p, sizes[0])]) + Blocks(curr', end, sizes[1..])
  }

  /** Aligned blocks in [lo, end), one behind the other. */
  ghost predicate Stacked(bs: seq<(int, int)>, lo: int, end: int) {
    && (forall i :: 0 <= i < |bs| ==> lo <= bs[i].0 && bs[i].0 % 4 == 0 && bs[i].0 + bs[i].1 < end)
    && forall i, j :: 0 <= i < j < |bs| ==> bs[i].0 + bs[i].1 <= bs[j].0
  }

  lemma StackedLower(bs: seq<(int, int)>, mid: int, lo: int, end: int)
    requires Stacked(bs, mid, end) && lo <= mid
    ensures Stacked(bs, lo, end)
  {}

  lemma StackedCons(b: (int, int), rest: seq<(int, int)>, lo: int, end: int)
    requires Stacked(rest, b.0 + b.1, end) && lo <= b.0 && 0 <= b.1 && b.0 % 4 == 0 && b.0 + b.1 < end
    ensures Stacked([b] + rest, lo, end)
  {
    var bs := [b] + rest;
    assert forall i :: 0 < i < |bs| ==> bs[i] == rest[i - 1];
  }

  /** Over any run of requests that cannot wrap, no two blocks overlap, and all of them lie in the heap. */
  lemma {:induction false} BlocksApart(curr: Word, end: Word, sizes: seq<Word>)
    requires 0 < curr <= end && end % 4 == 0 && forall i :: 0 <= i < |sizes| ==> end + sizes[i] < TWO_32
    ensures Stacked(Blocks(curr, end, sizes), curr, end)
    decreases |sizes|
  {
    if sizes != [] {
      var (p, curr') := Bump(curr, end, sizes[0]);
      var rest := Blocks(curr', end, sizes[1..]);
      BumpStep(curr, end, sizes[0]);
      BlocksApart(curr', end, sizes[1..]);
      if p == 0 {
        StackedLower(rest, curr', curr, end);
        assert [] + rest == rest;
      } else {
        StackedCons((p, sizes[0]), rest, curr, end);
      }
    }
  }

  /** The frame of the i-th table that `Init` allocates: the second half of each 8192-byte block. */
  function InitTableFrame(i: int): int { DIRECTORY + 2 + 2 * i }

  /** The first `n` directory entries point at the tables of `Init`; the rest are empty. */
  ghost predicate InitDirectory(m: seq<Word>, n: int) {
    && HEAP_END <= 4 * |m|
    && 0 <= n <= 32
    && forall i :: 0 <= i < 1024 ==>
         DirectoryEntry(m, DIRECTORY, i) == if i < n then InitTableFrame(i) * PAGE_SIZE + 7 else 2
  }

  /** The first `k` entries of the i-th table map the i-th 4-MByte region to itself. */
  ghost predicate InitTable(m: seq<Word>, i: int, k: int)
    requires 0 <= i < 32 && HEAP_END <= 4 * |m|
  {
    forall j :: 0 <= j < k && k <= 1024 ==> Entry(m, InitTableFrame(i), j) == (i * 1024 + j) * PAGE_SIZE + 7
  }

  /** How many page frames `v` lies above the frame of `fb`, going around at 4 GB. */
  function FramesAbove(fb: Word, v: Word): PageFrame {
    if FrameNumber(fb) <= FrameNumber(v) then FrameNumber(v) - FrameNumber(fb)
    else FrameNumber(v) + 0x10_0000 - FrameNumber(fb)
  }

  /** The number of 4096-byte steps the boot loop takes over `size` bytes. */
  function Steps(size: Word): nat { (size + PAGE_SIZE - 1) / PAGE_SIZE }

  /** `height * pitch` in 32 bits. */
  function FramebufferSize(height: Word, pitch: Word): Word { height * pitch % TWO_32 }

  /** What the hardware walk answers for `v` once `size` bytes at `fb` have been mapped at boot. */
  function BootTranslation(fb: Word, size: Word, v: Word): Option<Word> {
    if v < LOW_MEMORY || FramesAbove(fb, v) < Steps(size) then Some(v) else None
  }

  /** An address is put together from its two indices and its page offset. */
  lemma AddressParts(v: Word)
    ensures v == (DirectoryIndex(v) * 1024 + TableIndex(v)) * PAGE_SIZE + v % PAGE_SIZE
    ensures v < LOW_MEMORY <==> DirectoryIndex(v) < 32
    ensures FramesAbove(0, v) == FrameNumber(v) && Steps(0) == 0
  {
    var f := v / PAGE_SIZE;
    assert v == f * PAGE_SIZE + v % PAGE_SIZE && f == f / 1024 * 1024 + f % 1024;
    assert v / 0x40_0000 == f / 1024;
  }

  lemma InitTranslatesAt(m: seq<Word>, v: Word)
    requires InitDirectory(m, 32)
    requires forall i :: 0 <= i < 32 ==> InitTable(m, i, 1024)
    ensures Translate(m, DIRECTORY * PAGE_SIZE, v) == BootTranslation(0, 0, v)
  {
    var i, j := DirectoryIndex(v), TableIndex(v);
    AddressParts(v);
    assert DirectoryEntry(m, DIRECTORY, i) == if i < 32 then InitTableFrame(i) * PAGE_SIZE + 7 else 2;
    if i < 32 {
      InFrame(InitTableFrame(i), 7);
      InFrame(i * 1024 + j, 7);
      TwoTimes(InitTableFrame(i) * 2048 + 3);
      TwoTimes((i * 1024 + j) * 2048 + 3);
      assert InitTable(m, i, 1024);
      assert Entry(m, InitTableFrame(i), j) == (i * 1024 + j) * PAGE_SIZE + 7;
      assert Walk(m, DIRECTORY, i, j) == Some(i * 1024 + j);
    }
  }

  lemma {:induction false} InitCount(m: seq<Word>, n: nat)
    requires n <= 1024 && (DIRECTORY + 1) * 1024 <= |m|
    requires forall i :: 0 <= i < 1024 ==> (Linked(m, DIRECTORY, i) <==> i < 32)
    ensures Count(m, DIRECTORY, n) == if n < 32 then n else 32
  {
    if n > 0 {
      InitCount(m, n - 1);
    }
  }

  lemma InitTranslates(m: seq<Word>)
    requires InitDirectory(m, 32)
    requires forall i :: 0 <= i < 32 ==> InitTable(m, i, 1024)
    ensures Wf(m, DIRECTORY, HEAP_START / PAGE_SIZE, TOP_AFTER_INIT)
    ensures Count(m, DIRECTORY, 1024) == 32
    ensures forall i :: 0 <= i < 1024 ==> (Linked(m, DIRECTORY, i) <==> i < 32)
    ensures forall v: Word :: Translate(m, DIRECTORY * PAGE_SIZE, v) == BootTranslation(0, 0, v)
  {
    forall i | 0 <= i < 1024
      ensures Linked(m, DIRECTORY, i) <==> i < 32
      ensures i < 32 ==> TableOf(m, DIRECTORY, i) == InitTableFrame(i)
    {
      assert DirectoryEntry(m, DIRECTORY, i) == if i < 32 then InitTableFrame(i) * PAGE_SIZE + 7 else 2;
    }
    InitCount(m, 1024);
    forall v: Word ensures Translate(m, DIRECTORY * PAGE_SIZE, v) == BootTranslation(0, 0, v) {
      InitTranslatesAt(m, v);
    }
  }

  lemma EightTimesPlus(k: int, r: int)
    requires 0 <= r < 8
    ensures (8 * k + r) % 8 == r
  {}

  lemma FlagsAtPage(f: int)
    ensures (f * PAGE_SIZE + 7) % 8 == 7
  {
    EightTimesPlus(f * 512, 7);
  }

  lemma InitFlags(m: seq<Word>, i: int, j: int)
    requires InitDirectory(m, 32) && 0 <= i < 32 && InitTable(m, i, 1024) && 0 <= j < 1024
    ensures DirectoryEntry(m, DIRECTORY, i) % 8 == 7 && TableOf(m, DIRECTORY, i) == InitTableFrame(i)
    ensures Entry(m, InitTableFrame(i), j) % 8 == 7
  {
    assert DirectoryEntry(m, DIRECTORY, i) == InitTableFrame(i) * PAGE_SIZE + 7;
    assert Entry(m, InitTableFrame(i), j) == (i * 1024 + j) * PAGE_SIZE + 7;
    InFrame(InitTableFrame(i), 7);
    FlagsAtPage(InitTableFrame(i));
    FlagsAtPage(i * 1024 + j);
  }

  /** All entries of `Init` have the three flags. */
  lemma InitUser(m: seq<Word>)
    requires InitDirectory(m, 32)
    requires forall i :: 0 <= i < 32 ==> InitTable(m, i, 1024)
    ensures AllUser(m, DIRECTORY)
  {
    forall i | 0 <= i < 1024 ensures Linked(m, DIRECTORY, i) ==> i < 32 && DirectoryEntry(m, DIRECTORY, i) % 8 == 7 {
      assert DirectoryEntry(m, DIRECTORY, i) == if i < 32 then InitTableFrame(i) * PAGE_SIZE + 7 else 2;
      if i < 32 {
        InitFlags(m, i, 0);
      }
    }
    forall i, k | 0 <= i < 1024 && 0 <= k < 1024 && Walk(m, DIRECTORY, i, k).Some?
      ensures Entry(m, TableOf(m, DIRECTORY, i), k) % 8 == 7
    {
      InitFlags(m, i, k);
    }
  }

  /** The loop's counter steps from page to page and does not wrap. */
  lemma NextOffset(offset: Word, size: Word)
    requires offset % PAGE_SIZE == 0 && offset < size <= 0xFFFF_F000
    ensures Add(offset, 4096) == offset + PAGE_SIZE < TWO_32
    ensures (offset + PAGE_SIZE) % PAGE_SIZE == 0 && Steps(offset + PAGE_SIZE) <= Steps(size)
  {
    var k := offset / PAGE_SIZE;
    assert offset == k * PAGE_SIZE && k < 0xF_FFFF;
  }

  lemma LastOffset(offset: Word, size: Word)
    requires size <= offset && Steps(offset) <= Steps(size)
    ensures Steps(offset) == Steps(size)
  {}

  lemma NextFrame(fb: Word, offset: Word, v: Word)
    requires offset % PAGE_SIZE == 0
    ensures FrameNumber(v) == FrameNumber(Add(fb, offset)) <==> FramesAbove(fb, v) == offset / PAGE_SIZE
  {
    if fb + offset < TWO_32 {
      assert Add(fb, offset) == fb + offset;
    } else {
      assert Add(fb, offset) == fb + offset - TWO_32;
    }
  }

  lemma BootStepAt(fb: Word, offset: Word, v: Word, before: Option<Word>, after: Option<Word>)
    requires offset % PAGE_SIZE == 0 && offset + PAGE_SIZE < TWO_32
    requires before == BootTranslation(fb, offset, v)
    requires after == if FrameNumber(v) == FrameNumber(Add(fb, offset)) then Some(FrameBase(Add(fb, offset)) + v % PAGE_SIZE)
                      else before
    ensures after == BootTranslation(fb, offset + PAGE_SIZE, v)
  {
    NextFrame(fb, offset, v);
    assert Steps(offset) == offset / PAGE_SIZE && Steps(offset + PAGE_SIZE) == offset / PAGE_SIZE + 1;
    if FrameNumber(v) == FrameNumber(Add(fb, offset)) {
      assert FrameBase(Add(fb, offset)) == FrameBase(v);
    }
  }

  /** One turn of the boot loop extends the mapped part of the framebuffer by one page. */
  lemma BootStep(m: seq<Word>, m': seq<Word>, cr3: Word, fb: Word, offset: Word)
    requires offset % PAGE_SIZE == 0 && offset + PAGE_SIZE < TWO_32
    requires forall v: Word :: Translate(m, cr3, v) == BootTranslation(fb, offset, v)
    requires Remaps(m, m', cr3, Add(fb, offset), Add(fb, offset))
    ensures forall v: Word :: Translate(m', cr3, v) == BootTranslation(fb, offset + PAGE_SIZE, v)
  {
    forall v: Word ensures Translate(m', cr3, v) == BootTranslation(fb, offset + PAGE_SIZE, v) {
      BootStepAt(fb, offset, v, Translate(m, cr3, v), Translate(m', cr3, v));
    }
  }

  /** The kernel heap, and so every page table, stays mapped to itself. */
  lemma BootIdentity(m: seq<Word>, cr3: Word, fb: Word, size: Word)
    requires forall v: Word :: Translate(m, cr3, v) == BootTranslation(fb, size, v)
    ensures IdentityOn(m, cr3, HEAP_START, HEAP_END)
  {}

  /** `BootTranslation(fb, 0, _)` does not depend on `fb`. */
  lemma NothingMappedYet(fb: Word)
    ensures forall v: Word :: BootTranslation(fb, 0, v) == BootTranslation(0, 0, v)
  {}

  /** With `c` linked tables the bump pointer is page aligned and far below the end of the heap. */
  lemma BumpPointer(before: Word, after: int, c: nat, newTable: bool)
    requires before == (TOP_AFTER_INIT + c - 32) * PAGE_SIZE
    requires after == before + if newTable then PAGE_SIZE else 0
    requires (if newTable then c + 1 else c) <= 1024
    ensures after == (TOP_AFTER_INIT + (if newTable then c + 1 else c) - 32) * PAGE_SIZE
    ensures after % PAGE_SIZE == 0 && after < HEAP_END
  {}

  /** A directory that lacks an entry leaves the heap room for its table. */
  lemma RoomBefore(m: seq<Word>, i: nat, before: Word)
    requires i < 1024 && (DIRECTORY + 1) * 1024 <= |m| && !Linked(m, DIRECTORY, i)
    requires before == (TOP_AFTER_INIT + Count(m, DIRECTORY, 1024) - 32) * PAGE_SIZE
    ensures before + PAGE_SIZE < HEAP_END
  {
    CountBelow(m, DIRECTORY, 1024, i);
  }

  /** The bump pointer goes on counting the tables. */
  lemma CountedBump(m: seq<Word>, m': seq<Word>, i: nat, before: Word, after: Word)
    requires i < 1024 && (DIRECTORY + 1) * 1024 <= |m| && OtherEntriesKept(m, m', DIRECTORY, i) && Linked(m', DIRECTORY, i)
    requires before == (TOP_AFTER_INIT + Count(m, DIRECTORY, 1024) - 32) * PAGE_SIZE
    requires after == before + if Linked(m, DIRECTORY, i) then 0 else PAGE_SIZE
    ensures after == (TOP_AFTER_INIT + Count(m', DIRECTORY, 1024) - 32) * PAGE_SIZE
    ensures after % PAGE_SIZE == 0 && after < HEAP_END
  {
    CountAfterLink(m, m', DIRECTORY, 1024, i);
    BumpPointer(before, after, Count(m, DIRECTORY, 1024), !Linked(m, DIRECTORY, i));
  }

  lemma AlignRounds(curr: Word)
    ensures Align4(curr) % 4 == 0
  {
    var q, r := curr / 4, curr % 4;
    assert curr + (4 - r) == 4 * (q + 1);
    assert TWO_32 == 4 * 0x4000_0000;
  }

  lemma MultipleOfFour(k: int)
    ensures 4 * k % 4 == 0
  {}

  /** A page-aligned address is rounded already. */
  lemma AlignedStays(curr: Word)
    requires curr % PAGE_SIZE == 0
    ensures Align4(curr) == curr
  {
    MultipleOfFour(1024 * (curr / 4096));
    assert curr == 4 * (1024 * (curr / 4096));
  }

  /** Setting the low three bits stays within a page. */
  lemma FlagsInFrame(r: int)
    requires 0 <= r < PAGE_SIZE
    ensures 0 <= WithFlags(r) < PAGE_SIZE && WithFlags(r) % 2 == 1
  {
    TwoTimes(4 * (r / 8) + 3);
    assert WithFlags(r) == 8 * (r / 8) + 7;
  }

  lemma FrameFlags(f: int, r: int)
    requires 0 <= f < 0x10_0000 && 0 <= r < PAGE_SIZE
    ensures WithFlags(f * PAGE_SIZE + r) == f * PAGE_SIZE + WithFlags(r)
    ensures WithFlags(f * PAGE_SIZE + r) % 2 == 1
  {
    var q := r / 8;
    assert f * PAGE_SIZE + r == 8 * (f * 512 + q) + r % 8;
    EightTimesPlus(f * 512 + q, r % 8);
    TwoTimes(4 * (f * 512 + q) + 3);
  }

  /** A block's entry names the frame it starts in. */
  lemma BlockFrame(block: Word)
    requires block % 4 == 0
    ensures Present(WithFlags(block)) && FrameNumber(WithFlags(block)) == FrameNumber(block)
    ensures FrameNumber(block) * 1024 <= block / 4 < (FrameNumber(block) + 1) * 1024
    ensures block + PAGE_SIZE < TWO_32 ==> FrameNumber(block + PAGE_SIZE) == FrameNumber(block) + 1
  {
    var f: int, r: int := FrameNumber(block), block % PAGE_SIZE;
    FlagsInFrame(r);
    InFrame(f, r);
    InFrame(f + 1, r);
    InFrame(f, WithFlags(r));
    FrameFlags(f, r);
  }

  lemma WfUpTo(m: seq<Word>, dir: int, lo: int, top: int, top': int)
    requires Wf(m, dir, lo, top) && top <= top' && top' * 1024 <= |m|
    ensures Wf(m, dir, lo, top')
  {}

  lemma AlignedBlock(m: seq<Word>, curr: Word, k: int)
    ensures curr % PAGE_SIZE == 0 ==> Clean(m, FrameNumber(Align4(curr)), Align4(curr) / 4, k)
  {
    if curr % PAGE_SIZE == 0 {
      AlignedStays(curr);
      assert curr / 4 == FrameNumber(curr) * 1024;
    }
  }

  /** The bump pointer behind the first word of a page. */
  lemma BehindWord(curr: Word, top: int)
    requires curr == top * PAGE_SIZE + 4 && 0 <= top
    ensures FrameNumber(curr) == top && Align4(curr) == curr == 4 * (top * 1024 + 1)
    ensures top < TOP_AFTER_INIT + 968 ==> curr + PAGE_SIZE < HEAP_END
  {
    InFrame(top, 4);
    MultipleOfFour(top * 1024 + 1);
  }

  /** What `Init` maps, and the page of `v`. */
  ghost predicate InitAndPage(m: seq<Word>, cr3: Word, v: Word) {
    forall a: Word :: Translate(m, cr3, a) == if FrameNumber(a) == FrameNumber(v) then Some(a) else BootTranslation(0, 0, a)
  }

  lemma MoreThanPage(m: seq<Word>, m': seq<Word>, cr3: Word, v: Word)
    requires forall a: Word :: Translate(m, cr3, a) == BootTranslation(0, 0, a)
    requires !Remaps(m, m', cr3, v, v)
    ensures !InitAndPage(m', cr3, v)
  {
    var a: Word :| Translate(m', cr3, a) !=
      if FrameNumber(a) == FrameNumber(v) then Some(FrameBase(v) + a % PAGE_SIZE) else Translate(m, cr3, a);
    assert FrameNumber(a) == FrameNumber(v) ==> FrameBase(v) + a % PAGE_SIZE == a;
  }

  lemma BlockStart(curr: Word)
    ensures curr % PAGE_SIZE == 0 ==> Align4(curr) == FrameNumber(Align4(curr)) * PAGE_SIZE
  {
    if curr % PAGE_SIZE == 0 {
      AlignedStays(curr);
    }
  }

  class Kernel {
    const ram: array<Word>
    var heapStart: Word
    var heapCurr: Word
    var heapEnd: Word
    var pageDirectory: Word
    var paging: bool  // bit 31 of CR0

    constructor (ram: array<Word>)
      ensures this.ram == ram && !paging
    {
      this.ram := ram;
      heapStart, heapCurr, heapEnd, pageDirectory, paging := 0, 0, 0, 0, false;
    }

    /** The physical address that an access to virtual address `a` reaches. */
    function Resolve(a: Word): Option<Word>
      reads this, ram
    {
      if paging then Translate(ram[..], pageDirectory, a) else Some(a)
    }

    /** An aligned access to `a` hits installed memory. */
    predicate Accessible(a: Word)
      reads this, ram
    {
      a % 4 == 0 && Resolve(a).Some? && Resolve(a).value / 4 < ram.Length
    }

    method Load(a: Word) returns (w: Word)
      requires Accessible(a)
      ensures w == ram[Resolve(a).value / 4]
    {
      w := ram[Resolve(a).value / 4];
    }

    method Store(a: Word, w: Word)
      requires Accessible(a)
      modifies ram
      ensures ram[..] == old(ram[..])[old(Resolve(a)).value / 4 := w]
    {
      ram[Resolve(a).value / 4] := w;
    }

    method HeapInit(start: Word, size: Word)
      modifies this`heapStart, this`heapCurr, this`heapEnd
      ensures heapStart == heapCurr == start && heapEnd == Add(start, size)
    {
      heapStart := start;
      heapCurr := start;
      heapEnd := Add(start, size);
    }

    /** Out of memory is a null result; the rounding of `heap_curr` is kept even then. */
    method Kmalloc(size: Word) returns (ret: Word)
      modifies this`heapCurr
      ensures (ret, heapCurr) == Bump(old(heapCurr), heapEnd, size)
    {
      if heapCurr % 4 != 0 {
        heapCurr := Add(heapCurr, 4 - heapCurr % 4);
      }
      if Add(heapCurr, size) >= heapEnd {
        return 0;
      }
      ret := heapCurr;
      heapCurr := Add(heapCurr, size);
    }

    /** The kernel heap is installed, and its addresses reach themselves. */
    ghost predicate HeapReachable()
      reads this, ram
    {
      && heapStart % PAGE_SIZE == 0 && pageDirectory % PAGE_SIZE == 0
      && heapCurr <= heapEnd <= 4 * ram.Length
      && (paging ==> IdentityOn(ram[..], pageDirectory, heapStart, heapEnd))
    }

    /** The tables are well formed and in use below the bump pointer's frame. */
    ghost predicate Ready()
      reads this, ram
    {
      HeapReachable() && Wf(ram[..], FrameNumber(pageDirectory), FrameNumber(heapStart), FrameNumber(heapCurr))
    }

    /** The state every caller of `MapMemory` relies on. */
    ghost predicate Valid()
      reads this, ram
    {
      Ready() && heapCurr % PAGE_SIZE == 0
    }

    /** `kmalloc` has a block for another table. */
    predicate RoomForTable()
      reads this
    {
      heapCurr <= Align4(heapCurr) && Align4(heapCurr) + PAGE_SIZE < heapEnd
    }

    /** The directory has a table for `virt`. */
    ghost predicate HasTable(virt: Word)
      requires (FrameNumber(pageDirectory) + 1) * 1024 <= ram.Length
      reads this, ram
    {
      Linked(ram[..], FrameNumber(pageDirectory), DirectoryIndex(virt))
    }

    /** The directory's entry for `virt`. */
    ghost function DirectoryEntryOf(virt: Word): Word
      requires (FrameNumber(pageDirectory) + 1) * 1024 <= ram.Length
      reads this, ram
    {
      DirectoryEntry(ram[..], FrameNumber(pageDirectory), DirectoryIndex(virt))
    }

    /** The table entry of `virt` is present, writable and open to user mode. */
    ghost predicate UserEntry(virt: Word)
      reads this, ram
    {
      var dir, i, k := FrameNumber(pageDirectory), DirectoryIndex(virt), TableIndex(virt);
      Walk(ram[..], dir, i, k).Some? && Entry(ram[..], TableOf(ram[..], dir, i), k) % 8 == 7
    }

    /** Load entry `k` of heap frame `f` through its virtual address `a`. */
    method LoadEntry(a: Word, ghost f: int, ghost k: int) returns (w: Word)
      requires HeapReachable() && FrameNumber(heapStart) <= f && (f + 1) * PAGE_SIZE <= heapEnd && 0 <= k < 1024
      requires a == f * PAGE_SIZE + 4 * k
      ensures w == Entry(ram[..], f, k)
    {
      assert Resolve(a) == Some(a) && a / 4 == f * 1024 + k;
      w := Load(a);
    }

    /** Store into word `k` of the heap through its virtual address: that physical word changes. */
    method StoreWord(a: Word, w: Word, ghost k: int)
      requires HeapReachable() && heapStart <= a && a + 4 <= heapEnd && a == 4 * k
      modifies ram
      ensures ram[..] == old(ram[..])[k := w]
    {
      assert Resolve(a) == Some(a);
      Store(a, w);
    }

    /** Store into entry `k` of heap frame `f` through its virtual address `a`. */
    method StoreEntry(a: Word, w: Word, ghost f: int, ghost k: int)
      requires HeapReachable() && FrameNumber(heapStart) <= f && (f + 1) * PAGE_SIZE <= heapEnd && 0 <= k < 1024
      requires a == f * PAGE_SIZE + 4 * k
      modifies ram
      ensures ram[..] == old(ram[..])[f * 1024 + k := w]
      ensures DiffersOnlyIn(old(ram[..]), ram[..], f)
      ensures forall j :: 0 <= j < 1024 ==> Entry(ram[..], f, j) == if j == k then w else old(Entry(ram[..], f, j))
    {
      StoreWord(a, w, f * 1024 + k);
      WriteEntry(old(ram[..]), ram[..], f, k, w);
    }

    /** Writes from frame `top` upwards keep the heap within reach. */
    lemma NoticesNothing(m0: seq<Word>, m: seq<Word>, dir: int, lo: int, top: int)
      requires Wf(m0, dir, lo, top) && dir == FrameNumber(pageDirectory)
      requires |m| == |m0| && forall k :: 0 <= k < top * 1024 ==> m[k] == m0[k]
      requires paging ==> IdentityOn(m0, pageDirectory, heapStart, heapEnd)
      ensures paging ==> IdentityOn(m, pageDirectory, heapStart, heapEnd)
    {
      ScribbleFree(m0, m, dir, lo, top);
      SameWalkTranslates(m0, m, pageDirectory);
      if paging {
        IdentityKept(m0, m, pageDirectory, heapStart, heapEnd);
      }
    }

    /** Fill the new table, which starts at word `b`, with absent entries: no translation notices. */
    method ClearTable(table: Word, ghost b: int, ghost top: int)
      requires HeapReachable() && table == 4 * b && table + PAGE_SIZE <= heapEnd
      requires Wf(ram[..], FrameNumber(pageDirectory), FrameNumber(heapStart), top) && top * 1024 <= b
      modifies ram
      ensures HeapReachable() && ram[..] == Cleared(old(ram[..]), b)
      ensures SameTranslation(old(ram[..]), ram[..], pageDirectory)
    {
      ghost var m0 := ram[..];
      ghost var dir, lo := FrameNumber(pageDirectory), FrameNumber(heapStart);
      var i := 0;
      while i < 1024
        invariant 0 <= i <= 1024 && HeapReachable()
        invariant forall k :: 0 <= k < |m0| ==> ram[k] == if b <= k < b + i then 2 else m0[k]
      {
        StoreWord(table + 4 * i, 0x2, b + i);
        NoticesNothing(m0, ram[..], dir, lo, top);
        i := i + 1;
      }
      assert ram[..] == Cleared(m0, b);
      ScribbleFree(m0, ram[..], dir, lo, top);
      SameWalkTranslates(m0, ram[..], pageDirectory);
    }

    /** The block for a new table; the tables lie below its frame. */
    method AllocateTable(ghost block: Word) returns (p: Word)
      requires Ready() && RoomForTable() && block == Align4(heapCurr)
      modifies this`heapCurr
      ensures p == block && heapCurr == block + PAGE_SIZE < heapEnd && block % 4 == 0
      ensures HeapReachable() && Wf(ram[..], FrameNumber(pageDirectory), FrameNumber(heapStart), FrameNumber(block))
    {
      WfUpTo(ram[..], FrameNumber(pageDirectory), FrameNumber(heapStart), FrameNumber(heapCurr), FrameNumber(block));
      AlignRounds(heapCurr);
      p := Kmalloc(4096);
    }

    lemma StillReachable(m0: seq<Word>, m: seq<Word>, i: int)
      requires 0 <= i < 1024 && forall j :: 0 <= j < 1024 ==> Walk(m0, FrameNumber(pageDirectory), i, j) == None
      requires forall d, j :: 0 <= d < 1024 && 0 <= j < 1024 && d != i ==>
                 Walk(m, FrameNumber(pageDirectory), d, j) == Walk(m0, FrameNumber(pageDirectory), d, j)
      requires paging ==> IdentityOn(m0, pageDirectory, heapStart, heapEnd)
      ensures paging ==> IdentityOn(m, pageDirectory, heapStart, heapEnd)
    {
      if paging {
        TranslatedKept(m0, m, pageDirectory, i, heapStart, heapEnd);
      }
    }

    /** Clear the new table and link it for `virt`: what the walk finds afterwards, aligned or not. */
    method LinkTable(virt: Word, newTable: Word, ghost top: int)
      requires HeapReachable() && heapCurr == newTable + PAGE_SIZE && newTable % 4 == 0 && top == FrameNumber(newTable)
      requires Wf(ram[..], FrameNumber(pageDirectory), FrameNumber(heapStart), top) && !HasTable(virt)
      modifies ram
      ensures Ready() && HasTable(virt)
      ensures OtherEntriesKept(old(ram[..]), ram[..], FrameNumber(pageDirectory), DirectoryIndex(virt))
      ensures Linkage(old(ram[..]), ram[..], FrameNumber(pageDirectory), top, newTable / 4, DirectoryIndex(virt))
      ensures DirectoryEntryOf(virt) % 8 == 7
      ensures newTable == top * PAGE_SIZE && old(AllUser(ram[..], FrameNumber(pageDirectory))) ==>
                AllUser(ram[..], FrameNumber(pageDirectory))
    {
      ghost var m0 := ram[..];
      ghost var dir, lo, i := FrameNumber(pageDirectory), FrameNumber(heapStart), DirectoryIndex(virt);
      BlockFrame(newTable);
      ClearTable(newTable, newTable / 4, top);
      StoreEntry(pageDirectory + 4 * DirectoryIndex(virt), WithFlags(newTable), dir, i);
      LinkBlock(m0, ram[..], dir, lo, top, newTable / 4, i, WithFlags(newTable));
      FlagsOf(newTable);
      if newTable == top * PAGE_SIZE && AllUser(m0, dir) {
        LinkBlockUser(m0, ram[..], dir, lo, top, newTable / 4, i, WithFlags(newTable));
      }
      StillReachable(m0, ram[..], i);
    }

    /** Overwrite the entry of `virt` in its linked table. */
    method SetPage(virt: Word, phys: Word)
      requires Ready() && HasTable(virt)
      modifies ram
      ensures Wf(ram[..], FrameNumber(pageDirectory), FrameNumber(heapStart), FrameNumber(heapCurr))
      ensures Remaps(old(ram[..]), ram[..], pageDirectory, virt, phys)
      ensures OtherEntriesKept(old(ram[..]), ram[..], FrameNumber(pageDirectory), DirectoryIndex(virt)) && HasTable(virt)
      ensures UserEntry(virt) && DirectoryEntryOf(virt) == old(DirectoryEntryOf(virt))
      ensures old(AllUser(ram[..], FrameNumber(pageDirectory))) ==> AllUser(ram[..], FrameNumber(pageDirectory))
    {
      ghost var m := ram[..];
      ghost var dir, lo, top := FrameNumber(pageDirectory), FrameNumber(heapStart), FrameNumber(heapCurr);
      var pdIndex, ptIndex := DirectoryIndex(virt), TableIndex(virt);
      var entry := LoadEntry(pageDirectory + 4 * pdIndex, dir, pdIndex);
      ghost var t := TableOf(m, dir, pdIndex);
      assert FrameBase(entry) == t * PAGE_SIZE;
      EntryForFrame(FrameNumber(phys));
      StoreEntry(FrameBase(entry) + 4 * ptIndex, WithFlags(FrameBase(phys)), t, ptIndex);
      SetEntry(m, ram[..], dir, lo, top, pdIndex, ptIndex, WithFlags(FrameBase(phys)));
      FlagsOf(FrameBase(phys));
      SetEntryUser(m, ram[..], dir, lo, top, pdIndex, ptIndex, WithFlags(FrameBase(phys)));
      RemapsWalkTranslates(m, ram[..], pageDirectory, virt, phys);
    }

    /** The block that a new table for `virt` would get has nothing left over in front of it. */
    ghost predicate CleanBlock(virt: Word)
      reads this, ram
    {
      Clean(ram[..], FrameNumber(Align4(heapCurr)), Align4(heapCurr) / 4, TableIndex(virt))
    }

    /**
      `MapMemory` is a one-page update of the address map, and nothing else, exactly when there
      is a table already or the block for the new one is clean.  A page-aligned block always is.
    */
    method MapMemory(virt: Word, phys: Word)
      requires Ready()
      requires !HasTable(virt) ==> RoomForTable()
      modifies this`heapCurr, ram
      ensures Wf(ram[..], FrameNumber(pageDirectory), FrameNumber(heapStart), FrameNumber(heapCurr))
      ensures Remaps(old(ram[..]), ram[..], pageDirectory, virt, phys) <==> old(HasTable(virt) || CleanBlock(virt))
      ensures old(heapCurr) % PAGE_SIZE == 0 ==> Remaps(old(ram[..]), ram[..], pageDirectory, virt, phys)
      ensures heapCurr == if old(HasTable(virt)) then old(heapCurr) else Align4(old(heapCurr)) + PAGE_SIZE
      ensures HasTable(virt)
      ensures OtherEntriesKept(old(ram[..]), ram[..], FrameNumber(pageDirectory), DirectoryIndex(virt))
      ensures UserEntry(virt)
      ensures if old(HasTable(virt)) then DirectoryEntryOf(virt) == old(DirectoryEntryOf(virt)) else DirectoryEntryOf(virt) % 8 == 7
      ensures old(heapCurr) % PAGE_SIZE == 0 && old(AllUser(ram[..], FrameNumber(pageDirectory))) ==>
                AllUser(ram[..], FrameNumber(pageDirectory))
    {
      ghost var m, block := ram[..], Align4(heapCurr);
      var pdIndex := DirectoryIndex(virt);
      var entry := LoadEntry(pageDirectory + 4 * pdIndex, FrameNumber(pageDirectory), pdIndex);
      if Present(entry) {
        SetPage(virt, phys);
      } else {
        BlockStart(heapCurr);
        var newTable := AllocateTable(block);
        LinkTable(virt, newTable, FrameNumber(block));
        ghost var m1 := ram[..];
        SetPage(virt, phys);
        LinkThenSet(m, m1, ram[..], pageDirectory, FrameNumber(block), block / 4, virt, phys);
        AlignedBlock(m, old(heapCurr), TableIndex(virt));
      }
    }

    /** Mark every directory entry absent. */
    method ClearDirectory()
      requires !paging && HeapReachable()
      requires heapStart == HEAP_START && heapEnd == HEAP_END && pageDirectory == DIRECTORY * PAGE_SIZE
      modifies ram
      ensures InitDirectory(ram[..], 0)
    {
      var i := 0;
      while i < 1024
        invariant 0 <= i <= 1024
        invariant forall k :: 0 <= k < i ==> Entry(ram[..], DIRECTORY, k) == 2
      {
        StoreEntry(pageDirectory + 4 * i, 2, DIRECTORY, i);
        i := i + 1;
      }
    }

    /** The table just filled and the entry just written extend what `Init` has set up. */
    static lemma TableFilled(m0: seq<Word>, m1: seq<Word>, m2: seq<Word>, i: int)
      requires 0 <= i < 32
      requires InitDirectory(m0, i) && forall k :: 0 <= k < i ==> InitTable(m0, k, 1024)
      requires DiffersOnlyIn(m0, m1, InitTableFrame(i)) && InitTable(m1, i, 1024)
      requires DiffersOnlyIn(m1, m2, DIRECTORY)
      requires forall j :: 0 <= j < 1024 ==>
                 Entry(m2, DIRECTORY, j) == if j == i then InitTableFrame(i) * PAGE_SIZE + 7 else Entry(m1, DIRECTORY, j)
      ensures InitDirectory(m2, i + 1)
      ensures forall k :: 0 <= k <= i ==> InitTable(m2, k, 1024)
    {
      forall k | 0 <= k <= i ensures InitTable(m2, k, 1024) {
        if k < i {
          assert InitTable(m0, k, 1024);
          OtherFrame(m0, m1, InitTableFrame(i), InitTableFrame(k));
        }
        assert InitTable(m1, k, 1024);
        OtherFrame(m1, m2, DIRECTORY, InitTableFrame(k));
      }
      OtherFrame(m0, m1, InitTableFrame(i), DIRECTORY);
      forall k | 0 <= k < 1024
        ensures DirectoryEntry(m2, DIRECTORY, k) == if k < i + 1 then InitTableFrame(k) * PAGE_SIZE + 7 else 2
      {
        assert Entry(m1, DIRECTORY, k) == Entry(m0, DIRECTORY, k) == DirectoryEntry(m0, DIRECTORY, k);
      }
    }

    /** One turn of the loop of `Init`: fill a table with the identity, then link it. */
    method FillTable(i: int, table: Word)
      requires 0 <= i < 32 && !paging && HeapReachable()
      requires heapStart == HEAP_START && heapEnd == HEAP_END && pageDirectory == DIRECTORY * PAGE_SIZE
      requires table == InitTableFrame(i) * PAGE_SIZE
      requires InitDirectory(ram[..], i)
      requires forall k :: 0 <= k < i ==> InitTable(ram[..], k, 1024)
      modifies ram
      ensures InitDirectory(ram[..], i + 1)
      ensures forall k :: 0 <= k <= i ==> InitTable(ram[..], k, 1024)
    {
      ghost var m0 := ram[..];
      var j := 0;
      while j < 1024
        invariant 0 <= j <= 1024
        invariant DiffersOnlyIn(m0, ram[..], InitTableFrame(i))
        invariant InitTable(ram[..], i, j)
      {
        var address := i * 4 * 1024 * 1024 + j * 4096;
        EntryForFrame(i * 1024 + j);
        StoreEntry(table + 4 * j, WithFlags(address), InitTableFrame(i), j);
        j := j + 1;
      }
      ghost var m1 := ram[..];
      EntryForFrame(InitTableFrame(i));
      StoreEntry(pageDirectory + 4 * i, WithFlags(table), DIRECTORY, i);
      TableFilled(m0, m1, ram[..], i);
    }

    /** The loop of `Init`: 32 tables, each in the second half of its block. */
    method FillTables()
      requires !paging && HeapReachable() && heapStart == HEAP_START && heapEnd == HEAP_END
      requires heapCurr == HEAP_START + 8192 && pageDirectory == DIRECTORY * PAGE_SIZE && InitDirectory(ram[..], 0)
      modifies this`heapCurr, ram
      ensures HeapReachable() && heapCurr == TOP_AFTER_INIT * PAGE_SIZE
      ensures InitDirectory(ram[..], 32) && forall i :: 0 <= i < 32 ==> InitTable(ram[..], i, 1024)
    {
      var i := 0;
      while i < 32
        invariant 0 <= i <= 32 && HeapReachable()
        invariant heapCurr == HEAP_START + 8192 * (i + 1)
        invariant InitDirectory(ram[..], i)
        invariant forall k :: 0 <= k < i ==> InitTable(ram[..], k, 1024)
      {
        var rawTable := Kmalloc(8192);
        FillTable(i, FrameBase(Add(rawTable, 4096)));
        i := i + 1;
      }
    }

    /** `PageTableManager::Init`: the first 128 MB mapped to themselves, everything else unmapped. */
    method PagingInit()
      requires !paging && heapStart == heapCurr == HEAP_START && heapEnd == HEAP_END <= 4 * ram.Length
      modifies this`heapCurr, this`pageDirectory, this`paging, ram
      ensures paging && Valid()
      ensures pageDirectory == DIRECTORY * PAGE_SIZE && heapCurr == TOP_AFTER_INIT * PAGE_SIZE
      ensures Count(ram[..], DIRECTORY, 1024) == 32
      ensures forall i :: 0 <= i < 1024 ==> (Linked(ram[..], DIRECTORY, i) <==> i < 32)
      ensures AllUser(ram[..], DIRECTORY)
      ensures forall v: Word :: Translate(ram[..], pageDirectory, v) == BootTranslation(0, 0, v)
    {
      var raw := Kmalloc(8192);
      pageDirectory := FrameBase(Add(raw, 4096));
      ClearDirectory();
      FillTables();
      InitTranslates(ram[..]);
      InitUser(ram[..]);
      BootIdentity(ram[..], pageDirectory, 0, 0);
      paging := true;
    }

    /** The bump pointer stands right after the blocks of `Init` and one page per table linked since. */
    ghost predicate Booting()
      reads this, ram
    {
      && paging && Valid() && heapStart == HEAP_START && heapEnd == HEAP_END
      && pageDirectory == DIRECTORY * PAGE_SIZE
      && heapCurr == (TOP_AFTER_INIT + Count(ram[..], DIRECTORY, 1024) - 32) * PAGE_SIZE
    }

    /** `MapMemory` with a page-aligned bump pointer. */
    method MapAligned(v: Word, ghost dir: PageFrame)
      requires Valid() && dir == FrameNumber(pageDirectory)
      requires !Linked(ram[..], dir, DirectoryIndex(v)) ==> heapCurr + PAGE_SIZE < heapEnd
      modifies this`heapCurr, ram
      ensures Wf(ram[..], dir, FrameNumber(heapStart), FrameNumber(heapCurr))
      ensures Remaps(old(ram[..]), ram[..], pageDirectory, v, v)
      ensures old(AllUser(ram[..], dir)) ==> AllUser(ram[..], dir)
      ensures heapCurr == old(heapCurr) + if Linked(old(ram[..]), dir, DirectoryIndex(v)) then 0 else PAGE_SIZE
      ensures OtherEntriesKept(old(ram[..]), ram[..], dir, DirectoryIndex(v)) && Linked(ram[..], dir, DirectoryIndex(v))
    {
      AlignedStays(heapCurr);
      MapMemory(v, v);
    }

    /** Mapping a page to itself: a table is allocated only for an absent directory entry. */
    method MapIdentity(v: Word)
      requires Booting()
      modifies this`heapCurr, ram
      ensures Wf(ram[..], DIRECTORY, FrameNumber(heapStart), FrameNumber(heapCurr))
      ensures heapCurr == (TOP_AFTER_INIT + Count(ram[..], DIRECTORY, 1024) - 32) * PAGE_SIZE
      ensures heapCurr % PAGE_SIZE == 0 && heapCurr <= heapEnd
      ensures Remaps(old(ram[..]), ram[..], pageDirectory, v, v)
      ensures old(AllUser(ram[..], DIRECTORY)) ==> AllUser(ram[..], DIRECTORY)
    {
      ghost var m := ram[..];
      ghost var i := DirectoryIndex(v);
      if !Linked(m, DIRECTORY, i) {
        RoomBefore(m, i, heapCurr);
      }
      MapAligned(v, DIRECTORY);
      CountedBump(m, ram[..], i, old(heapCurr), heapCurr);
    }

    /** One turn of the framebuffer loop: the kernel heap never runs out. */
    method MapFramebufferPage(fb: Word, offset: Word)
      requires Booting() && offset % PAGE_SIZE == 0 && offset + PAGE_SIZE < TWO_32
      requires forall v: Word :: Translate(ram[..], pageDirectory, v) == BootTranslation(fb, offset, v)
      modifies this`heapCurr, ram
      ensures Booting() && (old(AllUser(ram[..], DIRECTORY)) ==> AllUser(ram[..], DIRECTORY))
      ensures forall v: Word :: Translate(ram[..], pageDirectory, v) == BootTranslation(fb, offset + PAGE_SIZE, v)
    {
      ghost var m := ram[..];
      MapIdentity(Add(fb, offset));
      BootStep(m, ram[..], pageDirectory, fb, offset);
      BootIdentity(ram[..], pageDirectory, fb, offset + PAGE_SIZE);
    }

    method MapFramebuffer(fb: Word, fbSize: Word)
      requires Booting() && fbSize <= 0xFFFF_F000
      requires forall v: Word :: Translate(ram[..], pageDirectory, v) == BootTranslation(0, 0, v)
      modifies this`heapCurr, ram
      ensures Booting() && (old(AllUser(ram[..], DIRECTORY)) ==> AllUser(ram[..], DIRECTORY))
      ensures forall v: Word :: Translate(ram[..], pageDirectory, v) == BootTranslation(fb, fbSize, v)
    {
      var offset: Word := 0;
      NothingMappedYet(fb);
      while offset < fbSize
        invariant offset % PAGE_SIZE == 0 && Steps(offset) <= Steps(fbSize)
        invariant Booting() && (old(AllUser(ram[..], DIRECTORY)) ==> AllUser(ram[..], DIRECTORY))
        invariant forall v: Word :: Translate(ram[..], pageDirectory, v) == BootTranslation(fb, offset, v)
      {
        NextOffset(offset, fbSize);
        MapFramebufferPage(fb, offset);
        offset := Add(offset, 4096);
      }
      LastOffset(offset, fbSize);
    }

    /** `kernel_main` up to the end of the framebuffer loop. */
    method Boot(fb: Word, height: Word, pitch: Word)
      requires HEAP_END <= 4 * ram.Length && !paging
      requires FramebufferSize(height, pitch) <= 0xFFFF_F000  // or the loop never ends, see LoopEnds
      modifies this, ram
      ensures paging && Valid() && heapEnd == HEAP_END && pageDirectory == DIRECTORY * PAGE_SIZE
      ensures forall v: Word :: Translate(ram[..], pageDirectory, v) ==
                                BootTranslation(fb, FramebufferSize(height, pitch), v)
      ensures heapCurr <= (TOP_AFTER_INIT + 992) * PAGE_SIZE
      ensures AllUser(ram[..], DIRECTORY)
    {
      HeapInit(0x00A0_0000, 0x00A0_0000);
      PagingInit();
      MapFramebuffer(fb, FramebufferSize(height, pitch));
    }

    // ----- Where `MapMemory` does more than it should -----

    /**
      Allocate one word and store a 7 in it.  Nothing is mapped differently, but a table that is
      allocated next is not clean.
    */
    method AllocateWord(ghost top: int)
      requires Booting() && Count(ram[..], DIRECTORY, 1024) < 1000 && heapCurr == top * PAGE_SIZE
      modifies this`heapCurr, ram
      ensures Ready() && heapStart == old(heapStart) && heapCurr == top * PAGE_SIZE + 4 && RoomForTable()
      ensures SameTranslation(old(ram[..]), ram[..], pageDirectory)
      ensures forall d :: 0 <= d < 1024 ==> DirectoryEntry(ram[..], DIRECTORY, d) == old(DirectoryEntry(ram[..], DIRECTORY, d))
      ensures 0 <= top && (top + 1) * 1024 <= |ram[..]| && Entry(ram[..], top, 0) == 7
    {
      ghost var m := ram[..];
      AlignedStays(heapCurr);
      var p := Kmalloc(4);
      StoreWord(p, 7, top * 1024);
      NoticesNothing(m, ram[..], DIRECTORY, FrameNumber(heapStart), top);
      ScribbleFree(m, ram[..], DIRECTORY, FrameNumber(heapStart), top);
      SameWalkTranslates(m, ram[..], pageDirectory);
      BehindWord(heapCurr, top);
    }

    lemma WordLeftOver(curr: Word, top: int, v: Word)
      requires curr == top * PAGE_SIZE + 4 && 0 <= top && (top + 1) * 1024 <= |ram[..]| && Entry(ram[..], top, 0) == 7
      requires TableIndex(v) != 0
      ensures !Clean(ram[..], FrameNumber(Align4(curr)), Align4(curr) / 4, TableIndex(v))
    {
      BehindWord(curr, top);
      assert LeftOver(ram[..], top, top * 1024 + 1, 0);
    }

    lemma NotRemapped(m: seq<Word>, m1: seq<Word>, m2: seq<Word>, v: Word)
      requires SameTranslation(m, m1, pageDirectory) && !Remaps(m1, m2, pageDirectory, v, v)
      ensures !Remaps(m, m2, pageDirectory, v, v)
    {}

    /**
      In every state of booting with fewer than 1000 tables: after one allocation of a word,
      mapping a page that needs a new table, other than the first of its 4 MBytes, maps a second one too.
    */
    method MapBehindWord(v: Word)
      requires Booting() && !HasTable(v) && TableIndex(v) != 0 && Count(ram[..], DIRECTORY, 1024) < 1000
      modifies this`heapCurr, ram
      ensures !Remaps(old(ram[..]), ram[..], pageDirectory, v, v)
    {
      ghost var m, top := ram[..], FrameNumber(heapCurr);
      AllocateWord(top);
      ghost var m1 := ram[..];
      WordLeftOver(heapCurr, top, v);
      MapMemory(v, v);
      NotRemapped(m, m1, ram[..], v);
    }

    /** Such a state is there right after `Init`: for any page above 128 MB but the first of its 4 MBytes. */
    method InitThenMapBehindWord(v: Word)
      requires HEAP_END <= 4 * ram.Length && !paging && v >= LOW_MEMORY && TableIndex(v) != 0
      modifies this, ram
      ensures !InitAndPage(ram[..], pageDirectory, v)
    {
      HeapInit(0x00A0_0000, 0x00A0_0000);
      PagingInit();
      ghost var m := ram[..];
      AddressParts(v);
      MapBehindWord(v);
      MoreThanPage(m, ram[..], pageDirectory, v);
    }
  }

  // ----- What the boot mapping means for the framebuffer -----

  lemma LastFrame(fb: Word, size: Word)
    requires 0 < size && fb + size <= TWO_32
    ensures FramesAbove(fb, fb + size - 1) < Steps(size) <==> fb % PAGE_SIZE + (size - 1) % PAGE_SIZE < PAGE_SIZE
  {
    var a, b, c, d := fb / PAGE_SIZE, fb % PAGE_SIZE, (size - 1) / PAGE_SIZE, (size - 1) % PAGE_SIZE;
    assert fb + size - 1 == (a + c) * PAGE_SIZE + (b + d);
    assert Steps(size) == c + 1;
  }

  lemma RegionMapped(fb: Word, size: Word)
    requires fb + size <= TWO_32
    ensures (forall v: Word :: fb <= v < fb + size ==> BootTranslation(fb, size, v) == Some(v))
            <==> size == 0 || fb + size <= LOW_MEMORY || fb % PAGE_SIZE + (size - 1) % PAGE_SIZE < PAGE_SIZE
  {
    if 0 < size {
      var last := fb + size - 1;
      LastFrame(fb, size);
      assert fb <= last < fb + size;
      if BootTranslation(fb, size, last) == Some(last) {
        forall v: Word | fb <= v < fb + size ensures BootTranslation(fb, size, v) == Some(v) {
          assert FramesAbove(fb, v) <= FramesAbove(fb, last);
        }
      }
    }
  }

  /**
    Every byte of the framebuffer is mapped to itself exactly when it is empty, or ends
    within the first 128 MB, or the page offsets of its first byte and of its last byte
    (counted from the start) add up to less than a page.  The last case holds for every
    page-aligned address; otherwise the loop can stop one page early.
  */
  lemma FramebufferMapped(fb: Word, height: Word, pitch: Word)
    requires height * pitch < TWO_32 && fb + height * pitch <= TWO_32
    ensures (forall v: Word :: fb <= v < fb + height * pitch ==>
               BootTranslation(fb, FramebufferSize(height, pitch), v) == Some(v))
            <==> (|| height * pitch == 0
                  || fb + height * pitch <= LOW_MEMORY
                  || fb % PAGE_SIZE + (height * pitch - 1) % PAGE_SIZE < PAGE_SIZE)
  {
    assert 0 <= height * pitch;
    assert FramebufferSize(height, pitch) == height * pitch;
    RegionMapped(fb, height * pitch);
  }

  /**
    A framebuffer of 4096-byte rows that does not start at a page boundary: its last byte is not
    mapped.  So it is with one row at 0xE0000800.
  */
  lemma LastByteUnmapped(fb: Word, height: Word)
    requires 0 < height && fb + height * PAGE_SIZE <= TWO_32
    requires fb % PAGE_SIZE != 0 && LOW_MEMORY < fb + height * PAGE_SIZE
    ensures BootTranslation(fb, FramebufferSize(height, PAGE_SIZE), fb + height * PAGE_SIZE - 1) == None
    ensures BootTranslation(0xE000_0800, FramebufferSize(1, PAGE_SIZE), 0xE000_17FF) == None
  {
    InFrame(height - 1, PAGE_SIZE - 1);
    assert height * PAGE_SIZE - 1 == (height - 1) * PAGE_SIZE + (PAGE_SIZE - 1);
    LastFrame(fb, height * PAGE_SIZE);
  }

  /** The loop counter `offset` reaches the framebuffer size exactly when that size is at most 0xFFFFF000. */
  lemma LoopEnds(size: Word)
    ensures (exists k: nat :: Add(0, PAGE_SIZE * k) >= size) <==> size <= 0xFFFF_F000
  {
    if size <= 0xFFFF_F000 {
      assert Add(0, PAGE_SIZE * 0xF_FFFF) >= size;
    }
  }

  /**
    The block that `MapMemory` clears is the table the walk will read exactly when the
    bump pointer was page aligned: the low bits of its address do not survive in the entry.
  */
  lemma TableAddressKept(block: Word)
    ensures FrameBase(WithFlags(block)) == block <==> block % PAGE_SIZE == 0
  {}
}
