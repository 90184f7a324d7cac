/**
  `malloc` of programs/main.cpp over the break of syscall 45 (src/core/interrupts.cpp):
  new blocks go to the front of the list.
*/
module UserHeap {
  import opened Machine32
  import opened Bytes
  import opened FirstFitHeap
  import opened InBandHeap
  import opened HeapCalls

  const HEAP_BASE: Word := 0x80_0000
  const BREAK_LIMIT: Word := 0x800_0000  // 128 MB

  /** Syscall 45: the new break and the result, the old break or null. */
  function SbrkResult(brk: Word, incr: Word): (Word, Word) {
    if Add(brk, incr) >= BREAK_LIMIT then (brk, 0) else (Add(brk, incr), brk)
  }

  /** The 32-bit sum of break, header and size does not come back below the limit. */
  predicate Sums(brk: int, size: Word) {
    brk + HEADER + size < TWO_32 || brk + HEADER + size >= TWO_32 + BREAK_LIMIT
  }

  /** For a block of `size` bytes, a granted break covers header and payload exactly under that condition. */
  lemma SbrkGrantsBlock(brk: Word, size: Word)
    requires 0 < brk < BREAK_LIMIT
    ensures var (brk', ret) := SbrkResult(brk, Add(HEADER, size));
            (ret != 0 ==> brk' == ret + HEADER + size) <==> Sums(brk, size)
    ensures Sums(brk, size) ==>
              SbrkResult(brk, Add(HEADER, size)) ==
              if brk + HEADER + size < BREAK_LIMIT then (brk + HEADER + size, brk) else (brk, 0)
  {
    var sum := brk + HEADER + size;
    if sum < TWO_32 {
      assert Add(brk, Add(HEADER, size)) == sum;
    } else {
      assert Add(brk, Add(HEADER, size)) == sum - TWO_32;
    }
  }

  /** The user program's heap: the memory below 128 MB, and blocks from 8 MB on. */
  ghost predicate IsUserHeap(u: HeapMemory) {
    u.order == NewestFirst && u.base == HEAP_BASE && u.limit == BREAK_LIMIT
  }

  method Sbrk(u: HeapMemory, incr: Word) returns (ret: Word)
    modifies u`brk
    ensures (u.brk, ret) == SbrkResult(old(u.brk), incr)
  {
    var oldBreak := u.brk;
    u.brk := Add(u.brk, incr);
    if u.brk >= 128 * 1024 * 1024 {
      u.brk := oldBreak;
      ret := 0;
    } else {
      ret := oldBreak;
    }
  }

  /** Walk the in-band list for the first free block that is large enough. */
  method Search(u: HeapMemory, size: Word) returns (curr: Word)
    requires u.Valid()
    ensures curr == NodeAt(u.blocks, FirstFit(u.blocks, size))
    ensures curr == 0 <==> FirstFit(u.blocks, size) == |u.blocks|
  {
    curr := u.head;
    ghost var i := 0;
    u.HeadIsNull();
    while curr != 0
      invariant 0 <= i <= |u.blocks| && curr == NodeAt(u.blocks, i) && (curr == 0 <==> i == |u.blocks|)
      invariant forall j :: 0 <= j < i ==> !u.blocks[j].Fits(size)
      decreases |u.blocks| - i
    {
      var blockSize, free, next := u.ReadHeader(curr, i);
      if free && blockSize >= size {
        return;
      }
      curr := next;
      i := i + 1;
    }
  }

  /** Write the header of a new block, where the break was in heap `h`, and put it first. */
  method AddFirst(u: HeapMemory, block: Word, size: Word, ghost h: Heap, ghost p: int)
    requires u.limit <= u.mem.Length && Wf(h) && h == u.Abs().(brk := block) && u.order == NewestFirst
    requires u.head == NodeAt(u.blocks, 0) && Holds(u.mem[..], u.blocks)
    requires CanGrow(h, size) && u.brk == block + HEADER + size && p == block + HEADER
    modifies u`head, u`blocks, u.mem
    ensures u.Valid() && u.Abs() == Grow(h, size)
    ensures u.Live() == old(u.Live())[p := PayloadAt(u.mem[..], p)]
    ensures |PayloadAt(u.mem[..], p)| == size
  {
    ghost var m := u.mem[..];
    u.WriteHeader(block, size, u.head);
    u.head := block;
    u.blocks := Grow(h, size).blocks;
    AddedInFront(m, u.mem[..], h, size, p);
    assert u.Abs() == Grow(h, size);
  }

  /** Ask the kernel for a block of `size` bytes; a refusal changes nothing. */
  method Extend(u: HeapMemory, size: Word) returns (p: Word)
    requires u.Valid() && IsUserHeap(u) && Sums(u.brk, size)
    requires FirstFit(u.blocks, size) == |u.blocks|
    modifies u, u.mem
    ensures u.Valid()
    ensures (u.Abs(), p) == FirstFitHeap.Malloc(old(u.Abs()), size)
    ensures p == 0 ==> u.mem[..] == old(u.mem[..])
    ensures Allocated(old(u.Live()), u.Live(), size, p)
  {
    ghost var h, m := u.Abs(), u.mem[..];
    SbrkGrantsBlock(u.brk, size);
    var totalSize := Add(HEADER, size);
    var newBlock := Sbrk(u, totalSize);
    if newBlock == 0 {
      return 0;
    }
    p := newBlock + HEADER;
    AddFirst(u, newBlock, size, h, p);
    Obtained(m, u.mem[..], h, size, p);
  }

  /** A free block fits, or the kernel's sum does not wrap: otherwise the block would be too short. */
  predicate Answerable(h: Heap, size: Word) { FirstFit(h.blocks, size) < |h.blocks| || Sums(h.brk, size) }

  /**
    `malloc`: the result is null and nothing changes, or it is a pointer the program did
    not own, to at least `size` bytes, and every byte it did own is unchanged.
  */
  method Malloc(u: HeapMemory, size: Word) returns (p: Word)
    requires u.Valid() && IsUserHeap(u)
    requires Answerable(u.Abs(), size)
    modifies u, u.mem
    ensures u.Valid()
    ensures (u.Abs(), p) == FirstFitHeap.Malloc(old(u.Abs()), size)
    ensures p == 0 ==> u.mem[..] == old(u.mem[..])
    ensures Allocated(old(u.Live()), u.Live(), size, p)
  {
    var curr := Search(u, size);
    if curr != 0 {
      p := u.Take(curr, size);
    } else {
      p := Extend(u, size);
    }
  }

  // ----- Whole programs -----

  ghost predicate Possible(s: Owned, c: Call) {
    !c.AskZeroed? && !c.Reask? && (c.Ask? ==> Answerable(s.heap, c.size))
  }

  /** A program of this library: `malloc`, `free` and payload writes, on what it owns. */
  ghost predicate Runs(s: Owned, cs: seq<Call>)
    requires LawfulAll(s, cs)
    decreases |cs|
  {
    cs != [] ==> Possible(s, cs[0]) && Runs(Apply(s, cs[0]), cs[1..])
  }

  method RunAsk(u: HeapMemory, c: Call, ghost s: Owned) returns (p: Word)
    requires u.Serves(s) && IsUserHeap(u) && c.Ask? && Possible(s, c)
    modifies u, u.mem
    ensures u.Serves(Apply(s, c)) && p == Answer(s, c).1
  {
    ghost var live := u.Live();
    p := Malloc(u, c.size);
    u.BlockSize(p);
    ObtainAgrees(live, u.Live(), s, (u.Abs(), p), 0);
  }

  /** One call on the memory itself: heap, answer, and all bytes the program knows. */
  method RunOp(u: HeapMemory, c: Call, ghost s: Owned) returns (p: Word)
    requires u.Serves(s) && IsUserHeap(u) && Lawful(s, c) && Possible(s, c)
    modifies u, u.mem
    ensures u.Serves(Apply(s, c)) && p == Answer(s, c).1
  {
    match c
    case Ask(_) => p := RunAsk(u, c, s);
    case GiveBack(_) => p := u.RunGiveBack(c, s);
    case Put(_, _, _) => p := u.RunPut(c, s);
  }

  /**
    Any run of `malloc`, `free` and payload writes, on the memory itself: the blocks tile the
    range, the answers are those of the abstract heap, and every byte the program has written
    or knew stands where it was put.
  */
  method RunProgram(u: HeapMemory, cs: seq<Call>, ghost s: Owned) returns (answers: seq<int>)
    requires u.Serves(s) && IsUserHeap(u) && LawfulAll(s, cs) && Runs(s, cs)
    modifies u, u.mem
    ensures u.Serves(ApplyAll(s, cs)) && answers == Answers(s, cs)
    decreases |cs|
  {
    if cs == [] {
      return [];
    }
    var p := RunOp(u, cs[0], s);
    var rest := RunProgram(u, cs[1..], Apply(s, cs[0]));
    answers := [p] + rest;
  }

  /** A pointer the program does not free holds its bytes after the run, with the program's writes over them. */
  method RunAndKeep(u: HeapMemory, cs: seq<Call>, ghost q: int)
    requires u.Valid() && IsUserHeap(u) && q in u.Live() && Keeps(cs, q)
    requires var s := Owned(u.Abs(), AllKnown(u.Live())); LawfulAll(s, cs) && Runs(s, cs)
    modifies u, u.mem
    ensures u.Valid() && q in u.Live() && u.Live()[q] == Written(old(u.Live()[q]), q, cs)
  {
    ghost var s, bytes := Owned(u.Abs(), AllKnown(u.Live())), u.Live()[q];
    AllKnownAgrees(u.Live());
    var _ := RunProgram(u, cs, s);
    RunKeeps(s, cs, q, bytes);
    CertainFits(Written(bytes, q, cs), u.Live()[q]);
  }

  /** When every request has the same size, the break ends at the peak number of live blocks. */
  method RunOneSize(u: HeapMemory, cs: seq<Call>, size: nat)
    requires u.Valid() && IsUserHeap(u) && u.blocks == []
    requires var s := Owned(u.Abs(), map[]); LawfulAll(s, cs) && Runs(s, cs) && RequestsOfSize(AllOps(s, cs), size)
    modifies u, u.mem
    ensures u.Valid()
    ensures u.brk == HEAP_BASE + Peak(old(u.Abs()), AllOps(Owned(old(u.Abs()), map[]), cs)) * (HEADER + size)
  {
    ghost var s := Owned(u.Abs(), map[]);
    var _ := RunProgram(u, cs, s);
    ApplyAllIsRun(s, cs);
    Footprint(s.heap, AllOps(s, cs), size);
  }
}
