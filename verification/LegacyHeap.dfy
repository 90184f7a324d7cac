/**
  `malloc`, `calloc` and `realloc` of legacy_v1/sdk/stdlib.cpp: sizes rounded to 8 bytes,
  new blocks at the end of the list, and the break behind a system call that answers -1 when
  it cannot grow.
*/
module LegacyHeap {
  import opened Machine32
  import opened Bytes
  import opened FirstFitHeap
  import opened InBandHeap
  import opened HeapCalls

  const SBRK_FAILED: Word := 0xFFFF_FFFF  // (void*)-1

  /** The kernel's side of `sbrk`: grow below the limit, or answer -1. */
  method Sbrk(u: HeapMemory, incr: Word) returns (ret: Word)
    requires u.brk + incr < TWO_32
    modifies u`brk
    ensures if old(u.brk) + incr < u.limit then ret == old(u.brk) && u.brk == old(u.brk) + incr
            else ret == SBRK_FAILED && u.brk == old(u.brk)
  {
    if u.brk + incr < u.limit {
      ret := u.brk;
      u.brk := u.brk + incr;
    } else {
      ret := SBRK_FAILED;
    }
  }

  /** The address of the last node, or null. */
  ghost function LastNode(bs: seq<Block>, i: nat): int
    requires i <= |bs|
  {
    if i == 0 then 0 else bs[i - 1].addr
  }

  /** First-fit search, remembering the last node passed. */
  method Search(u: HeapMemory, size: Word) returns (current: Word, last: Word)
    requires u.Valid()
    ensures current == NodeAt(u.blocks, FirstFit(u.blocks, size))
    ensures current == 0 <==> FirstFit(u.blocks, size) == |u.blocks|
    ensures current == 0 ==> last == LastNode(u.blocks, |u.blocks|)
  {
    current, last := u.head, 0;
    ghost var i := 0;
    u.HeadIsNull();
    while current != 0
      invariant 0 <= i <= |u.blocks| && current == NodeAt(u.blocks, i) && (current == 0 <==> i == |u.blocks|)
      invariant last == LastNode(u.blocks, i)
      invariant forall j :: 0 <= j < i ==> !u.blocks[j].Fits(size)
      decreases |u.blocks| - i
    {
      var blockSize, free, next := u.ReadHeader(current, i);
      if free && blockSize >= size {
        return;
      }
      last := current;
      current := next;
      i := i + 1;
    }
  }

  /** Lead from the last node, or the head, to the new one. */
  method LinkNode(u: HeapMemory, ghost m: seq<Byte>, ghost h: Heap, block: Word, last: Word, ghost size: Word)
    requires h.order.OldestFirst? && Wf(h) && h.limit <= u.mem.Length && block == h.brk && CanGrow(h, size)
    requires last == LastNode(h.blocks, |h.blocks|) && u.head == NodeAt(h.blocks, 0)
    requires HeaderAt(u.mem[..], Block(block, size, false), 0) && OnlyChanged(m, u.mem[..], h.brk, h.brk + HEADER)
    modifies u`head, u.mem
    ensures OnlyLastLinkChanged(m, u.mem[..], h.blocks, block) && HeaderAt(u.mem[..], Block(block, size, false), 0)
    ensures u.head == if h.blocks == [] then block else NodeAt(h.blocks, 0)
  {
    ghost var m1 := u.mem[..];
    WfLayout(h);
    if last != 0 {
      u.Write32(last + NEXT, block);
      HeaderKept(m1, u.mem[..], Block(block, size, false), 0);
    } else {
      u.head := block;
    }
    LinkFrame(m, u.mem[..], h, block);
  }

  /** Write the header of a new block, where the break was in heap `h`, and link it behind `last`. */
  method AddLast(u: HeapMemory, block: Word, last: Word, size: Word, ghost h: Heap, ghost p: int)
    requires u.limit <= u.mem.Length && Wf(h) && h == u.Abs().(brk := block) && u.order == OldestFirst
    requires u.head == NodeAt(u.blocks, 0) && Holds(u.mem[..], u.blocks)
    requires last == LastNode(u.blocks, |u.blocks|)
    requires CanGrow(h, size) && u.brk == block + HEADER + size && p == block + HEADER
    modifies u`head, u`blocks, u.mem
    ensures u.Valid() && u.Abs() == Grow(h, size)
    ensures u.Live() == old(u.Live())[p := PayloadAt(u.mem[..], p)]
    ensures |PayloadAt(u.mem[..], p)| == size
  {
    ghost var m := u.mem[..];
    u.WriteHeader(block, size, 0);
    LinkNode(u, m, h, block, last, size);
    u.blocks := Grow(h, size).blocks;
    AddedBehind(m, u.mem[..], h, size, p);
    assert u.Abs() == Grow(h, size);
  }

  method Extend(u: HeapMemory, last: Word, size: Word) returns (p: Word)
    requires u.Valid() && u.order == OldestFirst && u.brk + HEADER + size < TWO_32
    requires last == LastNode(u.blocks, |u.blocks|) && FirstFit(u.blocks, size) == |u.blocks|
    modifies u, u.mem
    ensures u.Valid()
    ensures (u.Abs(), p) == FirstFitHeap.Malloc(old(u.Abs()), size)
    ensures Allocated(old(u.Live()), u.Live(), size, p)
  {
    ghost var h, m := u.Abs(), u.mem[..];
    var block := Sbrk(u, HEADER + size);
    if block == SBRK_FAILED {
      return 0;
    }
    p := block + HEADER;
    AddLast(u, block, last, size, h, p);
    Obtained(m, u.mem[..], h, size, p);
  }

  /** The search and the request to the kernel, for a size that is rounded already. */
  method AllocateAligned(u: HeapMemory, size: Word) returns (p: Word)
    requires u.Valid() && u.order == OldestFirst
    requires FirstFit(u.blocks, size) < |u.blocks| || u.brk + HEADER + size < TWO_32
    modifies u, u.mem
    ensures u.Valid()
    ensures (u.Abs(), p) == FirstFitHeap.Malloc(old(u.Abs()), size)
    ensures Allocated(old(u.Live()), u.Live(), size, p)
  {
    var current, last := Search(u, size);
    if current != 0 {
      p := u.Take(current, size);
    } else {
      p := Extend(u, last, size);
    }
  }

  /** A free block fits, or the new one ends within 32 bits. */
  predicate Answerable(h: Heap, size: Word) {
    FirstFit(h.blocks, Align8(size)) < |h.blocks| || h.brk + HEADER + Align8(size) < TWO_32
  }

  /** The same, for a size that can be rounded up. */
  predicate Sums(h: Heap, size: Word) { size + 7 < TWO_32 && Answerable(h, size) }

  /**
    `malloc`: nothing for zero bytes; otherwise first fit for the rounded size, which is as
    large as the request unless the rounding wraps.
  */
  method Malloc(u: HeapMemory, size: Word) returns (p: Word)
    requires u.Valid() && u.order == OldestFirst && Answerable(u.Abs(), size)
    modifies u, u.mem
    ensures u.Valid()
    ensures size == 0 ==> p == 0 && u.Abs() == old(u.Abs()) && u.Live() == old(u.Live())
    ensures (u.Abs(), p) == Request(old(u.Abs()), size)
    ensures Allocated(old(u.Live()), u.Live(), Align8(size), p)
    ensures size + 7 < TWO_32 ==> Allocated(old(u.Live()), u.Live(), size, p)
  {
    if size == 0 {
      return 0;
    }
    Align8Covers(size);
    p := AllocateAligned(u, Align8(size));
  }

  /** `m` with `bytes` written over it at `dest`. */
  function Splice(m: seq<Byte>, dest: int, bytes: seq<Byte>): seq<Byte>
    requires 0 <= dest && dest + |bytes| <= |m|
  {
    m[..dest] + bytes + m[dest + |bytes|..]
  }

  lemma SpliceOne(m: seq<Byte>, dest: int, bytes: seq<Byte>, v: Byte)
    requires 0 <= dest && dest + |bytes| < |m|
    ensures Splice(m, dest, bytes + [v]) == Splice(m, dest, bytes)[dest + |bytes| := v]
    ensures forall k :: 0 <= k < |m| && !(dest <= k < dest + |bytes|) ==> Splice(m, dest, bytes)[k] == m[k]
  {}

  /** `memset`. */
  method Memset(a: array<Byte>, dest: int, v: Byte, count: Word)
    requires 0 <= dest && dest + count <= a.Length
    modifies a
    ensures a[..] == Splice(old(a[..]), dest, seq(count, _ => v))
  {
    ghost var m := a[..];
    var i := 0;
    while i < count
      invariant 0 <= i <= count
      invariant a[..] == Splice(m, dest, seq(i, _ => v))
    {
      ghost var filled: seq<Byte> := seq(i, _ => v);
      SpliceOne(m, dest, filled, v);
      assert seq(i + 1, _ => v) == filled + [v];
      a[dest + i] := v;
      i := i + 1;
    }
  }

  /** `m` after `n` turns of the copying loop, whether or not the ranges overlap. */
  function CopiedForward(m: seq<Byte>, dest: int, src: int, n: nat): (r: seq<Byte>)
    requires 0 <= dest && dest + n <= |m| && 0 <= src && src + n <= |m|
    ensures |r| == |m|
    ensures forall k :: 0 <= k < |m| && !(dest <= k < dest + n) ==> r[k] == m[k]
    decreases n
  {
    if n == 0 then m
    else
      var r := CopiedForward(m, dest, src, n - 1);
      r[dest + n - 1 := r[src + n - 1]]
  }

  /** The loop never reads a byte that it has changed to another value. */
  predicate SourceLasts(m: seq<Byte>, dest: int, src: int, n: nat)
    requires 0 <= dest && dest + n <= |m| && 0 <= src && src + n <= |m|
  {
    dest <= src || src + n <= dest || forall k :: dest <= k < src + n ==> m[k] == m[k - (dest - src)]
  }

  lemma {:induction false} CopiesSource(m: seq<Byte>, dest: int, src: int, n: nat)
    requires 0 <= dest && dest + n <= |m| && 0 <= src && src + n <= |m| && SourceLasts(m, dest, src, n)
    ensures forall k :: dest <= k < dest + n ==> CopiedForward(m, dest, src, n)[k] == m[k - (dest - src)]
    decreases n
  {
    if n > 0 {
      CopiesSource(m, dest, src, n - 1);
    }
  }

  /** Where the destination lies ahead, the copy repeats the bytes in between. */
  lemma {:induction false} CopiesRepeat(m: seq<Byte>, dest: int, src: int, n: nat)
    requires 0 <= src < dest && dest + n <= |m|
    ensures forall k :: dest <= k < dest + n ==> CopiedForward(m, dest, src, n)[k] == CopiedForward(m, dest, src, n)[k - (dest - src)]
    decreases n
  {
    if n > 0 {
      CopiesRepeat(m, dest, src, n - 1);
    }
  }

  /** The loop copies the source as it was exactly then. */
  lemma CopiesIff(m: seq<Byte>, dest: int, src: int, n: nat)
    requires 0 <= dest && dest + n <= |m| && 0 <= src && src + n <= |m|
    ensures CopiedForward(m, dest, src, n) == Splice(m, dest, m[src..src + n]) <==> SourceLasts(m, dest, src, n)
  {
    var d, r, s := dest - src, CopiedForward(m, dest, src, n), Splice(m, dest, m[src..src + n]);
    if SourceLasts(m, dest, src, n) {
      CopiesSource(m, dest, src, n);
      assert r == s;
    } else if r == s {
      CopiesRepeat(m, dest, src, n);
      forall k | dest <= k < src + n ensures m[k] == m[k - d] {
        assert s[k + d] == m[k] && s[k] == m[k - d] && r[k + d] == r[k + d - d];
      }
    }
  }

  /** `memcpy`, whether or not the ranges overlap. */
  method Memcpy(a: array<Byte>, dest: int, src: int, count: Word)
    requires 0 <= dest && dest + count <= a.Length && 0 <= src && src + count <= a.Length
    modifies a
    ensures a[..] == CopiedForward(old(a[..]), dest, src, count)
  {
    ghost var m := a[..];
    var i := 0;
    while i < count
      invariant 0 <= i <= count
      invariant a[..] == CopiedForward(m, dest, src, i)
    {
      a[dest + i] := a[src + i];
      i := i + 1;
    }
  }

  /** Writing `bytes` at the start of [lo, hi). */
  lemma Overwritten(m: seq<Byte>, m': seq<Byte>, lo: int, hi: int, bytes: seq<Byte>)
    requires 0 <= lo && lo + |bytes| <= hi <= |m|
    requires m' == Splice(m, lo, bytes)
    ensures OnlyChanged(m, m', lo, hi)
    ensures m'[lo..hi] == bytes + m[lo..hi][|bytes|..]
  {}

  /** Zero the first `count` bytes behind a live pointer. */
  method ClearPayload(u: HeapMemory, p: Word, count: Word)
    requires u.Valid() && p in u.Live() && count <= |u.Live()[p]|
    modifies u.mem
    ensures u.Valid() && u.blocks == old(u.blocks)
    ensures u.Live() == old(u.Live())[p := seq(count, _ => 0) + old(u.Live()[p])[count..]]
  {
    ghost var m := u.mem[..];
    ghost var i := LivePointer(m, u.Abs(), p);
    Memset(u.mem, p, 0, count);
    Overwritten(m, u.mem[..], p, u.blocks[i].End(), seq(count, _ => 0));
    LiveWritten(m, u.mem[..], u.Abs(), i);
  }

  /** Two different live payloads lie in memory, apart from each other. */
  lemma CopyBounds(m: seq<Byte>, h: Heap, dest: int, src: int)
    requires Wf(h) && h.brk <= |m| && Holds(m, h.blocks)
    requires dest in LiveBytes(m, h.blocks) && src in LiveBytes(m, h.blocks) && dest != src
    ensures var d, s := |LiveBytes(m, h.blocks)[dest]|, |LiveBytes(m, h.blocks)[src]|;
            && 0 <= dest && dest + d <= |m| && 0 <= src && src + s <= |m|
            && (dest + d <= src || src + s <= dest)
  {
    var d := LivePointer(m, h, dest);
    var s := LivePointer(m, h, src);
    PayloadsApart(h, d, s);
  }

  /** What copying from one live payload to another does to the heap. */
  lemma PayloadCopied(m: seq<Byte>, m': seq<Byte>, h: Heap, dest: int, src: int, count: nat)
    requires Wf(h) && h.brk <= |m| && Holds(m, h.blocks)
    requires dest in LiveBytes(m, h.blocks) && src in LiveBytes(m, h.blocks)
    requires count <= |LiveBytes(m, h.blocks)[dest]| && count <= |LiveBytes(m, h.blocks)[src]|
    requires 0 <= dest && dest + count <= |m| && 0 <= src && src + count <= |m|
    requires m' == Splice(m, dest, m[src..src + count])
    ensures Holds(m', h.blocks)
    ensures var live := LiveBytes(m, h.blocks);
            LiveBytes(m', h.blocks) == live[dest := live[src][..count] + live[dest][count..]]
  {
    var d := LivePointer(m, h, dest);
    var s := LivePointer(m, h, src);
    assert m[src..src + count] == m[src..h.blocks[s].End()][..count];
    Overwritten(m, m', dest, h.blocks[d].End(), m[src..src + count]);
    LiveWritten(m, m', h, d);
  }

  /** Copy the first `count` bytes of one live payload over those of another. */
  method CopyPayload(u: HeapMemory, dest: Word, src: Word, count: Word)
    requires u.Valid() && dest in u.Live() && src in u.Live() && dest != src
    requires count <= |u.Live()[src]| && count <= |u.Live()[dest]|
    modifies u.mem
    ensures u.Valid() && u.blocks == old(u.blocks)
    ensures u.Live() == old(u.Live())[dest := old(u.Live()[src])[..count] + old(u.Live()[dest])[count..]]
  {
    ghost var m := u.mem[..];
    CopyBounds(m, u.Abs(), dest, src);
    Memcpy(u.mem, dest, src, count);
    CopiesIff(m, dest, src, count);
    PayloadCopied(m, u.mem[..], u.Abs(), dest, src, count);
  }

  /** Other bytes in a new payload, as many as before, change nothing about the allocation. */
  lemma StillAllocated(before: map<int, seq<Byte>>, blank: map<int, seq<Byte>>, live: map<int, seq<Byte>>, size: int, p: int)
    requires p != 0 && Allocated(before, blank, size, p) && p in live && |live[p]| == |blank[p]| && live == blank[p := live[p]]
    ensures Allocated(before, live, size, p)
  {
    assert live - {p} == blank - {p};
  }

  /** `calloc`: the first `num * size` (in 32 bits) bytes of the new payload are zero. */
  method Calloc(u: HeapMemory, num: Word, size: Word) returns (p: Word)
    requires u.Valid() && u.order == OldestFirst && Sums(u.Abs(), Total(num, size))
    modifies u, u.mem
    ensures u.Valid()
    ensures (u.Abs(), p) == Request(old(u.Abs()), Total(num, size))
    ensures Allocated(old(u.Live()), u.Live(), Total(num, size), p)
    ensures p != 0 ==> u.Live()[p][..Total(num, size)] == seq(Total(num, size), _ => 0)
  {
    var total := Total(num, size);
    p := Malloc(u, total);
    if p != 0 {
      ghost var blank := u.Live();
      ClearPayload(u, p, total);
      StillAllocated(old(u.Live()), blank, u.Live(), total, p);
    }
  }

  method CopyAndFree(u: HeapMemory, ptr: Word, p: Word, oldSize: Word)
    requires u.Valid() && ptr in u.Live() && p in u.Live() && p != ptr
    requires oldSize == |u.Live()[ptr]| <= |u.Live()[p]|
    modifies u, u.mem
    ensures u.Valid() && u.Abs() == FirstFitHeap.Free(old(u.Abs()), ptr)
    ensures u.Live() == old(u.Live())[p := old(u.Live()[ptr])[..oldSize] + old(u.Live()[p])[oldSize..]] - {ptr}
  {
    CopyPayload(u, p, ptr, oldSize);
    u.Free(ptr);
  }

  /** What becomes of the live pointer `ptr` and of all other live bytes. */
  ghost predicate Reallocated(live: map<int, seq<Byte>>, live': map<int, seq<Byte>>, ptr: int, size: int, p: int)
    requires ptr in live
  {
    if size == 0 then p == 0 && live' == live - {ptr}
    else if size <= |live[ptr]| then p == ptr && live' == live
    else if p == 0 then live' == live
    else && p !in live && p in live' && |live'[p]| >= size
         && live[ptr] <= live'[p]
         && live' - {p} == live - {ptr}
  }

  lemma StillLive(live: map<int, seq<Byte>>, grown: map<int, seq<Byte>>, ptr: int, p: int)
    requires ptr in live && p !in live && p in grown && grown - {p} == live
    ensures ptr in grown && grown[ptr] == live[ptr] && ptr != p
  {
    assert ptr in grown - {p};
  }

  /** The old bytes copied into the new payload, and the old pointer dropped. */
  lemma Moved(live: map<int, seq<Byte>>, grown: map<int, seq<Byte>>, live': map<int, seq<Byte>>, ptr: int, size: int, p: int)
    requires ptr in live && p !in live && p in grown && grown - {p} == live
    requires 0 < size && |live[ptr]| < size <= |grown[p]|
    requires live' == grown[p := live[ptr][..|live[ptr]|] + grown[p][|live[ptr]|..]] - {ptr}
    ensures p != 0 ==> Reallocated(live, live', ptr, size, p)
  {
    assert ptr in grown - {p};
    assert p in live';
    assert forall q :: q in live - {ptr} ==> q in grown - {p} && live[q] == grown[q];
    assert forall q :: q in live' - {p} ==> q in grown - {p} && live'[q] == grown[q];
    assert live' - {p} == live - {ptr};
  }

  /** Ask for a larger block; if there is one, copy the old bytes to it and free the old one. */
  method Relocate(u: HeapMemory, ptr: Word, oldSize: Word, size: Word) returns (p: Word)
    requires u.Valid() && u.order == OldestFirst && ptr in u.Live() && oldSize == |u.Live()[ptr]| < size
    requires Sums(u.Abs(), size)
    modifies u, u.mem
    ensures u.Valid()
    ensures var (grown, q) := Request(old(u.Abs()), size);
            p == q && u.Abs() == if q == 0 then grown else FirstFitHeap.Free(grown, ptr)
    ensures Reallocated(old(u.Live()), u.Live(), ptr, size, p)
  {
    ghost var live := u.Live();
    p := Malloc(u, size);
    if p != 0 {
      ghost var grown := u.Live();
      StillLive(live, grown, ptr, p);
      CopyAndFree(u, ptr, p, oldSize);
      Moved(live, grown, u.Live(), ptr, size, p);
    }
  }

  /**
    `realloc`: the payload keeps its bytes, in place or in a new block, no other payload
    changes, and a failure leaves the old pointer live.
  */
  method Realloc(u: HeapMemory, ptr: Word, size: Word) returns (p: Word)
    requires u.Valid() && u.order == OldestFirst && (ptr == 0 || ptr in u.Live())
    requires (ptr != 0 && size <= |u.Live()[ptr]|) || Sums(u.Abs(), size)
    modifies u, u.mem
    ensures u.Valid()
    ensures (u.Abs(), p) == Resize(old(u.Abs()), ptr, size)
    ensures ptr == 0 ==> Allocated(old(u.Live()), u.Live(), size, p)
    ensures ptr != 0 ==> Reallocated(old(u.Live()), u.Live(), ptr, size, p)
  {
    if ptr == 0 {
      p := Malloc(u, size);
      return;
    }
    if size == 0 {
      u.Free(ptr);
      return 0;
    }
    ghost var i := LivePointer(u.mem[..], u.Abs(), ptr);
    var oldSize := Read32(u.mem[..], ptr - HEADER);
    if oldSize >= size {
      return ptr;
    }
    p := Relocate(u, ptr, oldSize, size);
  }

  // ----- Whole programs -----

  ghost predicate Possible(s: Owned, c: Call) {
    match c
    case Ask(size) => Sums(s.heap, size)
    case AskZeroed(num, size) => Sums(s.heap, Total(num, size))
    case Reask(ptr, size) => (ptr in s.known && size <= |s.known[ptr]|) || Sums(s.heap, size)
    case GiveBack(_) => true
    case Put(_, _, _) => true
  }

  /** A program whose requests cannot wrap the 32-bit sums. */
  ghost predicate Runs(s: Owned, cs: seq<Call>)
    requires LawfulAll(s, cs)
    decreases |cs|
  {
    cs != [] ==> Possible(s, cs[0]) && Runs(Apply(s, cs[0]), cs[1..])
  }

  method RunAsk(u: HeapMemory, c: Call, ghost s: Owned) returns (p: Word)
    requires u.Serves(s) && u.order == OldestFirst && c.Ask? && Possible(s, c)
    modifies u, u.mem
    ensures u.Serves(Apply(s, c)) && p == Answer(s, c).1
  {
    ghost var live := u.Live();
    p := Malloc(u, c.size);
    u.BlockSize(p);
    ObtainAgrees(live, u.Live(), s, (u.Abs(), p), 0);
  }

  lemma StartsWithZeros(bytes: seq<Byte>, n: nat)
    requires n <= |bytes| && bytes[..n] == seq(n, _ => 0)
    ensures Fits(bytes, NewBytes(|bytes|, n))
  {
    assert forall k :: 0 <= k < n ==> bytes[k] == bytes[..n][k];
  }

  method RunAskZeroed(u: HeapMemory, c: Call, ghost s: Owned) returns (p: Word)
    requires u.Serves(s) && u.order == OldestFirst && c.AskZeroed? && Possible(s, c)
    modifies u, u.mem
    ensures u.Serves(Apply(s, c)) && p == Answer(s, c).1
  {
    ghost var live := u.Live();
    p := Calloc(u, c.num, c.size);
    u.BlockSize(p);
    if p != 0 {
      StartsWithZeros(u.Live()[p], Total(c.num, c.size));
    }
    ObtainAgrees(live, u.Live(), s, (u.Abs(), p), Total(c.num, c.size));
  }

  method RunReask(u: HeapMemory, c: Call, ghost s: Owned) returns (p: Word)
    requires u.Serves(s) && u.order == OldestFirst && c.Reask? && Lawful(s, c) && Possible(s, c)
    modifies u, u.mem
    ensures u.Serves(Apply(s, c)) && p == Answer(s, c).1
  {
    ghost var live := u.Live();
    u.NullIsNotLive();
    if c.ptr != 0 {
      ghost var i := LivePointer(u.mem[..], u.Abs(), c.ptr);
    }
    p := Realloc(u, c.ptr, c.size);
    u.BlockSize(p);
    if c.ptr == 0 {
      ObtainAgrees(live, u.Live(), s, (u.Abs(), p), 0);
    } else {
      ReaskedAgrees(live, u.Live(), s, c.ptr, c.size, (u.Abs(), p));
    }
  }

  /** One call on the memory itself: heap, answer, and all bytes the program knows. */
  method RunOp(u: HeapMemory, c: Call, ghost s: Owned) returns (p: Word)
    requires u.Serves(s) && u.order == OldestFirst && Lawful(s, c) && Possible(s, c)
    modifies u, u.mem
    ensures u.Serves(Apply(s, c)) && p == Answer(s, c).1
  {
    match c
    case Ask(_) => p := RunAsk(u, c, s);
    case AskZeroed(_, _) => p := RunAskZeroed(u, c, s);
    case Reask(_, _) => p := RunReask(u, c, s);
    case GiveBack(_) => p := u.RunGiveBack(c, s);
    case Put(_, _, _) => p := u.RunPut(c, s);
  }

  /**
    Any run of `malloc`, `free`, `calloc`, `realloc` and payload writes, on the memory itself:
    the answers are those of the abstract heap, and every byte the program has written, knew,
    or was promised zero stands where it is owned, also after it has moved.
  */
  method RunProgram(u: HeapMemory, cs: seq<Call>, ghost s: Owned) returns (answers: seq<int>)
    requires u.Serves(s) && u.order == OldestFirst && LawfulAll(s, cs) && Runs(s, cs)
    modifies u, u.mem
    ensures u.Serves(ApplyAll(s, cs)) && answers == Answers(s, cs)
    decreases |cs|
  {
    if cs == [] {
      return [];
    }
    var p := RunOp(u, cs[0], s);
    var rest := RunProgram(u, cs[1..], Apply(s, cs[0]));
    answers := [p] + rest;
  }

  /** A pointer the program does not release holds its bytes after the run, with the program's writes over them. */
  method RunAndKeep(u: HeapMemory, cs: seq<Call>, ghost q: int)
    requires u.Valid() && u.order == OldestFirst && q in u.Live() && Keeps(cs, q)
    requires var s := Owned(u.Abs(), AllKnown(u.Live())); LawfulAll(s, cs) && Runs(s, cs)
    modifies u, u.mem
    ensures u.Valid() && q in u.Live() && u.Live()[q] == Written(old(u.Live()[q]), q, cs)
  {
    ghost var s, bytes := Owned(u.Abs(), AllKnown(u.Live())), u.Live()[q];
    AllKnownAgrees(u.Live());
    var _ := RunProgram(u, cs, s);
    RunKeeps(s, cs, q, bytes);
    CertainFits(Written(bytes, q, cs), u.Live()[q]);
  }

  /** When every request rounds to the same size, the break ends at the peak number of live blocks. */
  method RunOneSize(u: HeapMemory, cs: seq<Call>, size: nat)
    requires u.Valid() && u.order == OldestFirst && u.blocks == []
    requires var s := Owned(u.Abs(), map[]); LawfulAll(s, cs) && Runs(s, cs) && RequestsOfSize(AllOps(s, cs), size)
    modifies u, u.mem
    ensures u.Valid()
    ensures u.brk == u.base + Peak(old(u.Abs()), AllOps(Owned(old(u.Abs()), map[]), cs)) * (HEADER + size)
  {
    ghost var s := Owned(u.Abs(), map[]);
    var _ := RunProgram(u, cs, s);
    ApplyAllIsRun(s, cs);
    Footprint(s.heap, AllOps(s, cs), size);
  }
}
