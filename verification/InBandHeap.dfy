/** How a byte memory holds a first-fit heap: each block starts with its own list node. */
module InBandHeap {
  import opened Machine32
  import opened Bytes
  import opened FirstFitHeap
  import opened HeapCalls

  // Offsets in BlockHeader
  const IS_FREE := 4
  const NEXT := 8

  /** The header of `b` is in memory, and its `next` field holds `next`. */
  ghost predicate HeaderAt(m: seq<Byte>, b: Block, next: int) {
    && 0 <= b.addr && b.addr + HEADER <= |m|
    && Read32(m, b.addr) == b.size
    && (m[b.addr + IS_FREE] != 0 <==> b.free)
    && Read32(m, b.addr + NEXT) == next
  }

  /** The address of the i-th node, or the null pointer after the last one. */
  function NodeAt(bs: seq<Block>, i: nat): int {
    if i < |bs| then bs[i].addr else 0
  }

  /** The memory holds the list `bs`, node by node. */
  ghost predicate Holds(m: seq<Byte>, bs: seq<Block>) {
    forall i {:trigger HeaderAt(m, bs[i], NodeAt(bs, i + 1))} :: 0 <= i < |bs| ==> HeaderAt(m, bs[i], NodeAt(bs, i + 1))
  }

  /** The payload bytes at `p`, as many as the header just below it says. */
  ghost function PayloadAt(m: seq<Byte>, p: int): seq<Byte> {
    if HEADER <= p <= |m| && p + Read32(m, p - HEADER) <= |m| then m[p..p + Read32(m, p - HEADER)] else []
  }

  /** What the clients of the heap see: the bytes behind each live pointer. */
  ghost function LiveBytes(m: seq<Byte>, bs: seq<Block>): map<int, seq<Byte>> {
    map p | p in LivePtrs(bs) :: PayloadAt(m, p)
  }

  // ----- One block -----

  /** A header whose twelve bytes are kept is still there. */
  lemma HeaderKept(m: seq<Byte>, m': seq<Byte>, b: Block, next: int)
    requires HeaderAt(m, b, next) && Agree(m, m', b.addr, b.addr + HEADER)
    ensures HeaderAt(m', b, next)
  {}

  lemma PayloadOf(m: seq<Byte>, b: Block, next: int)
    requires HeaderAt(m, b, next) && 0 <= b.size && b.End() <= |m|
    ensures PayloadAt(m, b.Payload()) == m[b.Payload()..b.End()]
    ensures |PayloadAt(m, b.Payload())| == b.size
  {}

  /** A block whose size field and payload are kept still shows the same bytes. */
  lemma PayloadKept(m: seq<Byte>, m': seq<Byte>, b: Block, next: int)
    requires HeaderAt(m, b, next) && 0 <= b.size && b.End() <= |m|
    requires Agree(m, m', b.addr, b.addr + 4) && Agree(m, m', b.Payload(), b.End())
    ensures PayloadAt(m', b.Payload()) == PayloadAt(m, b.Payload())
  {
    PayloadOf(m, b, next);
    assert Read32(m', b.addr) == Read32(m, b.addr);
    assert m'[b.Payload()..b.End()] == m[b.Payload()..b.End()];
  }

  // ----- The live bytes -----

  /** Every payload of `bs` shows the same bytes in both memories. */
  ghost predicate PayloadsKept(m: seq<Byte>, m': seq<Byte>, bs: seq<Block>) {
    forall j :: 0 <= j < |bs| ==> PayloadAt(m', bs[j].Payload()) == PayloadAt(m, bs[j].Payload())
  }

  lemma LiveBytesAdd(m: seq<Byte>, m': seq<Byte>, bs: seq<Block>, bs': seq<Block>, p: int)
    requires PayloadsKept(m, m', bs)
    requires LivePtrs(bs') == LivePtrs(bs) + {p}
    ensures LiveBytes(m', bs') == LiveBytes(m, bs)[p := PayloadAt(m', p)]
  {}

  lemma LiveBytesRemove(m: seq<Byte>, m': seq<Byte>, bs: seq<Block>, bs': seq<Block>, p: int)
    requires PayloadsKept(m, m', bs)
    requires LivePtrs(bs') == LivePtrs(bs) - {p}
    ensures LiveBytes(m', bs') == LiveBytes(m, bs) - {p}
  {}

  lemma AddedKey(live: map<int, seq<Byte>>, p: int, bytes: seq<Byte>)
    requires p !in live
    ensures live[p := bytes] - {p} == live
  {}

  // ----- Writes into a list of blocks -----

  /** `m'` differs from `m` only inside [lo, hi). */
  ghost predicate OnlyChanged(m: seq<Byte>, m': seq<Byte>, lo: int, hi: int) {
    |m'| == |m| && forall k :: 0 <= k < |m| && !(lo <= k < hi) ==> m'[k] == m[k]
  }

  /** Writes inside block `c` leave a disjoint block `b` alone. */
  lemma OutsideWrite(m: seq<Byte>, m': seq<Byte>, b: Block, c: Block, next: int)
    requires HeaderAt(m, b, next) && 0 <= b.size && b.End() <= |m|
    requires Disjoint(b, c) && OnlyChanged(m, m', c.addr, c.End())
    ensures HeaderAt(m', b, next) && PayloadAt(m', b.Payload()) == PayloadAt(m, b.Payload())
  {
    HeaderKept(m, m', b, next);
    PayloadKept(m, m', b, next);
  }

  lemma OwnFlag(m: seq<Byte>, m': seq<Byte>, b: Block, next: int, free: bool)
    requires HeaderAt(m, b, next) && 0 <= b.size && b.End() <= |m|
    requires m' == m[b.addr + IS_FREE := if free then 1 else 0]
    ensures HeaderAt(m', b.(free := free), next) && PayloadAt(m', b.Payload()) == PayloadAt(m, b.Payload())
  {
    assert Read32(m', b.addr) == Read32(m, b.addr);
    assert Read32(m', b.addr + NEXT) == Read32(m, b.addr + NEXT);
    PayloadKept(m, m', b, next);
  }

  /** Writing the `is_free` byte of block `i` changes that flag and nothing else. */
  lemma FlagWritten(m: seq<Byte>, m': seq<Byte>, bs: seq<Block>, i: nat, free: bool)
    requires Within(bs, 0, |m|) && i < |bs| && Separate(bs, i) && Holds(m, bs)
    requires m' == m[bs[i].addr + IS_FREE := if free then 1 else 0]
    ensures Holds(m', bs[i := bs[i].(free := free)])
    ensures PayloadsKept(m, m', bs)
  {
    var bs' := bs[i := bs[i].(free := free)];
    forall j | 0 <= j < |bs|
      ensures HeaderAt(m', bs'[j], NodeAt(bs', j + 1))
      ensures PayloadAt(m', bs[j].Payload()) == PayloadAt(m, bs[j].Payload())
    {
      assert HeaderAt(m, bs[j], NodeAt(bs, j + 1));
      if j != i {
        OutsideWrite(m, m', bs[j], bs[i], NodeAt(bs, j + 1));
      } else {
        OwnFlag(m, m', bs[i], NodeAt(bs, i + 1), free);
      }
    }
  }

  /** Writes inside the payload of block `i` reach no header and no other payload. */
  lemma PayloadWritten(m: seq<Byte>, m': seq<Byte>, bs: seq<Block>, i: nat)
    requires Within(bs, 0, |m|) && i < |bs| && Separate(bs, i) && Holds(m, bs)
    requires OnlyChanged(m, m', bs[i].Payload(), bs[i].End())
    ensures Holds(m', bs)
    ensures forall j :: 0 <= j < |bs| && j != i ==> PayloadAt(m', bs[j].Payload()) == PayloadAt(m, bs[j].Payload())
    ensures PayloadAt(m', bs[i].Payload()) == m'[bs[i].Payload()..bs[i].End()]
  {
    forall j | 0 <= j < |bs|
      ensures HeaderAt(m', bs[j], NodeAt(bs, j + 1))
      ensures j != i ==> PayloadAt(m', bs[j].Payload()) == PayloadAt(m, bs[j].Payload())
    {
      assert HeaderAt(m, bs[j], NodeAt(bs, j + 1));
      if j != i {
        OutsideWrite(m, m', bs[j], bs[i], NodeAt(bs, j + 1));
      } else {
        HeaderKept(m, m', bs[i], NodeAt(bs, i + 1));
      }
    }
    assert HeaderAt(m', bs[i], NodeAt(bs, i + 1));
    PayloadOf(m', bs[i], NodeAt(bs, i + 1));
  }

  lemma NodeShifted(b: Block, bs: seq<Block>, j: nat)
    requires j <= |bs|
    ensures NodeAt([b] + bs, j + 1) == NodeAt(bs, j)
    ensures j > 0 ==> ([b] + bs)[j] == bs[j - 1]
  {}

  /** A node that lies in memory of which every byte is kept. */
  lemma NodeKept(m: seq<Byte>, m': seq<Byte>, bs: seq<Block>, hi: int, j: nat)
    requires 0 <= hi <= |m| && Within(bs, 0, hi) && Holds(m, bs) && Agree(m, m', 0, hi) && j < |bs|
    ensures HeaderAt(m', bs[j], NodeAt(bs, j + 1))
    ensures PayloadAt(m', bs[j].Payload()) == PayloadAt(m, bs[j].Payload())
  {
    assert HeaderAt(m, bs[j], NodeAt(bs, j + 1));
    HeaderKept(m, m', bs[j], NodeAt(bs, j + 1));
    PayloadKept(m, m', bs[j], NodeAt(bs, j + 1));
  }

  lemma ShiftedKept(m: seq<Byte>, m': seq<Byte>, bs: seq<Block>, hi: int, b: Block, bs': seq<Block>, j: nat)
    requires 0 <= hi <= |m| && Within(bs, 0, hi) && Holds(m, bs) && Agree(m, m', 0, hi)
    requires HeaderAt(m', b, NodeAt(bs, 0)) && bs' == [b] + bs && j < |bs'|
    ensures HeaderAt(m', bs'[j], NodeAt(bs', j + 1))
  {
    NodeShifted(b, bs, j);
    if j > 0 {
      NodeKept(m, m', bs, hi, j - 1);
    }
  }

  /** A new node in front of a list whose bytes are all kept. */
  lemma NodeInFront(m: seq<Byte>, m': seq<Byte>, bs: seq<Block>, hi: int, b: Block)
    requires 0 <= hi <= |m| && Within(bs, 0, hi) && Holds(m, bs) && Agree(m, m', 0, hi)
    requires HeaderAt(m', b, NodeAt(bs, 0))
    ensures Holds(m', [b] + bs)
    ensures PayloadsKept(m, m', bs)
  {
    forall j | 0 <= j < |bs| ensures PayloadAt(m', bs[j].Payload()) == PayloadAt(m, bs[j].Payload()) {
      NodeKept(m, m', bs, hi, j);
    }
    var bs' := [b] + bs;
    forall j | 0 <= j < |bs'| ensures HeaderAt(m', bs'[j], NodeAt(bs', j + 1)) {
      ShiftedKept(m, m', bs, hi, b, bs', j);
    }
  }

  /** Within the blocks nothing has changed but the link of the last node, which now leads to `next`. */
  ghost predicate OnlyLastLinkChanged(m: seq<Byte>, m': seq<Byte>, bs: seq<Block>, next: int) {
    && |m'| == |m|
    && (forall j :: 0 <= j < |bs| - 1 ==> Agree(m, m', bs[j].addr, bs[j].End()))
    && (bs != [] ==>
          var l := bs[|bs| - 1];
          && Agree(m, m', l.addr, l.addr + NEXT) && Agree(m, m', l.Payload(), l.End())
          && 0 <= l.addr && l.Payload() <= |m| && Read32(m', l.addr + NEXT) == next)
  }

  /** A new node behind a list of which only the last link has changed. */
  lemma NodeBehind(m: seq<Byte>, m': seq<Byte>, bs: seq<Block>, b: Block)
    requires Within(bs, 0, |m|) && Holds(m, bs)
    requires OnlyLastLinkChanged(m, m', bs, b.addr)
    requires HeaderAt(m', b, 0)
    ensures Holds(m', bs + [b])
    ensures PayloadsKept(m, m', bs)
  {
    var bs' := bs + [b];
    forall j | 0 <= j < |bs|
      ensures HeaderAt(m', bs'[j], NodeAt(bs', j + 1))
      ensures PayloadAt(m', bs[j].Payload()) == PayloadAt(m, bs[j].Payload())
    {
      assert HeaderAt(m, bs[j], NodeAt(bs, j + 1));
      if j < |bs| - 1 {
        assert Agree(m, m', bs[j].addr, bs[j].End());
        HeaderKept(m, m', bs[j], NodeAt(bs, j + 1));
        assert NodeAt(bs', j + 1) == NodeAt(bs, j + 1);
      }
      PayloadKept(m, m', bs[j], NodeAt(bs, j + 1));
    }
  }

  // ----- The heap operations -----

  /** Taking a free block adds its old bytes to the live ones; releasing one only removes its pointer. */
  lemma FlagSet(m: seq<Byte>, m': seq<Byte>, h: Heap, i: nat, free: bool, p: int)
    requires Wf(h) && h.brk <= |m| && Holds(m, h.blocks) && i < |h.blocks| && p == h.blocks[i].Payload()
    requires m' == m[h.blocks[i].addr + IS_FREE := if free then 1 else 0]
    ensures Wf(SetFree(h, i, free)) && Holds(m', SetFree(h, i, free).blocks)
    ensures NodeAt(SetFree(h, i, free).blocks, 0) == NodeAt(h.blocks, 0)
    ensures free ==> LiveBytes(m', SetFree(h, i, free).blocks) == LiveBytes(m, h.blocks) - {p}
    ensures !free ==> LiveBytes(m', SetFree(h, i, free).blocks) == LiveBytes(m, h.blocks)[p := PayloadAt(m', p)]
    ensures |PayloadAt(m', p)| == h.blocks[i].size
  {
    WfLayout(h);
    assert HeaderAt(m, h.blocks[i], NodeAt(h.blocks, i + 1));
    PayloadOf(m, h.blocks[i], NodeAt(h.blocks, i + 1));
    FlagWritten(m, m', h.blocks, i, free);
    SetFreeWf(h, i, free);
    SetFreeLive(h, i, free);
    if free {
      LiveBytesRemove(m, m', h.blocks, SetFree(h, i, free).blocks, p);
    } else {
      LiveBytesAdd(m, m', h.blocks, SetFree(h, i, free).blocks, p);
    }
  }

  lemma LastIsHighest(h: Heap)
    requires h.order.OldestFirst? && Wf(h)
    ensures forall j :: 0 <= j < |h.blocks| - 1 ==> h.blocks[j].End() <= h.blocks[|h.blocks| - 1].addr
  {
    forall j | 0 <= j < |h.blocks| - 1 ensures h.blocks[j].End() <= h.blocks[|h.blocks| - 1].addr {
      assert Apart(h.order, h.blocks[j], h.blocks[|h.blocks| - 1]);
    }
  }

  /** Keeping everything below the break but the link of the highest node is enough for `PushBack`. */
  lemma LinkFrame(m: seq<Byte>, m': seq<Byte>, h: Heap, next: int)
    requires h.order.OldestFirst? && Wf(h) && |m'| == |m| && h.brk <= |m|
    requires h.blocks == [] || (Agree(m, m', 0, Highest(h).addr + NEXT) && Agree(m, m', Highest(h).Payload(), h.brk))
    requires h.blocks == [] || Read32(m', Highest(h).addr + NEXT) == next
    ensures OnlyLastLinkChanged(m, m', h.blocks, next)
  {
    LastIsHighest(h);
  }

  /** The new block, whatever is in it, joins the live ones. */
  lemma Grown(m: seq<Byte>, m': seq<Byte>, h: Heap, size: int, p: int)
    requires Wf(h) && 0 <= size && CanGrow(h, size) && p == h.brk + HEADER
    requires PayloadsKept(m, m', h.blocks)
    ensures Wf(Grow(h, size))
    ensures LiveBytes(m', Grow(h, size).blocks) == LiveBytes(m, h.blocks)[p := PayloadAt(m', p)]
  {
    GrowWf(h, size);
    GrowLive(h, size, p);
    LiveBytesAdd(m, m', h.blocks, Grow(h, size).blocks, p);
  }

  lemma NewPayload(m: seq<Byte>, b: Block, next: int, p: int)
    requires HeaderAt(m, b, next) && 0 <= b.size && b.End() <= |m| && p == b.Payload()
    ensures |PayloadAt(m, p)| == b.size
  {
    PayloadOf(m, b, next);
  }

  /** A header written at the old break, with the old head as its link, makes the heap one block larger. */
  lemma AddedInFront(m: seq<Byte>, m': seq<Byte>, h: Heap, size: int, p: int)
    requires Wf(h) && h.order.NewestFirst? && h.limit <= |m| && Holds(m, h.blocks) && 0 <= size && CanGrow(h, size)
    requires HeaderAt(m', Block(h.brk, size, false), NodeAt(h.blocks, 0)) && OnlyChanged(m, m', h.brk, h.brk + HEADER)
    requires p == h.brk + HEADER
    ensures Wf(Grow(h, size)) && Holds(m', Grow(h, size).blocks) && NodeAt(Grow(h, size).blocks, 0) == h.brk
    ensures LiveBytes(m', Grow(h, size).blocks) == LiveBytes(m, h.blocks)[p := PayloadAt(m', p)]
    ensures |PayloadAt(m', p)| == size
  {
    WfLayout(h);
    NewPayload(m', Block(h.brk, size, false), NodeAt(h.blocks, 0), p);
    NodeInFront(m, m', h.blocks, h.brk, Block(h.brk, size, false));
    Grown(m, m', h, size, p);
  }

  lemma BehindHolds(m: seq<Byte>, m': seq<Byte>, h: Heap, size: int)
    requires Wf(h) && h.order.OldestFirst? && h.limit <= |m| && Holds(m, h.blocks) && 0 <= size
    requires OnlyLastLinkChanged(m, m', h.blocks, h.brk) && HeaderAt(m', Block(h.brk, size, false), 0)
    ensures Holds(m', Grow(h, size).blocks) && PayloadsKept(m, m', h.blocks)
    ensures NodeAt(Grow(h, size).blocks, 0) == if h.blocks == [] then h.brk else NodeAt(h.blocks, 0)
  {
    WfLayout(h);
    NodeBehind(m, m', h.blocks, Block(h.brk, size, false));
  }

  /** A header written at the old break, to which the last link leads, makes the heap one block larger. */
  lemma AddedBehind(m: seq<Byte>, m': seq<Byte>, h: Heap, size: int, p: int)
    requires Wf(h) && h.order.OldestFirst? && h.limit <= |m| && Holds(m, h.blocks) && 0 <= size && CanGrow(h, size)
    requires OnlyLastLinkChanged(m, m', h.blocks, h.brk) && HeaderAt(m', Block(h.brk, size, false), 0)
    requires p == h.brk + HEADER
    ensures Wf(Grow(h, size)) && Holds(m', Grow(h, size).blocks)
    ensures NodeAt(Grow(h, size).blocks, 0) == if h.blocks == [] then h.brk else NodeAt(h.blocks, 0)
    ensures LiveBytes(m', Grow(h, size).blocks) == LiveBytes(m, h.blocks)[p := PayloadAt(m', p)]
    ensures |PayloadAt(m', p)| == size
  {
    BehindHolds(m, m', h, size);
    NewPayload(m', Block(h.brk, size, false), 0, p);
    Grown(m, m', h, size, p);
  }

  lemma LiveBytesPatch(m: seq<Byte>, m': seq<Byte>, bs: seq<Block>, i: nat)
    requires i < |bs| && !bs[i].free && Separate(bs, i) && Within(bs, 0, |m|)
    requires forall j :: 0 <= j < |bs| && j != i ==> PayloadAt(m', bs[j].Payload()) == PayloadAt(m, bs[j].Payload())
    ensures bs[i].Payload() in LivePtrs(bs)
    ensures LiveBytes(m', bs) == LiveBytes(m, bs)[bs[i].Payload() := PayloadAt(m', bs[i].Payload())]
  {
    assert bs[i].Payload() in LivePtrs(bs);
  }

  /** Writes through a live pointer, within its block, change the bytes of that pointer only. */
  lemma LiveWritten(m: seq<Byte>, m': seq<Byte>, h: Heap, i: nat)
    requires Wf(h) && h.brk <= |m| && Holds(m, h.blocks) && i < |h.blocks| && !h.blocks[i].free
    requires OnlyChanged(m, m', h.blocks[i].Payload(), h.blocks[i].End())
    ensures Holds(m', h.blocks)
    ensures var p := h.blocks[i].Payload();
            && p in LiveBytes(m, h.blocks) && LiveBytes(m, h.blocks)[p] == m[p..h.blocks[i].End()]
            && LiveBytes(m', h.blocks) == LiveBytes(m, h.blocks)[p := m'[p..h.blocks[i].End()]]
  {
    WfLayout(h);
    PayloadWritten(m, m', h.blocks, i);
    LiveBytesPatch(m, m', h.blocks, i);
    assert HeaderAt(m, h.blocks[i], NodeAt(h.blocks, i + 1));
    PayloadOf(m, h.blocks[i], NodeAt(h.blocks, i + 1));
  }

  /** Where a live pointer comes from, and where its bytes are. */
  lemma LivePointer(m: seq<Byte>, h: Heap, p: int) returns (i: nat)
    requires Wf(h) && h.brk <= |m| && Holds(m, h.blocks) && p in LiveBytes(m, h.blocks)
    ensures i < |h.blocks| && !h.blocks[i].free && h.blocks[i].Payload() == p && i == Find(h.blocks, p)
    ensures h.base + HEADER <= p && h.blocks[i].End() <= h.brk
    ensures LiveBytes(m, h.blocks)[p] == m[p..h.blocks[i].End()]
    ensures Read32(m, p - HEADER) == h.blocks[i].size == |LiveBytes(m, h.blocks)[p]|
  {
    i :| 0 <= i < |h.blocks| && !h.blocks[i].free && h.blocks[i].Payload() == p;
    FindUnique(h, i);
    WfLayout(h);
    assert HeaderAt(m, h.blocks[i], NodeAt(h.blocks, i + 1));
    PayloadOf(m, h.blocks[i], NodeAt(h.blocks, i + 1));
  }

  /** What a client learns from an allocation of `size` bytes that answered `p`. */
  ghost predicate Allocated(live: map<int, seq<Byte>>, live': map<int, seq<Byte>>, size: int, p: int) {
    if p == 0 then live' == live
    else p !in live && p in live' && |live'[p]| >= size && live' - {p} == live
  }

  /** The block an allocation answers with is new to the program, and large enough. */
  lemma Obtained(m: seq<Byte>, m': seq<Byte>, h: Heap, size: nat, p: int)
    requires Wf(h) && p == Malloc(h, size).1 && p != 0 && |PayloadAt(m', p)| >= size
    requires LiveBytes(m', Malloc(h, size).0.blocks) == LiveBytes(m, h.blocks)[p := PayloadAt(m', p)]
    ensures Allocated(LiveBytes(m, h.blocks), LiveBytes(m', Malloc(h, size).0.blocks), size, p)
  {
    MallocMeaning(h, size);
    AddedKey(LiveBytes(m, h.blocks), p, PayloadAt(m', p));
  }

  /** The statics of an allocator (list head and break) and the memory they describe. */
  class HeapMemory {
    const mem: array<Byte>
    const order: Order
    const base: Word
    const limit: Word
    var head: Word
    var brk: Word
    ghost var blocks: seq<Block>

    /** The heap that head pointer, break and memory stand for. */
    ghost function Abs(): Heap
      reads this
    {
      Heap(order, base, limit, brk, blocks)
    }

    ghost predicate Valid()
      reads this, mem
    {
      && limit <= mem.Length
      && Wf(Abs())
      && head == NodeAt(blocks, 0)
      && Holds(mem[..], blocks)
    }

    /** What the program owns: the bytes behind each pointer it has been given and not freed. */
    ghost function Live(): map<int, seq<Byte>>
      reads this, mem
    {
      LiveBytes(mem[..], blocks)
    }

    constructor (mem: array<Byte>, order: Order, base: Word, limit: Word)
      requires 0 < base < limit <= mem.Length
      ensures Valid() && Live() == map[] && blocks == [] && brk == base
      ensures this.mem == mem && this.order == order && this.base == base && this.limit == limit
    {
      this.mem, this.order, this.base, this.limit := mem, order, base, limit;
      head, brk, blocks := 0, base, [];
    }

    method Write32(a: int, w: Word)
      requires 0 <= a && a + 4 <= mem.Length
      modifies mem
      ensures Read32(mem[..], a) == w
      ensures OnlyChanged(old(mem[..]), mem[..], a, a + 4)
    {
      mem[a], mem[a + 1], mem[a + 2], mem[a + 3] := ByteOf(w, 0), ByteOf(w, 1), ByteOf(w, 2), ByteOf(w, 3);
      ReadBack(mem[..], a, w);
    }

    /** Write a `BlockHeader` into memory that holds no block. */
    method WriteHeader(block: Word, size: Word, next: Word)
      requires block + HEADER <= mem.Length
      modifies mem
      ensures HeaderAt(mem[..], Block(block, size, false), next)
      ensures OnlyChanged(old(mem[..]), mem[..], block, block + HEADER)
    {
      Write32(block, size);
      mem[block + IS_FREE] := 0;
      ghost var m := mem[..];
      Write32(block + NEXT, next);
      assert Read32(mem[..], block) == Read32(m, block);
    }

    /** The block at list position `i`: where it is and what its header says. */
    lemma InBounds(i: nat)
      requires Valid() && i < |blocks|
      ensures 0 < base <= blocks[i].addr && blocks[i].End() <= brk < mem.Length
      ensures HeaderAt(mem[..], blocks[i], NodeAt(blocks, i + 1))
      ensures |PayloadAt(mem[..], blocks[i].Payload())| == blocks[i].size
    {
      WfLayout(Abs());
      assert HeaderAt(mem[..], blocks[i], NodeAt(blocks, i + 1));
      PayloadOf(mem[..], blocks[i], NodeAt(blocks, i + 1));
    }

    /** Node `i` can be read, and it is followed by null exactly when it is the last one. */
    lemma NextNode(i: nat)
      requires Valid() && i < |blocks|
      ensures HeaderAt(mem[..], blocks[i], NodeAt(blocks, i + 1))
      ensures NodeAt(blocks, i + 1) == 0 <==> i + 1 == |blocks|
    {
      InBounds(i);
      if i + 1 < |blocks| { InBounds(i + 1); }
    }

    /** Read the header of the i-th node. */
    method ReadHeader(node: Word, ghost i: nat) returns (size: Word, free: bool, next: Word)
      requires Valid() && i < |blocks| && node == NodeAt(blocks, i)
      ensures size == blocks[i].size && free == blocks[i].free && next == NodeAt(blocks, i + 1)
      ensures next == 0 <==> i + 1 == |blocks|
    {
      NextNode(i);
      size := Read32(mem[..], node);
      free := mem[node + IS_FREE] != 0;
      next := Read32(mem[..], node + NEXT);
    }

    /** The list head is null exactly for the empty list. */
    lemma HeadIsNull()
      requires Valid()
      ensures head == 0 <==> blocks == []
    {
      if blocks != [] { InBounds(0); }
    }

    /** Set the `is_free` byte of block `i`. */
    method SetFlag(block: Word, free: bool, ghost i: nat, ghost p: int)
      requires Valid() && i < |blocks| && block == blocks[i].addr && p == blocks[i].Payload()
      modifies this`blocks, mem
      ensures Valid() && Abs() == SetFree(old(Abs()), i, free)
      ensures free ==> Live() == old(Live()) - {p}
      ensures !free ==> Live() == old(Live())[p := PayloadAt(mem[..], p)]
      ensures |PayloadAt(mem[..], p)| == old(blocks[i].size)
    {
      ghost var m, h := mem[..], Abs();
      InBounds(i);
      blocks := SetFree(h, i, free).blocks;
      mem[block + IS_FREE] := if free then 1 else 0;
      assert mem[..] == m[block + IS_FREE := if free then 1 else 0];
      FlagSet(m, mem[..], h, i, free, p);
    }

    /** Answer a request with the free block that the search found. */
    method Take(block: Word, size: Word) returns (p: Word)
      requires Valid() && FirstFit(blocks, size) < |blocks| && block == blocks[FirstFit(blocks, size)].addr
      modifies this`blocks, mem
      ensures Valid() && p != 0 && (Abs(), p) == Malloc(old(Abs()), size)
      ensures Allocated(old(Live()), Live(), size, p)
    {
      ghost var h, m, i := Abs(), mem[..], FirstFit(blocks, size);
      p := block + HEADER;
      SetFlag(block, false, i, p);
      Obtained(m, mem[..], h, size, p);
    }

    /** The block behind a live pointer has as many bytes as its header says. */
    lemma BlockSize(p: int)
      requires Valid()
      ensures p in Live() ==> |Live()[p]| == SizeAt(Abs(), p)
    {
      if p in Live() {
        var _ := LivePointer(mem[..], Abs(), p);
      }
    }

    lemma NullIsNotLive()
      requires Valid()
      ensures 0 !in Live() && Find(blocks, 0) == |blocks|
    {
      WfLayout(Abs());
    }

    lemma NullFree()
      requires Valid()
      ensures FirstFitHeap.Free(Abs(), 0) == Abs() && Live() - {0} == Live()
    {
      NullIsNotLive();
    }

    method Release(p: Word)
      requires Valid() && p in Live()
      modifies this`blocks, mem
      ensures Valid()
      ensures Abs() == FirstFitHeap.Free(old(Abs()), p)
      ensures Live() == old(Live()) - {p}
    {
      ghost var i := LivePointer(mem[..], Abs(), p);
      SetFlag(p - HEADER, true, i, p);
    }

    /** `free`, the same in both libraries: the pointer is gone; all other live bytes stay. */
    method Free(p: Word)
      requires Valid() && (p == 0 || p in Live())
      modifies this`blocks, mem
      ensures Valid()
      ensures Abs() == FirstFitHeap.Free(old(Abs()), p)
      ensures Live() == old(Live()) - {p}
    {
      if p == 0 {
        NullFree();
        assert Live() - {p} == Live();
        return;
      }
      Release(p);
    }

    /** The program writes one byte it owns: only that byte of that payload changes. */
    method Poke(p: Word, k: int, v: Byte)
      requires Valid() && p in Live() && 0 <= k < |Live()[p]|
      modifies mem
      ensures Valid() && blocks == old(blocks)
      ensures Live() == old(Live())[p := Patch(old(Live()[p]), k, v)]
    {
      ghost var m := mem[..];
      ghost var i := LivePointer(m, Abs(), p);
      mem[p + k] := v;
      LiveWritten(m, mem[..], Abs(), i);
      assert mem[p..blocks[i].End()] == Patch(m[p..blocks[i].End()], k, v);
    }

    // ----- Calls of a program, the same in both libraries -----

    /** The memory is that of a program which owns and knows `s`. */
    ghost predicate Serves(s: Owned)
      reads this, mem
    {
      Valid() && s.heap == Abs() && Agrees(Live(), s.known)
    }

    method RunGiveBack(c: Call, ghost s: Owned) returns (p: Word)
      requires Serves(s) && c.GiveBack? && Lawful(s, c)
      modifies this`blocks, mem
      ensures Serves(Apply(s, c)) && p == Answer(s, c).1
    {
      Free(c.ptr);
      p := 0;
    }

    method RunPut(c: Call, ghost s: Owned) returns (p: Word)
      requires Serves(s) && c.Put? && Lawful(s, c)
      modifies mem
      ensures Serves(Apply(s, c)) && p == Answer(s, c).1
    {
      ghost var i := LivePointer(mem[..], Abs(), c.ptr);
      PutAgrees(Live(), s, c.ptr, c.k, c.v);
      Poke(c.ptr, c.k, c.v);
      p := 0;
    }
  }
}
