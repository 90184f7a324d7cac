/**
  A first-fit heap over a growing break, as a value: what the in-band block lists of
  programs/main.cpp and legacy_v1/sdk/stdlib.cpp stand for.  The two differ in where a new
  block enters the list.
*/
module FirstFitHeap {
  import opened Machine32
  import opened Bytes

  const HEADER := 12  // sizeof(BlockHeader): size, is_free and padding, next

  datatype Block = Block(addr: int, size: int, free: bool) {
    function Payload(): int { addr + HEADER }
    function End(): int { addr + HEADER + size }
    predicate Fits(request: int) { free && size >= request }
  }

  datatype Order = NewestFirst | OldestFirst

  /** `blocks` in list order; the break may grow up to, but not including, `limit`. */
  datatype Heap = Heap(order: Order, base: int, limit: int, brk: int, blocks: seq<Block>)

  /** Where `b` is listed before `c`, this is how they lie in memory. */
  predicate Apart(order: Order, b: Block, c: Block) {
    if order.NewestFirst? then c.End() <= b.addr else b.End() <= c.addr
  }

  predicate Touch(order: Order, b: Block, c: Block) {
    if order.NewestFirst? then c.End() == b.addr else b.End() == c.addr
  }

  /** The lowest and the highest block of a nonempty list. */
  function Lowest(h: Heap): Block
    requires h.blocks != []
  {
    if h.order.NewestFirst? then h.blocks[|h.blocks| - 1] else h.blocks[0]
  }

  function Highest(h: Heap): Block
    requires h.blocks != []
  {
    if h.order.NewestFirst? then h.blocks[0] else h.blocks[|h.blocks| - 1]
  }

  /** The blocks tile [base, brk) exactly, in list order. */
  ghost predicate Wf(h: Heap) {
    && 0 < h.base <= h.brk < h.limit
    && (forall i :: 0 <= i < |h.blocks| ==>
          0 <= h.blocks[i].size && h.base <= h.blocks[i].addr && h.blocks[i].End() <= h.brk)
    && (forall i, j {:trigger Apart(h.order, h.blocks[i], h.blocks[j])} :: 0 <= i < j < |h.blocks| ==> Apart(h.order, h.blocks[i], h.blocks[j]))
    && (forall i, j {:trigger Touch(h.order, h.blocks[i], h.blocks[j])} :: 0 <= i && j == i + 1 < |h.blocks| ==>
          Touch(h.order, h.blocks[i], h.blocks[j]))
    && (if h.blocks == [] then h.brk == h.base
        else Lowest(h).addr == h.base && Highest(h).End() == h.brk)
  }

  /** The index of the first free block of at least `request` bytes, or the length of the list. */
  function FirstFit(bs: seq<Block>, request: int): (r: nat)
    ensures r <= |bs|
    ensures r < |bs| ==> bs[r].Fits(request)
    ensures forall j :: 0 <= j < r ==> !bs[j].Fits(request)
  {
    if bs == [] || bs[0].Fits(request) then 0 else 1 + FirstFit(bs[1..], request)
  }

  function SetFree(h: Heap, i: nat, free: bool): Heap
    requires i < |h.blocks|
  {
    h.(blocks := h.blocks[i := h.blocks[i].(free := free)])
  }

  /** Extend the break by one block that is in use. */
  function Grow(h: Heap, size: int): Heap {
    var b := Block(h.brk, size, false);
    h.(brk := h.brk + HEADER + size, blocks := if h.order.NewestFirst? then [b] + h.blocks else h.blocks + [b])
  }

  predicate CanGrow(h: Heap, size: int) { h.brk + HEADER + size < h.limit }

  /** The heap after a request, and the payload pointer it gets (0 when the break cannot grow). */
  function Malloc(h: Heap, size: int): (Heap, int) {
    var i := FirstFit(h.blocks, size);
    if i < |h.blocks| then (SetFree(h, i, false), h.blocks[i].Payload())
    else if CanGrow(h, size) then (Grow(h, size), h.brk + HEADER)
    else (h, 0)
  }

  /** The payload pointers of the blocks in use. */
  ghost function LivePtrs(bs: seq<Block>): set<int> {
    set i | 0 <= i < |bs| && !bs[i].free :: bs[i].Payload()
  }

  /** The index of the block with payload pointer `p`. */
  function Find(bs: seq<Block>, p: int): (r: nat)
    ensures r <= |bs|
    ensures r < |bs| ==> bs[r].Payload() == p
    ensures forall j :: 0 <= j < r ==> bs[j].Payload() != p
  {
    if bs == [] || bs[0].Payload() == p then 0 else 1 + Find(bs[1..], p)
  }

  function Free(h: Heap, p: int): Heap {
    var i := Find(h.blocks, p);
    if i < |h.blocks| then SetFree(h, i, true) else h
  }

  predicate Disjoint(b: Block, c: Block) { b.End() <= c.addr || c.End() <= b.addr }

  /** Different blocks, headers included, share no byte. */
  lemma PayloadsApart(h: Heap, i: nat, j: nat)
    requires Wf(h) && i < |h.blocks| && j < |h.blocks| && i != j
    ensures Disjoint(h.blocks[i], h.blocks[j])
  {
    if i < j {
      assert Apart(h.order, h.blocks[i], h.blocks[j]);
    } else {
      assert Apart(h.order, h.blocks[j], h.blocks[i]);
    }
  }

  lemma OnlyBlockAt(h: Heap, i: nat)
    requires Wf(h) && i < |h.blocks|
    ensures forall j :: 0 <= j < |h.blocks| && h.blocks[j].Payload() == h.blocks[i].Payload() ==> j == i
  {
    forall j | 0 <= j < |h.blocks| && j != i ensures h.blocks[j].Payload() != h.blocks[i].Payload() {
      PayloadsApart(h, i, j);
    }
  }

  /** In a well-formed heap a payload pointer names one block. */
  lemma FindUnique(h: Heap, i: nat)
    requires Wf(h) && i < |h.blocks|
    ensures Find(h.blocks, h.blocks[i].Payload()) == i
  {
    OnlyBlockAt(h, i);
  }

  lemma SetFreeWf(h: Heap, i: nat, free: bool)
    requires Wf(h) && i < |h.blocks|
    ensures Wf(SetFree(h, i, free))
  {
    var h' := SetFree(h, i, free);
    forall j, k | 0 <= j < k < |h'.blocks| ensures Apart(h'.order, h'.blocks[j], h'.blocks[k]) {
      assert Apart(h.order, h.blocks[j], h.blocks[k]);
    }
    forall j, k | 0 <= j && k == j + 1 < |h'.blocks| ensures Touch(h'.order, h'.blocks[j], h'.blocks[k]) {
      assert Touch(h.order, h.blocks[j], h.blocks[k]);
    }
  }

  lemma SetFreeLive(h: Heap, i: nat, free: bool)
    requires Wf(h) && i < |h.blocks|
    ensures LivePtrs(SetFree(h, i, free).blocks) ==
            if free then LivePtrs(h.blocks) - {h.blocks[i].Payload()}
            else LivePtrs(h.blocks) + {h.blocks[i].Payload()}
  {
    var bs, bs' := h.blocks, SetFree(h, i, free).blocks;
    OnlyBlockAt(h, i);
    forall q ensures q in LivePtrs(bs') <==> if q == bs[i].Payload() then !free else q in LivePtrs(bs) {
      if q in LivePtrs(bs') {
        var j :| 0 <= j < |bs'| && !bs'[j].free && bs'[j].Payload() == q;
        assert j != i ==> bs[j].Payload() == q;
      }
      if q in LivePtrs(bs) && q != bs[i].Payload() {
        var j :| 0 <= j < |bs| && !bs[j].free && bs[j].Payload() == q;
        assert bs'[j].Payload() == q;
      }
      assert bs'[i].Payload() == bs[i].Payload();
    }
  }

  lemma GrowFrontInside(h: Heap, size: int)
    requires Wf(h) && 0 <= size && CanGrow(h, size) && h.order.NewestFirst?
    ensures var h' := Grow(h, size);
            forall j :: 0 <= j < |h'.blocks| ==>
              0 <= h'.blocks[j].size && h'.base <= h'.blocks[j].addr && h'.blocks[j].End() <= h'.brk
  {
    var h' := Grow(h, size);
    assert forall j :: 0 < j < |h'.blocks| ==> h'.blocks[j] == h.blocks[j - 1];
  }

  lemma GrowFrontApart(h: Heap, size: int)
    requires Wf(h) && h.order.NewestFirst?
    ensures var h' := Grow(h, size);
            forall j, k {:trigger Apart(h'.order, h'.blocks[j], h'.blocks[k])} :: 0 <= j < k < |h'.blocks| ==>
              Apart(h'.order, h'.blocks[j], h'.blocks[k])
  {
    var h' := Grow(h, size);
    forall j, k | 0 <= j < k < |h'.blocks| ensures Apart(h'.order, h'.blocks[j], h'.blocks[k]) {
      assert h'.blocks[k] == h.blocks[k - 1];
      assert j > 0 ==> Apart(h.order, h.blocks[j - 1], h.blocks[k - 1]);
    }
  }

  lemma GrowFrontTouch(h: Heap, size: int)
    requires Wf(h) && h.order.NewestFirst?
    ensures var h' := Grow(h, size);
            forall j, k {:trigger Touch(h'.order, h'.blocks[j], h'.blocks[k])} :: 0 <= j && k == j + 1 < |h'.blocks| ==>
              Touch(h'.order, h'.blocks[j], h'.blocks[k])
  {
    var h' := Grow(h, size);
    forall j, k | 0 <= j && k == j + 1 < |h'.blocks| ensures Touch(h'.order, h'.blocks[j], h'.blocks[k]) {
      assert h'.blocks[k] == h.blocks[j];
      assert j > 0 ==> Touch(h.order, h.blocks[j - 1], h.blocks[k - 1]);
    }
  }

  lemma GrowFrontWf(h: Heap, size: int)
    requires Wf(h) && 0 <= size && CanGrow(h, size) && h.order.NewestFirst?
    ensures Wf(Grow(h, size))
  {
    GrowFrontInside(h, size);
    GrowFrontApart(h, size);
    GrowFrontTouch(h, size);
  }

  lemma GrowBackWf(h: Heap, size: int)
    requires Wf(h) && 0 <= size && CanGrow(h, size) && h.order.OldestFirst?
    ensures Wf(Grow(h, size))
  {
    var h', n := Grow(h, size), |h.blocks|;
    assert forall j :: 0 <= j < n ==> h'.blocks[j] == h.blocks[j];
    forall j, k | 0 <= j < k < |h'.blocks| ensures Apart(h'.order, h'.blocks[j], h'.blocks[k]) {
      assert k < n ==> Apart(h.order, h.blocks[j], h.blocks[k]);
    }
    forall j, k | 0 <= j && k == j + 1 < |h'.blocks| ensures Touch(h'.order, h'.blocks[j], h'.blocks[k]) {
      assert k < n ==> Touch(h.order, h.blocks[j], h.blocks[k]);
    }
  }

  lemma GrowWf(h: Heap, size: int)
    requires Wf(h) && 0 <= size && CanGrow(h, size)
    ensures Wf(Grow(h, size))
  {
    if h.order.NewestFirst? { GrowFrontWf(h, size); } else { GrowBackWf(h, size); }
  }

  /** Live pointers, by blocks instead of by positions. */
  lemma LivePtrsByBlock(bs: seq<Block>)
    ensures forall q :: q in LivePtrs(bs) <==> exists b :: b in bs && !b.free && b.Payload() == q
  {
    forall q ensures q in LivePtrs(bs) <==> exists b :: b in bs && !b.free && b.Payload() == q {
      if q in LivePtrs(bs) {
        var j :| 0 <= j < |bs| && !bs[j].free && bs[j].Payload() == q;
        assert bs[j] in bs;
      }
    }
  }

  lemma GrowLive(h: Heap, size: int, p: int)
    requires Wf(h) && 0 <= size && p == h.brk + HEADER
    ensures LivePtrs(Grow(h, size).blocks) == LivePtrs(h.blocks) + {p}
    ensures p !in LivePtrs(h.blocks)
  {
    var bs, bs' := h.blocks, Grow(h, size).blocks;
    var b := Block(h.brk, size, false);
    assert b in bs' && forall c :: c in bs' <==> c in bs || c == b;
    LivePtrsByBlock(bs);
    LivePtrsByBlock(bs');
  }

  /**
    A request answers with a block that was not in use, of at least the requested size, and
    makes it, and nothing else, live; or it changes nothing, when no free block fits and the
    break would reach its limit.
  */
  lemma MallocMeaning(h: Heap, size: int)
    requires Wf(h) && 0 <= size
    ensures var (h', p) := Malloc(h, size);
            && Wf(h') && h'.order == h.order && h'.base == h.base && h'.limit == h.limit
            && (p == 0 <==> !(exists b :: b in h.blocks && b.Fits(size)) && !CanGrow(h, size))
            && (p == 0 ==> h' == h)
            && (p != 0 ==> && p !in LivePtrs(h.blocks) && LivePtrs(h'.blocks) == LivePtrs(h.blocks) + {p}
                           && exists b :: b in h'.blocks && b.Payload() == p && b.size >= size)
  {
    var i := FirstFit(h.blocks, size);
    if i < |h.blocks| {
      SetFreeWf(h, i, false);
      SetFreeLive(h, i, false);
      OnlyBlockAt(h, i);
      assert h.blocks[i] in h.blocks && h.blocks[i].Fits(size);
      assert SetFree(h, i, false).blocks[i] in SetFree(h, i, false).blocks;
    } else if CanGrow(h, size) {
      GrowWf(h, size);
      GrowLive(h, size, h.brk + HEADER);
      assert Block(h.brk, size, false) in Grow(h, size).blocks;
    }
  }

  /** All of the blocks lie in [lo, hi). */
  ghost predicate Within(bs: seq<Block>, lo: int, hi: int) {
    forall i :: 0 <= i < |bs| ==> 0 <= bs[i].size && lo <= bs[i].addr && bs[i].End() <= hi
  }

  /** Block `i` shares no byte with another one. */
  ghost predicate Separate(bs: seq<Block>, i: nat)
    requires i < |bs|
  {
    forall j :: 0 <= j < |bs| && j != i ==> Disjoint(bs[j], bs[i])
  }

  lemma WfLayout(h: Heap)
    requires Wf(h)
    ensures Within(h.blocks, h.base, h.brk)
    ensures forall i :: 0 <= i < |h.blocks| ==> Separate(h.blocks, i)
  {
    forall i, j | 0 <= i < |h.blocks| && 0 <= j < |h.blocks| && j != i ensures Disjoint(h.blocks[j], h.blocks[i]) {
      PayloadsApart(h, j, i);
    }
  }

  // ----- Runs -----

  datatype Op = Alloc(size: nat) | Release(ptr: int)

  function Step(h: Heap, op: Op): Heap {
    match op
    case Alloc(size) => Malloc(h, size).0
    case Release(p) => Free(h, p)
  }

  function Run(h: Heap, ops: seq<Op>): Heap
    decreases |ops|
  {
    if ops == [] then h else Run(Step(h, ops[0]), ops[1..])
  }

  lemma StepWf(h: Heap, op: Op)
    requires Wf(h)
    ensures Wf(Step(h, op))
  {
    match op
    case Alloc(size) => MallocMeaning(h, size);
    case Release(p) =>
      if Find(h.blocks, p) < |h.blocks| {
        SetFreeWf(h, Find(h.blocks, p), true);
      }
  }

  function Live(bs: seq<Block>): (n: nat)
    ensures n <= |bs|
  {
    if bs == [] then 0 else (if bs[0].free then 0 else 1) + Live(bs[1..])
  }

  function Max(a: int, b: int): int { if a < b then b else a }

  /** The largest number of blocks in use at the same time during a run. */
  function Peak(h: Heap, ops: seq<Op>): nat
    decreases |ops|
  {
    if ops == [] then Live(h.blocks) else Max(Live(h.blocks), Peak(Step(h, ops[0]), ops[1..]))
  }

  predicate AllOfSize(bs: seq<Block>, size: int) { forall b :: b in bs ==> b.size == size }

  predicate RequestsOfSize(ops: seq<Op>, size: int) {
    forall op :: op in ops && op.Alloc? ==> op.size == size
  }

  lemma {:induction false} LiveSplit(bs: seq<Block>, cs: seq<Block>)
    ensures Live(bs + cs) == Live(bs) + Live(cs)
  {
    if bs == [] {
      assert bs + cs == cs;
    } else {
      LiveSplit(bs[1..], cs);
      assert (bs + cs)[1..] == bs[1..] + cs;
    }
  }

  lemma {:induction false} AllLive(bs: seq<Block>)
    requires forall j :: 0 <= j < |bs| ==> !bs[j].free
    ensures Live(bs) == |bs|
  {
    if bs != [] {
      assert !bs[0].free;
      AllLive(bs[1..]);
    }
  }

  /** One step of a run whose requests all have one size. */
  lemma StepFootprint(h: Heap, op: Op, size: int)
    requires Wf(h) && AllOfSize(h.blocks, size) && (op.Alloc? ==> op.size == size)
    ensures AllOfSize(Step(h, op).blocks, size)
    ensures |Step(h, op).blocks| == Max(|h.blocks|, Live(Step(h, op).blocks))
  {
    match op
    case Release(p) =>
      var i := Find(h.blocks, p);
      if i < |h.blocks| {
        assert h.blocks[i] in h.blocks;
      }
    case Alloc(_) =>
      var i := FirstFit(h.blocks, size);
      if i < |h.blocks| {
        assert h.blocks[i] in h.blocks;
      } else {
        forall j | 0 <= j < |h.blocks| ensures !h.blocks[j].free {
          assert h.blocks[j] in h.blocks;
        }
        AllLive(h.blocks);
        LiveSplit(h.blocks, [Block(h.brk, size, false)]);
        LiveSplit([Block(h.brk, size, false)], h.blocks);
      }
  }

  lemma {:induction false} RunFootprint(h: Heap, ops: seq<Op>, size: int)
    requires Wf(h) && AllOfSize(h.blocks, size) && RequestsOfSize(ops, size)
    ensures Wf(Run(h, ops)) && AllOfSize(Run(h, ops).blocks, size)
    ensures |Run(h, ops).blocks| == Max(|h.blocks|, Peak(h, ops))
    decreases |ops|
  {
    if ops != [] {
      StepWf(h, ops[0]);
      StepFootprint(h, ops[0], size);
      RunFootprint(Step(h, ops[0]), ops[1..], size);
    }
  }

  /** Blocks of one size that tile a range cut it into equal pieces. */
  lemma {:induction false} TileLength(h: Heap, size: int, n: nat, unit: int)
    requires Wf(h) && AllOfSize(h.blocks, size) && n < |h.blocks| && unit == HEADER + size
    ensures h.order.NewestFirst? ==> h.blocks[n].End() == h.brk - n * unit
    ensures h.order.OldestFirst? ==> h.blocks[n].addr == h.base + n * unit
  {
    assert h.blocks[n] in h.blocks;
    if n > 0 {
      TileLength(h, size, n - 1, unit);
      assert h.blocks[n - 1] in h.blocks;
      assert Touch(h.order, h.blocks[n - 1], h.blocks[n]);
      assert n * unit == (n - 1) * unit + unit;
    }
  }

  lemma EqualTiles(h: Heap, size: int, unit: int)
    requires Wf(h) && AllOfSize(h.blocks, size) && unit == HEADER + size
    ensures h.brk == h.base + |h.blocks| * unit
  {
    var n := |h.blocks|;
    if n > 0 {
      TileLength(h, size, n - 1, unit);
      assert h.blocks[n - 1] in h.blocks;
      assert n * unit == (n - 1) * unit + unit;
    }
  }

  lemma {:induction false} RunSameFrame(h: Heap, ops: seq<Op>)
    ensures Run(h, ops).base == h.base && Run(h, ops).order == h.order && Run(h, ops).limit == h.limit
    decreases |ops|
  {
    if ops != [] {
      RunSameFrame(Step(h, ops[0]), ops[1..]);
    }
  }

  /**
    When all requests have one size, the break stands exactly at the peak number of
    simultaneously live blocks: the heap grows only when nothing free is left.
  */
  lemma Footprint(h: Heap, ops: seq<Op>, size: int)
    requires Wf(h) && h.blocks == [] && RequestsOfSize(ops, size)
    ensures Run(h, ops).brk == h.base + Peak(h, ops) * (HEADER + size)
  {
    RunFootprint(h, ops, size);
    RunSameFrame(h, ops);
    EqualTiles(Run(h, ops), size, HEADER + size);
  }
}
