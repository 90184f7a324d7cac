/**
  Whole programs over the two allocators, as values: `malloc`, `free`, `calloc`, `realloc`
  and payload writes, what each call answers, and what the program then knows of the bytes
  it owns.  programs/main.cpp has the first two calls only and takes sizes as they are;
  legacy_v1/sdk/stdlib.cpp has all of them and rounds sizes to 8.
*/
module HeapCalls {
  import opened Machine32
  import opened Bytes
  import opened FirstFitHeap

  /** `(size + 7) & ~7`. */
  function Align8(size: Word): Word { Add(size, 7) - Add(size, 7) % 8 }

  /** The rounded request is at least the request exactly when `size + 7` does not wrap. */
  lemma Align8Covers(size: Word)
    ensures Align8(size) >= size <==> size + 7 < TWO_32
    ensures size + 7 < TWO_32 ==> size <= Align8(size) < size + 8 && Align8(size) % 8 == 0
  {
    if size + 7 >= TWO_32 {
      assert Add(size, 7) == size + 7 - TWO_32;
    }
  }

  /** The size the search looks for. */
  function Wanted(order: Order, size: Word): Word { if order.NewestFirst? then size else Align8(size) }

  /** `malloc`: the heap afterwards, and the answer. */
  function Request(h: Heap, size: Word): (Heap, int) {
    if h.order.OldestFirst? && size == 0 then (h, 0) else Malloc(h, Wanted(h.order, size))
  }

  /** The block is large enough already. */
  predicate InPlace(h: Heap, ptr: int, size: Word) {
    var i := Find(h.blocks, ptr);
    i < |h.blocks| && h.blocks[i].size >= size
  }

  /** `realloc`: the heap afterwards, and the answer. */
  function Resize(h: Heap, ptr: int, size: Word): (Heap, int) {
    if ptr == 0 then Request(h, size)
    else if size == 0 then (Free(h, ptr), 0)
    else
      if InPlace(h, ptr, size) then (h, ptr)
      else
        var (grown, p) := Request(h, size);
        (if p == 0 then grown else Free(grown, ptr), p)
  }

  // ----- Programs -----

  datatype Call =
    | Ask(size: Word)
    | AskZeroed(num: Word, size: Word)
    | Reask(ptr: int, size: Word)
    | GiveBack(ptr: int)
    | Put(ptr: int, k: nat, v: Byte)

  /** The bytes behind each owned pointer, as far as the program has determined them. */
  type Known = map<int, seq<Option<Byte>>>

  datatype Owned = Owned(heap: Heap, known: Known)

  function SizeAt(h: Heap, p: int): nat {
    var i := Find(h.blocks, p);
    if i < |h.blocks| && h.blocks[i].size >= 0 then h.blocks[i].size else 0
  }

  /** A new block of `n` bytes, the first `zeros` of them zero. */
  function NewBytes(n: nat, zeros: nat): seq<Option<Byte>> {
    seq(n, k => if k < zeros then Some(0) else None)
  }

  /** After an allocation that answered `p`. */
  function Obtain(s: Owned, answer: (Heap, int), zeros: nat): Owned {
    var (h, p) := answer;
    Owned(h, if p == 0 then s.known else s.known[p := NewBytes(SizeAt(h, p), zeros)])
  }

  /** The known bytes of a block that has grown to `n` bytes. */
  function Extended(bytes: seq<Option<Byte>>, n: nat): seq<Option<Byte>> {
    if n <= |bytes| then bytes else bytes + NewBytes(n - |bytes|, 0)
  }

  /** After a `realloc` of an owned pointer: freed, left alone, or moved with its bytes. */
  function Reasked(s: Owned, ptr: int, size: Word, answer: (Heap, int)): Owned
    requires ptr in s.known
  {
    var (h, p) := answer;
    if size == 0 then Owned(h, s.known - {ptr})
    else if p == 0 || p == ptr then Owned(h, s.known)
    else Owned(h, (s.known - {ptr})[p := Extended(s.known[ptr], SizeAt(h, p))])
  }

  function Total(num: Word, size: Word): Word { num * size % TWO_32 }

  /** What a call does to the heap, and what it answers. */
  function Answer(s: Owned, c: Call): (Heap, int) {
    match c
    case Ask(size) => Request(s.heap, size)
    case AskZeroed(num, size) => Request(s.heap, Total(num, size))
    case Reask(ptr, size) => Resize(s.heap, ptr, size)
    case GiveBack(ptr) => (Free(s.heap, ptr), 0)
    case Put(_, _, _) => (s.heap, 0)
  }

  /** A call of a program that uses only what it owns. */
  predicate Lawful(s: Owned, c: Call) {
    match c
    case Ask(_) => true
    case AskZeroed(_, _) => true
    case Reask(ptr, _) => ptr == 0 || ptr in s.known
    case GiveBack(ptr) => ptr == 0 || ptr in s.known
    case Put(ptr, k, _) => ptr in s.known && k < |s.known[ptr]|
  }

  function Apply(s: Owned, c: Call): Owned
    requires Lawful(s, c)
  {
    match c
    case Ask(_) => Obtain(s, Answer(s, c), 0)
    case AskZeroed(num, size) => Obtain(s, Answer(s, c), Total(num, size))
    case Reask(ptr, size) => if ptr == 0 then Obtain(s, Answer(s, c), 0) else Reasked(s, ptr, size, Answer(s, c))
    case GiveBack(ptr) => Owned(Answer(s, c).0, s.known - {ptr})
    case Put(ptr, k, v) => s.(known := s.known[ptr := s.known[ptr][k := Some(v)]])
  }

  predicate LawfulAll(s: Owned, cs: seq<Call>)
    decreases |cs|
  {
    cs != [] ==> Lawful(s, cs[0]) && LawfulAll(Apply(s, cs[0]), cs[1..])
  }

  function ApplyAll(s: Owned, cs: seq<Call>): Owned
    requires LawfulAll(s, cs)
    decreases |cs|
  {
    if cs == [] then s else ApplyAll(Apply(s, cs[0]), cs[1..])
  }

  /** The pointers that the calls answer, 0 where there is none. */
  function Answers(s: Owned, cs: seq<Call>): seq<int>
    requires LawfulAll(s, cs)
    decreases |cs|
  {
    if cs == [] then [] else [Answer(s, cs[0]).1] + Answers(Apply(s, cs[0]), cs[1..])
  }

  // ----- The bytes in memory -----

  ghost predicate Fits(bytes: seq<Byte>, known: seq<Option<Byte>>) {
    |bytes| == |known| && forall k :: 0 <= k < |known| && known[k].Some? ==> bytes[k] == known[k].value
  }

  /** The program owns these pointers, and behind them stands what it knows. */
  ghost predicate Agrees(live: map<int, seq<Byte>>, known: Known) {
    && live.Keys == known.Keys
    && forall p :: p in live && p in known ==> Fits(live[p], known[p])
  }

  /** Every byte of the memory it owns now. */
  function Certain(bytes: seq<Byte>): seq<Option<Byte>> { seq(|bytes|, k requires 0 <= k < |bytes| => Some(bytes[k])) }

  function AllKnown(live: map<int, seq<Byte>>): Known { map p | p in live :: Certain(live[p]) }

  lemma CertainFits(bytes: seq<Byte>, bytes': seq<Byte>)
    ensures Fits(bytes', Certain(bytes)) <==> bytes' == bytes
  {
    if Fits(bytes', Certain(bytes)) {
      assert forall k :: 0 <= k < |bytes| ==> Certain(bytes)[k].Some?;
    }
  }

  lemma AllKnownAgrees(live: map<int, seq<Byte>>)
    ensures Agrees(live, AllKnown(live))
  {}

  lemma ObtainAgrees(live: map<int, seq<Byte>>, live': map<int, seq<Byte>>, s: Owned, answer: (Heap, int), zeros: nat)
    requires Agrees(live, s.known)
    requires var p := answer.1;
             if p == 0 then live' == live
             else p !in live && p in live' && live' - {p} == live && Fits(live'[p], NewBytes(SizeAt(answer.0, p), zeros))
    ensures Agrees(live', Obtain(s, answer, zeros).known)
  {
    var p, known' := answer.1, Obtain(s, answer, zeros).known;
    if p != 0 {
      forall q ensures q in live' <==> q in known' {
        assert q != p ==> (q in live' <==> q in live' - {p});
      }
      forall q | q in live' && q in known' ensures Fits(live'[q], known'[q]) {
        if q != p {
          assert q in live' - {p} && live[q] == live'[q];
        }
      }
    }
  }

  lemma ReaskedAgrees(live: map<int, seq<Byte>>, live': map<int, seq<Byte>>, s: Owned, ptr: int, size: Word, answer: (Heap, int))
    requires Agrees(live, s.known) && ptr in s.known
    requires var p := answer.1;
             if size == 0 then live' == live - {ptr}
             else if p == 0 || p == ptr then live' == live
             else p !in live && p in live' && live' - {p} == live - {ptr}
                  && live[ptr] <= live'[p] && |live'[p]| == SizeAt(answer.0, p)
    ensures Agrees(live', Reasked(s, ptr, size, answer).known)
  {
    var p, known' := answer.1, Reasked(s, ptr, size, answer).known;
    if size != 0 && p != 0 && p != ptr {
      forall q ensures q in live' <==> q in known' {
        assert q != p ==> (q in live' <==> q in live' - {p});
      }
      forall q | q in live' && q in known' ensures Fits(live'[q], known'[q]) {
        if q != p {
          assert q in live' - {p} && live[q] == live'[q];
        }
      }
    }
  }

  lemma PutAgrees(live: map<int, seq<Byte>>, s: Owned, ptr: int, k: nat, v: Byte)
    requires Agrees(live, s.known) && ptr in s.known && k < |s.known[ptr]|
    ensures Agrees(live[ptr := Patch(live[ptr], k, v)], Apply(s, Put(ptr, k, v)).known)
  {}

  // ----- What a run keeps -----

  /** The heap is well formed, and the owned pointers are those of its blocks in use. */
  ghost predicate Ok(s: Owned) { Wf(s.heap) && s.known.Keys == LivePtrs(s.heap.blocks) }

  lemma FreeMeaning(h: Heap, p: int)
    requires Wf(h) && (p == 0 || p in LivePtrs(h.blocks))
    ensures Wf(Free(h, p)) && LivePtrs(Free(h, p).blocks) == LivePtrs(h.blocks) - {p}
    ensures Free(h, p).order == h.order
  {
    var i := Find(h.blocks, p);
    if i < |h.blocks| {
      SetFreeWf(h, i, true);
      SetFreeLive(h, i, true);
    }
    if p == 0 {
      assert forall j :: 0 <= j < |h.blocks| ==> h.blocks[j].Payload() > 0;
    }
  }

  /** An answer is null, or a pointer the program did not own. */
  lemma RequestMeaning(h: Heap, size: Word)
    requires Wf(h)
    ensures var (h', p) := Request(h, size);
            && Wf(h') && h'.order == h.order
            && (p == 0 ==> h' == h)
            && (p != 0 ==> p !in LivePtrs(h.blocks) && LivePtrs(h'.blocks) == LivePtrs(h.blocks) + {p})
  {
    MallocMeaning(h, Wanted(h.order, size));
  }

  lemma LivePositive(h: Heap, p: int)
    requires Wf(h) && p in LivePtrs(h.blocks)
    ensures p > 0
  {}

  /** `realloc` of an owned pointer frees it, leaves it alone, or exchanges it for one the program did not own. */
  lemma ResizeMeaning(h: Heap, ptr: int, size: Word)
    requires Wf(h) && ptr in LivePtrs(h.blocks)
    ensures var (h', p) := Resize(h, ptr, size);
            && ptr != 0 && Wf(h') && h'.order == h.order
            && (size == 0 ==> LivePtrs(h'.blocks) == LivePtrs(h.blocks) - {ptr})
            && (size != 0 && (p == 0 || p == ptr) ==> h' == h)
            && (size != 0 && p != 0 && p != ptr ==>
                  p !in LivePtrs(h.blocks) && LivePtrs(h'.blocks) == LivePtrs(h.blocks) - {ptr} + {p})
  {
    LivePositive(h, ptr);
    if size == 0 {
      FreeMeaning(h, ptr);
    } else if !InPlace(h, ptr, size) {
      RequestMeaning(h, size);
      var (grown, p) := Request(h, size);
      if p != 0 {
        FreeMeaning(grown, ptr);
      }
    }
  }

  lemma ApplyOk(s: Owned, c: Call)
    requires Ok(s) && Lawful(s, c)
    ensures Ok(Apply(s, c)) && Apply(s, c).heap.order == s.heap.order
  {
    match c {
      case Ask(size) => RequestMeaning(s.heap, size);
      case AskZeroed(num, size) => RequestMeaning(s.heap, Total(num, size));
      case GiveBack(ptr) => FreeMeaning(s.heap, ptr);
      case Put(_, _, _) =>
      case Reask(ptr, size) =>
        if ptr == 0 {
          RequestMeaning(s.heap, size);
        } else {
          ResizeMeaning(s.heap, ptr, size);
        }
    }
  }

  /** Does the call give the pointer back, or hand it to `realloc`? */
  predicate Releases(c: Call, q: int) { (c.GiveBack? || c.Reask?) && c.ptr == q }

  predicate Keeps(cs: seq<Call>, q: int) { forall i :: 0 <= i < |cs| ==> !Releases(cs[i], q) }

  /** `bytes` with the program's writes to `q` over it, in order. */
  function Written(bytes: seq<Byte>, q: int, cs: seq<Call>): (r: seq<Byte>)
    ensures |r| == |bytes|
    ensures (forall i :: 0 <= i < |cs| ==> !(cs[i].Put? && cs[i].ptr == q)) ==> r == bytes
    decreases |cs|
  {
    if cs == [] then bytes
    else if cs[0].Put? && cs[0].ptr == q && cs[0].k < |bytes| then
      Written(Patch(bytes, cs[0].k, cs[0].v), q, cs[1..])
    else Written(bytes, q, cs[1..])
  }

  lemma ApplyKeeps(s: Owned, c: Call, q: int, bytes: seq<Byte>)
    requires Ok(s) && Lawful(s, c) && !Releases(c, q)
    requires q in s.known && s.known[q] == Certain(bytes)
    ensures q in Apply(s, c).known && Apply(s, c).known[q] == Certain(Written(bytes, q, [c]))
  {
    match c {
      case Ask(size) => RequestMeaning(s.heap, size);
      case AskZeroed(num, size) => RequestMeaning(s.heap, Total(num, size));
      case GiveBack(_) =>
      case Reask(_, size) => RequestMeaning(s.heap, size);
      case Put(ptr, k, v) =>
        if ptr == q {
          assert Certain(bytes)[k := Some(v)] == Certain(Patch(bytes, k, v));
          assert [c][1..] == [];
        }
    }
  }

  /** Over every run, a pointer that is not released has exactly its bytes, with the program's own writes over them. */
  lemma {:induction false} RunKeeps(s: Owned, cs: seq<Call>, q: int, bytes: seq<Byte>)
    requires Ok(s) && LawfulAll(s, cs) && Keeps(cs, q)
    requires q in s.known && s.known[q] == Certain(bytes)
    ensures q in ApplyAll(s, cs).known && ApplyAll(s, cs).known[q] == Certain(Written(bytes, q, cs))
    decreases |cs|
  {
    if cs != [] {
      ApplyOk(s, cs[0]);
      ApplyKeeps(s, cs[0], q, bytes);
      var bytes' := Written(bytes, q, [cs[0]]);
      assert [cs[0]][1..] == [];
      assert forall i :: 0 <= i < |cs| - 1 ==> cs[1..][i] == cs[i + 1];
      RunKeeps(Apply(s, cs[0]), cs[1..], q, bytes');
    }
  }

  // ----- The heap's own operations -----

  function RequestOps(h: Heap, size: Word): seq<Op> {
    if h.order.OldestFirst? && size == 0 then [] else [Alloc(Wanted(h.order, size))]
  }

  /** The allocations and releases a call comes down to. */
  function HeapOps(h: Heap, c: Call): seq<Op> {
    match c
    case Ask(size) => RequestOps(h, size)
    case AskZeroed(num, size) => RequestOps(h, Total(num, size))
    case GiveBack(ptr) => [Release(ptr)]
    case Put(_, _, _) => []
    case Reask(ptr, size) =>
      if ptr == 0 then RequestOps(h, size)
      else if size == 0 then [Release(ptr)]
      else if InPlace(h, ptr, size) then []
      else RequestOps(h, size) + if Request(h, size).1 == 0 then [] else [Release(ptr)]
  }

  function AllOps(s: Owned, cs: seq<Call>): seq<Op>
    requires LawfulAll(s, cs)
    decreases |cs|
  {
    if cs == [] then [] else HeapOps(s.heap, cs[0]) + AllOps(Apply(s, cs[0]), cs[1..])
  }

  lemma RunOne(h: Heap, op: Op)
    ensures Run(h, [op]) == Step(h, op)
  {
    assert [op][1..] == [];
  }

  lemma {:induction false} RunSplit(h: Heap, a: seq<Op>, b: seq<Op>)
    ensures Run(h, a + b) == Run(Run(h, a), b)
    decreases |a|
  {
    if a == [] {
      assert a + b == b;
    } else {
      assert (a + b)[1..] == a[1..] + b;
      RunSplit(Step(h, a[0]), a[1..], b);
    }
  }

  lemma RequestIsRun(h: Heap, size: Word)
    ensures Run(h, RequestOps(h, size)) == Request(h, size).0
  {
    RunOne(h, Alloc(Wanted(h.order, size)));
  }

  lemma ReaskIsRun(h: Heap, ptr: int, size: Word)
    requires Wf(h) && (ptr == 0 || ptr in LivePtrs(h.blocks))
    ensures Run(h, HeapOps(h, Reask(ptr, size))) == Resize(h, ptr, size).0
  {
    if ptr == 0 {
      RequestIsRun(h, size);
    } else if size == 0 {
      RunOne(h, Release(ptr));
    } else if !InPlace(h, ptr, size) {
      RequestIsRun(h, size);
      var (grown, p) := Request(h, size);
      if p == 0 {
        assert RequestOps(h, size) + [] == RequestOps(h, size);
      } else {
        RunOne(grown, Release(ptr));
        RunSplit(h, RequestOps(h, size), [Release(ptr)]);
      }
    }
  }

  lemma ApplyIsRun(s: Owned, c: Call)
    requires Ok(s) && Lawful(s, c)
    ensures Apply(s, c).heap == Run(s.heap, HeapOps(s.heap, c))
  {
    var h := s.heap;
    match c {
      case Ask(size) => RequestIsRun(h, size);
      case AskZeroed(num, size) => RequestIsRun(h, Total(num, size));
      case GiveBack(ptr) => RunOne(h, Release(ptr));
      case Put(_, _, _) =>
      case Reask(ptr, size) =>
        ReaskIsRun(h, ptr, size);
        if ptr != 0 {
          ResizeMeaning(h, ptr, size);
        }
    }
  }

  /** A program's heap is the run of its allocations and releases. */
  lemma {:induction false} ApplyAllIsRun(s: Owned, cs: seq<Call>)
    requires Ok(s) && LawfulAll(s, cs)
    ensures ApplyAll(s, cs).heap == Run(s.heap, AllOps(s, cs))
    decreases |cs|
  {
    if cs != [] {
      ApplyOk(s, cs[0]);
      ApplyIsRun(s, cs[0]);
      ApplyAllIsRun(Apply(s, cs[0]), cs[1..]);
      RunSplit(s.heap, HeapOps(s.heap, cs[0]), AllOps(Apply(s, cs[0]), cs[1..]));
    }
  }
}
