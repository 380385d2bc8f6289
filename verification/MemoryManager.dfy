/** The loader's allocator: a placement pointer that gives way to the heap. */
module MemoryManager {
  import opened Machine
  import opened HeapFormat
  import opened HeapTiling
  import opened HeapBlocks
  import opened LoaderHeap
  import opened HeapRuns

  /** size bytes from ptr on, in use. */
  datatype Span = Span(ptr: int, size: int)

  ghost predicate Apart(s: Span, t: Span) {
    s.ptr + s.size <= t.ptr || t.ptr + t.size <= s.ptr
  }

  /** What was placed before the switch lies in [base, top), in order. */
  ghost predicate PlacedOk(placed: seq<Span>, base: int, top: int) {
    && base <= top
    && (forall i | 0 <= i < |placed| ::
          base <= placed[i].ptr && 0 <= placed[i].size && placed[i].ptr + placed[i].size <= top)
    && (forall i, j | 0 <= i < j < |placed| :: placed[i].ptr + placed[i].size <= placed[j].ptr)
  }

  lemma Placed(placed: seq<Span>, base: int, top: int, s: Span)
    requires PlacedOk(placed, base, top) && top <= s.ptr && 0 <= s.size
    ensures PlacedOk(placed + [s], base, s.ptr + s.size)
  {
  }

  /** size bytes from ptr on are zero. */
  ghost predicate Clean(m: Memory, ptr: int, size: int) {
    forall w {:trigger Rd(m, w)} | ptr <= w < ptr + size && (w - ptr) % 8 == 0 :: Rd(m, w) == 0
  }

  lemma CleanNext(m: Memory, ptr: int, i: int)
    requires Clean(m, ptr, i) && i % 8 == 0
    ensures Clean(m[ptr + i := 0], ptr, i + 8)
  {
    var m' := m[ptr + i := 0];
    forall w | ptr <= w < ptr + i + 8 && (w - ptr) % 8 == 0 ensures Rd(m', w) == 0 {
      assert w < ptr + i ==> Rd(m, w) == 0;
    }
  }

  /** `mem_fill` with zeroes, a word at a time. */
  method MemFill(ram: Ram, ptr: int, size: int)
    modifies ram
    ensures Clean(ram.m, ptr, size) && Within(old(ram.m), ram.m, ptr, ptr + size)
  {
    var i := 0;
    while i < size
      invariant 0 <= i && i % 8 == 0 && Clean(ram.m, ptr, i) && Within(old(ram.m), ram.m, ptr, ptr + size)
    {
      ghost var m := ram.m;
      CleanNext(m, ptr, i);
      ram.m := ram.m[ptr + i := 0];
      forall w | w < ptr || ptr + size <= w ensures Rd(ram.m, w) == Rd(old(ram.m), w) {
        assert Rd(m, w) == Rd(old(ram.m), w);
      }
      i := i + 8;
    }
  }

  /** Clearing the whole payload of a new block disturbs nobody. */
  method ClearPayload(h: Heap, ghost events: seq<Event>, ptr: int, size: int)
    requires RunOk(h, events) && Unstored(h, events, ptr) && size == Used(h.layout)[ptr - 16] - HEAP_OVERHEAD
    modifies h.ram
    ensures RunOk(h, events) && Clean(h.ram.m, ptr, size) && BelowKept(h.startAddr, old(h.ram.m), h.ram.m)
    ensures Within(old(h.ram.m), h.ram.m, ptr, ptr + size)
  {
    assert BlockOk(h.layout, h.startAddr, h.endAddr, ptr - 16);
    var i := 0;
    while i < size
      invariant 0 <= i && i % 8 == 0 && RunOk(h, events) && Unstored(h, events, ptr) && Clean(h.ram.m, ptr, i)
      invariant BelowKept(h.startAddr, old(h.ram.m), h.ram.m) && Within(old(h.ram.m), h.ram.m, ptr, ptr + size)
    {
      ghost var m := h.ram.m;
      WordFits(size, i);
      ClearWord(h, events, ptr, i);
      CleanNext(m, ptr, i);
      BelowThen(h.startAddr, old(h.ram.m), m, h.ram.m);
      forall w | w < ptr || ptr + size <= w ensures Rd(h.ram.m, w) == Rd(old(h.ram.m), w) {
        assert Rd(m, w) == Rd(old(h.ram.m), w);
      }
      i := i + 8;
    }
  }

  method ClearWord(h: Heap, ghost events: seq<Event>, ptr: int, i: int)
    requires RunOk(h, events) && Unstored(h, events, ptr) && 0 <= i && i + 8 <= Used(h.layout)[ptr - 16] - HEAP_OVERHEAD
    modifies h.ram
    ensures RunOk(h, events) && h.ram.m == old(h.ram.m)[ptr + i := 0] && BelowKept(h.startAddr, old(h.ram.m), h.ram.m)
  {
    UnstoredWrite(h.ram.m, Live(events), Contents(events), ptr + i, 0);
    StoreWord(h, ptr - 16, ptr + i, 0);
  }

  lemma WordFits(size: int, i: int)
    requires size % 16 == 0 && i % 8 == 0 && i < size
    ensures i + 8 <= size
  {
  }

  /**
   What a client asks for: memory, with its alignment, its clearing, and the pages granted if it takes any; or to
   give some back.
   */
  datatype Request = Get(size: int, align: bool, clean: bool, grant: int) | Release(ptr: int) | StartHeap

  /** What came of it; what the model does not serve is passed over. */
  datatype Answer = Got(ptr: int) | Released | Started | Passed

  datatype HeapAt = NoHeap | At(s: Snapshot)

  /** The allocator at one moment of a run. */
  datatype Moment = Moment(placement: int, placed: seq<Span>, events: seq<Event>, m: Memory, heap: HeapAt)

  /** Before the switch a request takes the next place. */
  ghost predicate PlacedAnswer(a: Moment, r: Request, ptr: int, b: Moment)
    requires r.Get?
  {
    && ptr == (if r.align then PageSizeAlign(a.placement) else a.placement)
    && b == Moment(ptr + r.size, a.placed + [Span(ptr, r.size)], a.events, b.m, NoHeap)
    && Within(a.m, b.m, ptr, ptr + r.size)
    && if r.clean then Clean(b.m, ptr, r.size) else b.m == a.m
  }

  function HeapEvent(ptr: int, size: int): Event {
    if ptr == 0 then Refused else Allocated(ptr, size)
  }

  /**
   After the switch a request gets a heap block, unless it cannot be met. Apart from that block the used blocks stay,
   and nothing but formerly free space is written.
   */
  ghost predicate HeapAnswer(a: Moment, r: Request, ptr: int, b: Moment)
    requires r.Get? && a.heap.At?
  {
    && (ptr == 0 <==> Unmet(a.heap.s, r.size, r.align, r.grant))
    && b.placement == a.placement && b.placed == a.placed && b.heap.At? && b.m == b.heap.s.m
    && b.events == a.events + [HeapEvent(ptr, r.size)]
    && Step(a.heap.s, b.heap.s, HeapEvent(ptr, r.size)) && Determined(a.heap.s, b.heap.s, r.size, r.align, r.grant, ptr)
    && BelowKept(a.heap.s.lo, a.m, b.m)
    && (ptr != 0 ==> ptr !in Live(a.events) && (r.align ==> PageAligned(ptr)) && (r.clean ==> Clean(b.m, ptr, r.size)))
  }

  lemma HeapAnswered(a: Moment, size: int, align: bool, grant: int, ptr: int, b: Moment)
    requires a.heap.At? && b.heap.At? && b.placement == a.placement && b.placed == a.placed && b.m == b.heap.s.m
    requires b.events == a.events + [HeapEvent(ptr, size)] && BelowKept(a.heap.s.lo, a.m, b.m)
    requires Answers(a.heap.s, Live(a.events), Alloc(size, align, grant), HeapEvent(ptr, size))
    requires Step(a.heap.s, b.heap.s, HeapEvent(ptr, size)) && Determined(a.heap.s, b.heap.s, size, align, grant, ptr)
    ensures HeapAnswer(a, Get(size, align, false, grant), ptr, b)
  {
  }

  lemma AnswerCleared(a: Moment, size: int, align: bool, grant: int, ptr: int, b: Moment, c: Moment)
    requires a.heap.At? && HeapAnswer(a, Get(size, align, false, grant), ptr, b)
    requires if ptr == 0 then c == b else Cleared(b, ptr, c) && Clean(c.m, ptr, size)
    requires ptr != 0 ==>
               Tiled(a.heap.s.layout, a.heap.s.lo, a.heap.s.hi) && Tiled(b.heap.s.layout, b.heap.s.lo, b.heap.s.hi)
    ensures HeapAnswer(a, Get(size, align, true, grant), ptr, c)
  {
    if ptr != 0 {
      BelowThen(a.heap.s.lo, a.m, b.m, c.m);
      ClearedStep(a.heap.s, b.heap.s, c.m, ptr, size);
    }
  }

  /** Only the payload of a block is different from one moment to the next. */
  ghost predicate Cleared(b: Moment, ptr: int, c: Moment) {
    && b.heap.At? && ptr - 16 in Used(b.heap.s.layout)
    && c == b.(m := c.m, heap := At(b.heap.s.(m := c.m))) && BelowKept(b.heap.s.lo, b.m, c.m)
    && Within(b.heap.s.m, c.m, ptr, ptr - 16 + Used(b.heap.s.layout)[ptr - 16] - 16)
  }

  /** The payload of a new block was free space, so clearing it is part of the step that handed it out. */
  lemma ClearedStep(s: Snapshot, s': Snapshot, m: Memory, ptr: int, size: int)
    requires Tiled(s.layout, s.lo, s.hi) && Tiled(s'.layout, s'.lo, s'.hi) && Step(s, s', Allocated(ptr, size))
    requires Within(s'.m, m, ptr, ptr - 16 + Used(s'.layout)[ptr - 16] - 16)
    ensures Step(s, s'.(m := m), Allocated(ptr, size))
  {
    forall w | Guarded(s.lo, w) && w < s.hi && !InFree(s.layout, w) ensures Rd(m, w) == Rd(s.m, w) {
      assert Rd(s'.m, w) == Rd(s.m, w);
      NotInNew(s, s', ptr, w);
    }
  }

  lemma NotInNew(s: Snapshot, s': Snapshot, ptr: int, w: int)
    requires Tiled(s.layout, s.lo, s.hi) && Tiled(s'.layout, s'.lo, s'.hi) && s'.lo == s.lo
    requires ptr - 16 !in Used(s.layout) && ptr - 16 in Used(s'.layout)
    requires Used(s'.layout) == Used(s.layout)[ptr - 16 := Used(s'.layout)[ptr - 16]]
    requires Guarded(s.lo, w) && w < s.hi && !InFree(s.layout, w)
    ensures w < ptr - 16 || ptr - 16 + Used(s'.layout)[ptr - 16] <= w
  {
    BlockBounds(s'.layout, s'.lo, s'.hi, ptr - 16);
    if s.lo <= w {
      var u := Covering(s.layout, s.lo, s.hi, s.lo, w);
      assert !IsFree(s.layout, u) && u in Used(s.layout);
      assert u in Used(s'.layout) && Used(s'.layout)[u] == s.layout[u].size;
    }
  }

  lemma RunTiled(h: Heap, events: seq<Event>)
    requires RunOk(h, events)
    ensures Tiled(h.layout, h.startAddr, h.endAddr)
  {
  }

  /** The block test that `heap_free` applies to a pointer. */
  predicate LooksLikeBlock(m: Memory, ptr: int) {
    && ptr != 0 && Rd(m, ptr - 16) == HEAP_MAGIC
    && Rd(m, ptr - 16 + SizeOf(Rd(m, ptr - 8)) - 16) == HEAP_MAGIC
  }

  /** It is the test that `heap_free` makes, and live blocks pass it. */
  lemma LiveLooksLikeBlock(h: Heap, events: seq<Event>, ptr: int)
    requires RunOk(h, events)
    ensures LooksLikeBlock(h.ram.m, ptr) <==> ptr != 0 && h.HeaderChecked(ptr)
    ensures ptr in Live(events) ==> LooksLikeBlock(h.ram.m, ptr)
  {
    if ptr in Live(events) {
      LiveBlock(h.layout, h.startAddr, h.endAddr, Live(events), ptr);
      CheckedWhenLive(h, ptr);
    }
  }

  /** A heap of one page behind the placement address: its structure, and then one free block. */
  ghost predicate NewHeap(placement: int, s: Snapshot) {
    && s.b.Repaired? && s.lo == placement + HeapStructSize(Repaired) && s.hi == placement + PAGE_SIZE
    && s.layout == map[s.lo := Blk(s.hi - s.lo, false)]
  }

  /** What a request must be answered, and what becomes of the allocator. */
  ghost predicate Responds(a: Moment, r: Request, ans: Answer, b: Moment) {
    match r
    case Get(size, align, clean, grant) =>
      if a.heap.At? then ans.Got? && HeapAnswer(a, r, ans.ptr, b)
      else if a.placement + PAGE_SIZE + size < W64 then ans.Got? && PlacedAnswer(a, r, ans.ptr, b)
      else ans == Passed && b == a
    case Release(ptr) =>
      if a.heap.NoHeap? || !LooksLikeBlock(a.m, ptr) then ans == Released && b == a
      else if ptr in Live(a.events) then
        && ans == Released && b.placed == a.placed && b.placement == a.placement && b.events == a.events + [Freed(ptr)]
        && b.heap.At? && b.m == b.heap.s.m && Step(a.heap.s, b.heap.s, Freed(ptr)) && BelowKept(a.heap.s.lo, a.m, b.m)
      else ans == Passed && b == a
    case StartHeap =>
      if a.heap.NoHeap? && a.placement % 16 == 0 && a.placement + PAGE_SIZE <= MAX_PADDR then
        && ans == Started && b.placed == a.placed && b.placement == 0x200000 && b.events == [] && b.heap.At?
        && b.m == b.heap.s.m
        && NewHeap(a.placement, b.heap.s)
        && forall w {:trigger Rd(b.m, w)} | w < a.placement :: Rd(b.m, w) == Rd(a.m, w)
      else ans == Passed && b == a
  }

  /** The i-th request was answered as it had to be at its moment. */
  ghost predicate RespondedAt(trace: seq<Moment>, requests: seq<Request>, answers: seq<Answer>, i: nat)
    requires i < |requests| && i < |answers| && i + 1 < |trace|
  {
    Responds(trace[i], requests[i], answers[i], trace[i + 1])
  }

  ghost predicate Responded(trace: seq<Moment>, requests: seq<Request>, answers: seq<Answer>, n: nat) {
    && n <= |requests| && |answers| == n && |trace| == n + 1
    && forall i {:trigger RespondedAt(trace, requests, answers, i)} | 0 <= i < n ::
         RespondedAt(trace, requests, answers, i)
  }

  lemma RespondedNext(trace: seq<Moment>, requests: seq<Request>, answers: seq<Answer>, n: nat, b: Moment, ans: Answer)
    requires Responded(trace, requests, answers, n) && n < |requests| && Responds(trace[n], requests[n], ans, b)
    ensures Responded(trace + [b], requests, answers + [ans], n + 1)
  {
    var trace', answers' := trace + [b], answers + [ans];
    forall i | 0 <= i < n + 1 ensures RespondedAt(trace', requests, answers', i) {
      if i < n { assert RespondedAt(trace, requests, answers, i); }
    }
  }

  class Manager {
    const ram: Ram
    const base: int
    var heap: Heap?
    var placement: int
    ghost var placed: seq<Span>
    ghost var top: int
    /** The clients' log of what they got from the heap and gave back. */
    var events: seq<Event>

    /** `mem_init` */
    constructor MemInit(ram: Ram, placement32: int)
      requires 0 <= placement32
      ensures Valid() && this.ram == ram && heap == null && placement == placement32 && placed == [] && events == []
    {
      this.ram, this.base, this.heap, this.placement := ram, placement32, null, placement32;
      this.placed, this.top, this.events := [], placement32, [];
    }

    ghost predicate Valid()
      reads this, ram, heap
    {
      && 0 <= base && PlacedOk(placed, base, top)
      && (heap == null ==> top == placement && events == [])
      && (heap != null ==> heap.ram == ram && RunOk(heap, events) && top <= heap.startAddr - HeapStructSize(Repaired))
    }

    /** `mem_init_heap`: a heap of one page at the placement address. */
    method MemInitHeap()
      requires Valid() && heap == null && placement % 16 == 0 && placement + PAGE_SIZE <= MAX_PADDR
      modifies this, ram
      ensures Valid() && heap != null && fresh(heap) && placed == old(placed) && events == [] && placement == 0x200000
      ensures NewHeap(old(placement), Snap(heap))
      ensures forall w {:trigger Rd(ram.m, w)} | w < old(placement) :: Rd(ram.m, w) == Rd(old(ram.m), w)
    {
      heap := new Heap.Create(Repaired, ram, placement, PAGE_SIZE);
      placement := 0x200000;
    }

    /** Memory that was placed before the switch keeps its contents. */
    twostate predicate PlacedKept()
      reads this, ram
    {
      forall w {:trigger Rd(ram.m, w)} | w < old(top) :: Rd(ram.m, w) == Rd(old(ram.m), w)
    }

    ghost function Now(): Moment
      reads this, ram, heap, if heap == null then {} else {heap.ram}
    {
      Moment(placement, placed, events, ram.m, if heap == null then NoHeap else At(Snap(heap)))
    }

    /** The placement branch of the four allocators, but for clearing. */
    method Place(size: int, align: bool) returns (ptr: int)
      requires Valid() && heap == null && 0 <= size && placement + PAGE_SIZE + size < W64
      modifies this`placement, this`placed, this`top
      ensures Valid() && PlacedAnswer(old(Now()), Get(size, align, false, 0), ptr, Now())
      ensures old(top) <= ptr && (align ==> PageAligned(ptr))
    {
      if align {
        AlignedUp(placement, (placement + 4095) / 4096);
        Times(4096, (placement + 4095) / 4096);
        placement := PageSizeAlign(placement);
      }
      ptr := placement;
      Placed(placed, base, top, Span(ptr, size));
      placement := placement + size;
      placed, top := placed + [Span(ptr, size)], placement;
    }

    /** The heap branch, but for clearing. */
    method FromHeap(size: int, align: bool, grant: int) returns (ptr: int)
      requires Valid() && heap != null && 0 <= size < W64
      modifies ram, heap`index, heap`layout, heap`endAddr, heap`locked, this`events
      ensures Valid() && PlacedKept() && HeapAnswer(old(Now()), Get(size, align, false, grant), ptr, Now())
      ensures ptr != 0 ==> Unstored(heap, events, ptr) && size <= Used(heap.layout)[ptr - 16] - HEAP_OVERHEAD
    {
      ghost var a := Now();
      ptr := Taken(size, align, grant);
      HeapAnswered(a, size, align, grant, ptr, Now());
    }

    method Taken(size: int, align: bool, grant: int) returns (ptr: int)
      requires Valid() && heap != null && 0 <= size < W64
      modifies ram, heap`index, heap`layout, heap`endAddr, heap`locked, this`events
      ensures Valid() && PlacedKept() && BelowKept(heap.startAddr, old(ram.m), ram.m)
      ensures events == old(events) + [HeapEvent(ptr, size)]
      ensures Answers(old(Snap(heap)), Live(old(events)), Alloc(size, align, grant), HeapEvent(ptr, size))
      ensures Step(old(Snap(heap)), Snap(heap), HeapEvent(ptr, size))
      ensures Determined(old(Snap(heap)), Snap(heap), size, align, grant, ptr)
      ensures ptr != 0 ==> Unstored(heap, events, ptr)
    {
      ghost var before, m := events, ram.m;
      var e := DoAlloc(heap, events, size, align, grant);
      ptr := if e.Allocated? then e.ptr else 0;
      if e.Allocated? {
        NothingStored(heap, before, m, ptr, size);
      }
      events := events + [e];
    }

    predicate Room(size: int)
      reads this
    {
      0 <= size < W64 && (heap == null ==> placement + PAGE_SIZE + size < W64)
    }

    method MemAlloc(size: int, grant: int) returns (ptr: int)
      requires Valid() && Room(size)
      modifies this, ram, if heap == null then {} else {heap}
      ensures Valid() && PlacedKept() && heap == old(heap)
      ensures Responds(old(Now()), Get(size, false, false, grant), Got(ptr), Now())
    {
      if heap != null {
        ptr := FromHeap(size, false, grant);
      } else {
        ptr := Place(size, false);
      }
    }

    method MemAllocAlign(size: int, grant: int) returns (ptr: int)
      requires Valid() && Room(size)
      modifies this, ram, if heap == null then {} else {heap}
      ensures Valid() && PlacedKept() && heap == old(heap)
      ensures Responds(old(Now()), Get(size, true, false, grant), Got(ptr), Now())
    {
      if heap != null {
        ptr := FromHeap(size, true, grant);
      } else {
        ptr := Place(size, true);
      }
    }

    method ClearBlock(ptr: int, ghost size: int)
      requires Valid() && heap != null && ptr != 0 && Unstored(heap, events, ptr)
      requires size <= Used(heap.layout)[ptr - 16] - HEAP_OVERHEAD
      modifies ram
      ensures Valid() && Cleared(old(Now()), ptr, Now()) && Clean(ram.m, ptr, size)
    {
      var n := heap.HeapAllocSize(ptr);
      ClearPayload(heap, events, ptr, n);
    }

    /**
     What `mem_alloc_clean` and `mem_alloc_ac` do with a heap block: all of it is cleared, not only what was asked
     for.
     */
    method CleanFromHeap(size: int, align: bool, grant: int) returns (ptr: int)
      requires Valid() && heap != null && 0 <= size < W64
      modifies ram, heap, this`events
      ensures Valid() && PlacedKept() && HeapAnswer(old(Now()), Get(size, align, true, grant), ptr, Now())
    {
      ghost var a := Now();
      RunTiled(heap, events);
      ptr := FromHeap(size, align, grant);
      ghost var b := Now();
      RunTiled(heap, events);
      if ptr != 0 {
        ClearBlock(ptr, size);
      }
      AnswerCleared(a, size, align, grant, ptr, b, Now());
    }

    /** What they do before the switch. */
    method CleanPlace(size: int, align: bool) returns (ptr: int)
      requires Valid() && heap == null && 0 <= size && placement + PAGE_SIZE + size < W64
      modifies ram, this`placement, this`placed, this`top
      ensures Valid() && PlacedKept() && PlacedAnswer(old(Now()), Get(size, align, true, 0), ptr, Now())
    {
      ptr := Place(size, align);
      MemFill(ram, ptr, size);
    }

    method MemAllocClean(size: int, grant: int) returns (ptr: int)
      requires Valid() && Room(size)
      modifies this, ram, if heap == null then {} else {heap}
      ensures Valid() && PlacedKept() && heap == old(heap)
      ensures Responds(old(Now()), Get(size, false, true, grant), Got(ptr), Now())
    {
      if heap != null {
        ptr := CleanFromHeap(size, false, grant);
      } else {
        ptr := CleanPlace(size, false);
      }
    }

    method MemAllocAc(size: int, grant: int) returns (ptr: int)
      requires Valid() && Room(size)
      modifies this, ram, if heap == null then {} else {heap}
      ensures Valid() && PlacedKept() && heap == old(heap)
      ensures Responds(old(Now()), Get(size, true, true, grant), Got(ptr), Now())
    {
      if heap != null {
        ptr := CleanFromHeap(size, true, grant);
      } else {
        ptr := CleanPlace(size, true);
      }
    }

    /**
     `mem_free`: before the switch nothing is ever freed; after it a live heap block is, and what is null or does
     not look like a block, as with regions placed before the switch, is ignored.
     */
    method MemFree(ptr: int)
      requires Valid() && (heap != null && LooksLikeBlock(ram.m, ptr) ==> ptr in Live(events))
      modifies ram, this`events, if heap == null then {} else {heap}
      ensures Valid() && PlacedKept() && heap == old(heap)
      ensures Responds(old(Now()), Release(ptr), Released, Now())
    {
      if heap != null {
        FreeKnown(ptr);
      }
    }

    method FreeKnown(ptr: int)
      requires Valid() && heap != null && (LooksLikeBlock(ram.m, ptr) ==> ptr in Live(events))
      modifies ram, this`events, heap
      ensures Valid() && PlacedKept() && Responds(old(Now()), Release(ptr), Released, Now())
    {
      LiveLooksLikeBlock(heap, events, ptr);
      FreeAny(heap, events, ptr);
      events := if ptr in Live(events) then events + [Freed(ptr)] else events;
    }

    /** Everything in use. */
    ghost predicate InUse(s: Span)
      reads this
    {
      s in placed || (s.ptr in Live(events) && s.size == Live(events)[s.ptr])
    }

    /** However many allocations of whichever kind came before and after the switch: no two spans in use overlap. */
    lemma InUseApart(s: Span, t: Span)
      requires Valid() && InUse(s) && InUse(t) && s != t
      ensures Apart(s, t)
    {
      if heap != null { RunEnds(heap, events); }
    }

    /** One request of a run. */
    method Serve(r: Request) returns (ans: Answer)
      requires Valid() && (r.Get? ==> 0 <= r.size < W64)
      modifies this, ram, if heap == null then {} else {heap}
      ensures Valid() && PlacedKept() && (old(heap) != null ==> heap == old(heap))
      ensures old(heap) == null && heap != null ==> fresh(heap)
      ensures Responds(old(Now()), r, ans, Now())
    {
      ans := Passed;
      match r
      case Get(size, align, clean, grant) =>
        if Room(size) {
          ans := ServeGet(size, align, clean, grant);
        }
      case Release(ptr) =>
        if heap == null || !LooksLikeBlock(ram.m, ptr) || ptr in Live(events) {
          MemFree(ptr);
          ans := Released;
        }
      case StartHeap =>
        if heap == null && placement % 16 == 0 && placement + PAGE_SIZE <= MAX_PADDR {
          MemInitHeap();
          ans := Started;
        }
    }

    method ServeGet(size: int, align: bool, clean: bool, grant: int) returns (ans: Answer)
      requires Valid() && Room(size)
      modifies this, ram, if heap == null then {} else {heap}
      ensures Valid() && PlacedKept() && heap == old(heap)
      ensures Responds(old(Now()), Get(size, align, clean, grant), ans, Now())
    {
      var ptr;
      if clean {
        ptr := ServeClean(size, align, grant);
      } else {
        ptr := ServePlain(size, align, grant);
      }
      ans := Got(ptr);
    }

    method ServePlain(size: int, align: bool, grant: int) returns (ptr: int)
      requires Valid() && Room(size)
      modifies this, ram, if heap == null then {} else {heap}
      ensures Valid() && PlacedKept() && heap == old(heap)
      ensures Responds(old(Now()), Get(size, align, false, grant), Got(ptr), Now())
    {
      if align {
        ptr := MemAllocAlign(size, grant);
      } else {
        ptr := MemAlloc(size, grant);
      }
    }

    method ServeClean(size: int, align: bool, grant: int) returns (ptr: int)
      requires Valid() && Room(size)
      modifies this, ram, if heap == null then {} else {heap}
      ensures Valid() && PlacedKept() && heap == old(heap)
      ensures Responds(old(Now()), Get(size, align, true, grant), Got(ptr), Now())
    {
      if align {
        ptr := MemAllocAc(size, grant);
      } else {
        ptr := MemAllocClean(size, grant);
      }
    }

    /**
     Any mix of the four allocators and of `mem_free`, before and after the switch to the heap: each request is
     answered as it must be at its moment, and in the end no two spans in use overlap.
     */
    method Run(requests: seq<Request>) returns (answers: seq<Answer>, ghost trace: seq<Moment>)
      requires Valid() && heap == null
               && forall i | 0 <= i < |requests| && requests[i].Get? :: 0 <= requests[i].size < W64
      modifies this, ram
      ensures Valid() && Responded(trace, requests, answers, |requests|)
      ensures trace[0] == old(Now()) && trace[|requests|] == Now()
      ensures forall s, t | InUse(s) && InUse(t) && s != t :: Apart(s, t)
    {
      answers, trace := [], [Now()];
      for i := 0 to |requests|
        invariant Valid() && (heap == null || fresh(heap))
        invariant Responded(trace, requests, answers, i) && trace[0] == old(Now()) && trace[i] == Now()
      {
        var ans := Serve(requests[i]);
        RespondedNext(trace, requests, answers, i, Now(), ans);
        answers, trace := answers + [ans], trace + [Now()];
      }
      forall s, t | InUse(s) && InUse(t) && s != t ensures Apart(s, t) { InUseApart(s, t); }
    }
  }
}
