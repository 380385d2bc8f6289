/**
 Whole runs of a client on the heap, of either build: isolation of live blocks, and what is left when all is freed.
 */
module HeapRuns {
  import opened Machine
  import opened HeapFormat
  import opened HeapIndex
  import opened HeapSearch
  import opened HeapTiling
  import opened HeapBlocks
  import opened LoaderHeap

  /** What a client asks for. A request for pages may be granted by grant bytes. */
  datatype Op =
    | Alloc(size: int, align: bool, grant: int)
    | Free(ptr: int)
    | Store(ptr: int, offset: int, value: int)

  /** What came of it. */
  datatype Event =
    | Allocated(ptr: int, size: int)
    | Refused
    | Freed(ptr: int)
    | Stored(addr: int, value: int)

  /** The live pointers after a run and the sizes asked for them. */
  function Live(events: seq<Event>): map<int, int> {
    if events == [] then map[]
    else
      var live := Live(events[..|events| - 1]);
      match events[|events| - 1]
      case Allocated(ptr, size) => live[ptr := size]
      case Freed(ptr) => live - {ptr}
      case _ => live
  }

  /** A store without the payload of one live pointer. */
  function Without(c: map<int, int>, live: map<int, int>, ptr: int): map<int, int> {
    var size := if ptr in live then live[ptr] else 0;
    map w | w in c && !(ptr <= w < ptr + size) :: c[w]
  }

  /** The words a client has stored in blocks that are still live: the memory it believes to own. */
  function Contents(events: seq<Event>): map<int, int> {
    if events == [] then map[]
    else
      var before := events[..|events| - 1];
      var c := Contents(before);
      match events[|events| - 1]
      case Freed(ptr) => Without(c, Live(before), ptr)
      case Stored(addr, value) => c[addr := value]
      case _ => c
  }

  predicate Owned(live: map<int, int>, w: int) {
    exists p | p in live :: p <= w && w + 8 <= p + live[p]
  }

  /** Live blocks are exactly the used blocks, each at least as large as asked for. */
  ghost predicate Tracks(live: map<int, int>, used: map<int, int>) {
    && (forall p {:trigger LiveOk(live, used, p)} :: LiveOk(live, used, p))
    && (forall a {:trigger UsedOk(live, used, a)} :: UsedOk(live, used, a))
  }

  predicate LiveOk(live: map<int, int>, used: map<int, int>, p: int) {
    p in live ==> p - 16 in used && 0 < live[p] <= used[p - 16] - HEAP_OVERHEAD
  }

  predicate UsedOk(live: map<int, int>, used: map<int, int>, a: int) {
    a in used ==> a + 16 in live
  }

  /** The client's view: what it stored is what it reads. */
  ghost predicate Sees(m: Memory, live: map<int, int>, contents: map<int, int>) {
    forall w {:trigger w in contents} | w in contents :: Owned(live, w) && Rd(m, w) == contents[w]
  }

  /** The used block behind a live pointer. */
  lemma LiveBlock(L: Layout, lo: int, hi: int, live: map<int, int>, p: int)
    requires Tiled(L, lo, hi) && Tracks(live, Used(L)) && p in live
    ensures p - 16 in L && p - 16 in Used(L) && L[p - 16].used && 0 < live[p] <= L[p - 16].size - HEAP_OVERHEAD
    ensures lo <= p - 16 && p - 16 + L[p - 16].size <= hi
  {
    assert LiveOk(live, Used(L), p);
    BlockBounds(L, lo, hi, p - 16);
  }

  /** Payloads of used blocks are not free space, so a change of free space leaves them alone. */
  lemma OwnedNotFree(L: Layout, lo: int, hi: int, live: map<int, int>, w: int)
    requires Tiled(L, lo, hi) && Tracks(live, Used(L)) && Owned(live, w)
    ensures lo <= w < hi && !InFree(L, w)
  {
    var p :| p in live && p <= w && w + 8 <= p + live[p];
    LiveBlock(L, lo, hi, live, p);
    forall a | IsFree(L, a) ensures !(a <= w < a + L[a].size) {
      assert a < p - 16 || p - 16 < a;
    }
  }

  lemma StillSees(L: Layout, lo: int, hi: int, m: Memory, m': Memory, live: map<int, int>, contents: map<int, int>)
    requires Tiled(L, lo, hi) && Tracks(live, Used(L)) && Sees(m, live, contents) && FreeOnly(lo, hi, m, m', L)
    ensures Sees(m', live, contents)
  {
    forall w | w in contents ensures Owned(live, w) && Rd(m', w) == contents[w] {
      OwnedNotFree(L, lo, hi, live, w);
    }
  }

  /** Live payloads, with header and footer around them, are pairwise apart and inside the heap. */
  lemma LiveApart(L: Layout, lo: int, hi: int, live: map<int, int>, p: int, q: int)
    requires Tiled(L, lo, hi) && Tracks(live, Used(L)) && p in live && q in live && p < q
    ensures lo + 16 <= p && p + live[p] + 32 <= q && q + live[q] + 16 <= hi
  {
    LiveBlock(L, lo, hi, live, p);
    LiveBlock(L, lo, hi, live, q);
  }

  /** The invariant of a run. */
  ghost predicate Held(h: Heap, events: seq<Event>)
    reads h, h.ram
  {
    h.Valid() && Tracks(Live(events), Used(h.layout)) && Sees(h.ram.m, Live(events), Contents(events))
  }

  /** The same on the repaired heap, whose operations need no guard. */
  ghost predicate RunOk(h: Heap, events: seq<Event>)
    reads h, h.ram
  {
    Held(h, events) && h.build.Repaired?
  }

  lemma Appended(events: seq<Event>, e: Event)
    ensures var after := events + [e];
            && (e.Refused? ==> Live(after) == Live(events) && Contents(after) == Contents(events))
            && (e.Allocated? ==> Live(after) == Live(events)[e.ptr := e.size] && Contents(after) == Contents(events))
            && (e.Freed? ==>
                  Live(after) == Live(events) - {e.ptr}
                    && Contents(after) == Without(Contents(events), Live(events), e.ptr))
            && (e.Stored? ==> Live(after) == Live(events) && Contents(after) == Contents(events)[e.addr := e.value])
  {
    assert (events + [e])[..|events|] == events && (events + [e])[|events|] == e;
  }

  lemma AllocTracks(live: map<int, int>, used: map<int, int>, m: Memory, contents: map<int, int>, ptr: int, size: int,
                    s: int)
    requires Tracks(live, used) && Sees(m, live, contents)
    requires ptr - 16 !in used && 0 < size && size + HEAP_OVERHEAD <= s
    ensures ptr !in live
    ensures Tracks(live[ptr := size], used[ptr - 16 := s]) && Sees(m, live[ptr := size], contents)
  {
    var live', used' := live[ptr := size], used[ptr - 16 := s];
    assert LiveOk(live, used, ptr);
    forall p ensures LiveOk(live', used', p) { assert LiveOk(live, used, p); }
    forall a ensures UsedOk(live', used', a) { assert UsedOk(live, used, a); }
    forall w | w in contents ensures Owned(live', w) {
      var p :| p in live && p <= w && w + 8 <= p + live[p];
      assert p in live';
    }
  }

  /** Nothing below the heap structure has changed. */
  ghost predicate BelowKept(lo: int, m: Memory, m': Memory) {
    forall w {:trigger Rd(m', w)} | w < lo && Guarded(lo, w) :: Rd(m', w) == Rd(m, w)
  }

  lemma FreeSpaceAbove(L: Layout, lo: int, hi: int, m: Memory, m': Memory)
    requires Tiled(L, lo, hi) && FreeOnly(lo, hi, m, m', L)
    ensures BelowKept(lo, m, m')
  {
    forall w | w < lo && Guarded(lo, w) ensures Rd(m', w) == Rd(m, w) {
      assert forall a | IsFree(L, a) :: BlockOk(L, lo, hi, a);
      assert BlockOk(L, lo, hi, lo);
    }
  }

  // ----- What a request is answered -----

  /** A heap at one moment of a run: its build, its range, its memory, its blocks and its index. */
  datatype Snapshot = Snapshot(b: Build, lo: int, hi: int, m: Memory, layout: Layout, index: Index)

  ghost function Snap(h: Heap): Snapshot
    reads h, h.ram
  {
    Snapshot(h.build, h.startAddr, h.endAddr, h.ram.m, h.layout, h.index)
  }

  /** The whole invariant, of a heap at one moment. */
  ghost predicate AtRest(s: Snapshot) {
    && Sound(s.b, s.lo, s.hi, s.m, s.layout, s.index) && Coalesced(s.layout)
    && forall a {:trigger IsFree(s.layout, a)} :: IsFree(s.layout, a) <==> a in s.index.node
  }

  lemma ValidAtRest(h: Heap)
    requires h.Valid()
    ensures AtRest(Snap(h))
  {
    h.FreeIsIndexed();
  }

  /** `page_alloc` grants a request: whole pages, enough of them, within the physical addresses. */
  predicate Grantable(b: Build, hi: int, bsize: int, align: bool, grant: int) {
    ExtendRequest(b, bsize, align) <= grant && grant % PAGE_SIZE == 0 && 0 < grant && hi + grant <= MAX_PADDR
  }

  /** No free block serves an allocation. */
  ghost predicate NothingServes(s: Snapshot, size: int, align: bool) {
    if align then NoneEligible(s.b, s.index, BlockSizeFor(size)) else NoFreeFit(s.layout, BlockSizeFor(size))
  }

  /** An allocation cannot be met: its size is none, or nothing is found and no pages are granted. */
  ghost predicate Unmet(s: Snapshot, size: int, align: bool, grant: int) {
    || !(0 < size <= W64 - 48)
    || (!Grantable(s.b, s.hi, BlockSizeFor(size), align, grant) && NothingServes(s, size, align))
  }

  /**
   The heap grows exactly for an allocation that nothing serves, by what is granted; and which block serves it, from
   where and with how much, is determined.
   */
  ghost predicate Determined(s: Snapshot, s': Snapshot, size: int, align: bool, grant: int, ptr: int) {
    && s'.hi == s.hi + (if ptr != 0 && NothingServes(s, size, align) then grant else 0)
    && (ptr != 0 ==>
          && ptr - 16 in Used(s'.layout)
          && Given(s.b, s.layout, s.index, s.hi, BlockSizeFor(size), align, grant, ptr - 16, Used(s'.layout)[ptr - 16]))
  }

  /** A grant that is enough: whole pages for the rounded block and, repaired, for the cut of an aligned one. */
  predicate Enough(s: Snapshot, size: int, align: bool, grant: int) {
    && 0 < size <= 0xFFFF_FFFF_FFFF_FFD0
    && 0 < grant && grant % 4096 == 0 && s.hi + grant <= 0x10_0000_0000_0000
    && (size + 15) / 16 * 16 + 32 + (if align && s.b.Repaired? then 4096 + 48 else 0) <= grant
  }

  /** Where nothing serves a request, it is met exactly if enough is granted. */
  lemma EnoughIsMet(s: Snapshot, size: int, align: bool, grant: int)
    requires 0 <= size < W64
    ensures Enough(s, size, align, grant) ==> !Unmet(s, size, align, grant)
    ensures 0 < size && NothingServes(s, size, align) && !Unmet(s, size, align, grant) ==> Enough(s, size, align, grant)
  {
    if 0 < size <= W64 - 48 { RoundedSize(size); }
  }

  /**
   What a client of the shipped heap must check before a request: that the blocks involved can be removed, carved and
   filed. The repaired heap needs no check.
   */
  ghost predicate Safe(h: Heap, live: map<int, int>, op: Op)
    reads h
  {
    match op
    case Alloc(size, align, grant) =>
      h.AllocSafe(size, align, if h.GrantOk(BlockSizeFor(size), align, grant) then grant else 0)
    case Free(ptr) => ptr in live && ptr - 16 in h.layout ==> h.FreeSafe(ptr - 16)
    case Store(_, _, _) => true
  }

  predicate StoreFits(live: map<int, int>, ptr: int, offset: int) {
    ptr in live && 0 <= offset && offset % 8 == 0 && offset + 8 <= live[ptr]
  }

  /** What a request must be answered, given the heap and the live pointers when it comes. */
  ghost predicate Answers(s: Snapshot, live: map<int, int>, op: Op, e: Event) {
    match op
    case Alloc(size, align, grant) =>
      if Unmet(s, size, align, grant) then e == Refused
      else e.Allocated? && e.size == size && e.ptr != 0 && e.ptr !in live && (align ==> PageAligned(e.ptr))
    case Free(ptr) =>
      e == if ptr in live then Freed(ptr) else Refused
    case Store(ptr, offset, value) =>
      e == if ptr in live && 0 <= offset && offset % 8 == 0 && offset + 8 <= live[ptr] then Stored(ptr + offset, value)
           else Refused
  }

  /** What an event makes of the heap: its used blocks change by that event alone, and so does what is not free. */
  ghost predicate Step(s: Snapshot, s': Snapshot, e: Event) {
    && s'.b == s.b && s'.lo == s.lo && s.hi <= s'.hi
    && match e
       case Refused => s'.m == s.m && s'.layout == s.layout && s'.hi == s.hi
       case Allocated(ptr, size) =>
         && ptr - 16 !in Used(s.layout) && ptr - 16 in Used(s'.layout)
         && size + HEAP_OVERHEAD <= Used(s'.layout)[ptr - 16]
         && Used(s'.layout) == Used(s.layout)[ptr - 16 := Used(s'.layout)[ptr - 16]]
         && FreeOnly(s.lo, s.hi, s.m, s'.m, s.layout)
       case Freed(ptr) =>
         && ptr - 16 in Used(s.layout) && Used(s'.layout) == Used(s.layout) - {ptr - 16} && s'.hi == s.hi
         && FreeOnly(s.lo, s.hi, s.m, s'.m, Mark(s.layout, ptr - 16, false))
       case Stored(addr, value) =>
         s'.m == s.m[addr := value] && s'.layout == s.layout && s'.index == s.index && s'.hi == s.hi
  }

  /** Where a request is met, and with how much, is one place and one amount. */
  lemma GivenUnique(b: Build, L: Layout, ix: Index, hi: int, bsize: int, align: bool, grant: int, p: int, n: int,
                    q: int,
                    k: int)
    requires Given(b, L, ix, hi, bsize, align, grant, p, n) && Given(b, L, ix, hi, bsize, align, grant, q, k)
    ensures p == q && n == k
  {
    var x, s :| Obtained(b, L, ix, hi, bsize, align, grant, x, s) && PlacedIn(b, x, s, bsize, align, p, n);
    var y, t :| Obtained(b, L, ix, hi, bsize, align, grant, y, t) && PlacedIn(b, y, t, bsize, align, q, k);
    if align {
      if !NoneEligible(b, ix, bsize) { ChosenAlignedUnique(b, ix, x, y, bsize); }
    } else {
      if !NoFreeFit(L, bsize) { ChosenUnique(ix, x, y, bsize); }
    }
  }

  /** What a request is answered. */
  ghost predicate Outcome(s: Snapshot, s': Snapshot, size: int, align: bool, grant: int, ptr: int) {
    && AtRest(s') && (ptr == 0 <==> Unmet(s, size, align, grant)) && Determined(s, s', size, align, grant, ptr)
    && Step(s, s', if ptr == 0 then Refused else Allocated(ptr, size))
  }

  /** There is one answer to an allocation, and one layout after it. */
  lemma OneOutcome(s: Snapshot, u: Snapshot, v: Snapshot, size: int, align: bool, grant: int, p: int, q: int)
    requires AtRest(s) && Outcome(s, u, size, align, grant, p) && Outcome(s, v, size, align, grant, q)
    ensures p == q && u.hi == v.hi && u.layout == v.layout
  {
    if p != 0 {
      GivenUnique(s.b, s.layout, s.index, s.hi, BlockSizeFor(size), align, grant, p - 16, Used(u.layout)[p - 16],
                  q - 16, Used(v.layout)[q - 16]);
      LayoutUnique(u.layout, v.layout, u.lo, u.hi);
    }
  }

  method DoAlloc(h: Heap, ghost events: seq<Event>, size: int, align: bool, grant: int) returns (e: Event)
    requires Held(h, events) && 0 <= size < W64 && Safe(h, Live(events), Alloc(size, align, grant))
    modifies h.ram, h`index, h`layout, h`endAddr, h`locked
    ensures Held(h, events + [e]) && BelowKept(h.startAddr, old(h.ram.m), h.ram.m)
    ensures Answers(old(Snap(h)), Live(events), Alloc(size, align, grant), e) && Step(old(Snap(h)), Snap(h), e)
    ensures Determined(old(Snap(h)), Snap(h), size, align, grant, if e.Allocated? then e.ptr else 0)
    ensures Enough(old(Snap(h)), size, align, grant) ==> e.Allocated?
  {
    EnoughIsMet(Snap(h), size, align, grant);
    var ptr := AllocHeld(h, events, size, align, grant);
    e := if ptr == 0 then Refused else Allocated(ptr, size);
  }

  method AllocHeld(h: Heap, ghost events: seq<Event>, size: int, align: bool, grant: int) returns (ptr: int)
    requires Held(h, events) && 0 <= size < W64 && Safe(h, Live(events), Alloc(size, align, grant))
    modifies h.ram, h`index, h`layout, h`endAddr, h`locked
    ensures Held(h, events + [if ptr == 0 then Refused else Allocated(ptr, size)])
            && BelowKept(h.startAddr, old(h.ram.m), h.ram.m)
    ensures Outcome(old(Snap(h)), Snap(h), size, align, grant, ptr)
    ensures ptr != 0 ==> ptr !in Live(events) && (align ==> PageAligned(ptr))
  {
    ghost var L, m, live, contents := h.layout, h.ram.m, Live(events), Contents(events);
    ptr := AllocIfGranted(h, size, align, grant);
    StillSees(L, h.startAddr, old(h.endAddr), m, h.ram.m, live, contents);
    FreeSpaceAbove(L, h.startAddr, old(h.endAddr), m, h.ram.m);
    Appended(events, if ptr == 0 then Refused else Allocated(ptr, size));
    if ptr != 0 {
      AllocTracks(live, Used(L), h.ram.m, contents, ptr, size, Used(h.layout)[ptr - 16]);
    }
  }

  /** A block just allocated holds nothing its client stored. */
  lemma NothingStored(h: Heap, events: seq<Event>, m: Memory, ptr: int, size: int)
    requires Held(h, events + [Allocated(ptr, size)]) && ptr !in Live(events)
    requires Sees(m, Live(events), Contents(events))
    ensures Unstored(h, events + [Allocated(ptr, size)], ptr)
  {
    var after := events + [Allocated(ptr, size)];
    Appended(events, Allocated(ptr, size));
    LiveBlock(h.layout, h.startAddr, h.endAddr, Live(after), ptr);
    forall w | w in Contents(after) ensures w < ptr || ptr - 16 + Used(h.layout)[ptr - 16] - 16 <= w {
      assert w in Contents(events);
      var p :| p in Live(events) && p <= w && w + 8 <= p + Live(events)[p];
      InOtherBlock(h.layout, h.startAddr, h.endAddr, Live(after), ptr, p, w);
    }
  }

  lemma InOtherBlock(L: Layout, lo: int, hi: int, live: map<int, int>, ptr: int, p: int, w: int)
    requires Tiled(L, lo, hi) && Tracks(live, Used(L)) && ptr in live && p in live && p != ptr
    requires p <= w && w + 8 <= p + live[p]
    ensures ptr - 16 in Used(L) && (w < ptr || ptr - 16 + Used(L)[ptr - 16] - 16 <= w)
  {
    LiveBlock(L, lo, hi, live, p);
    LiveBlock(L, lo, hi, live, ptr);
  }

  /** No word of the block's payload is one its client stored. */
  ghost predicate Unstored(h: Heap, events: seq<Event>, ptr: int)
    reads h
  {
    ptr - 16 in Used(h.layout)
      && forall w | w in Contents(events) :: w < ptr || ptr - 16 + Used(h.layout)[ptr - 16] - 16 <= w
  }

  /** A word that no client has stored may be written. */
  lemma UnstoredWrite(m: Memory, live: map<int, int>, contents: map<int, int>, w: int, v: int)
    requires Sees(m, live, contents) && w !in contents
    ensures Sees(m[w := v], live, contents)
  {
  }

  method AllocIfGranted(h: Heap, size: int, align: bool, grant: int) returns (ptr: int)
    requires h.Valid() && 0 <= size < W64 && Safe(h, map[], Alloc(size, align, grant))
    modifies h.ram, h`index, h`layout, h`endAddr, h`locked
    ensures h.Valid() && FreeOnly(h.startAddr, old(h.endAddr), old(h.ram.m), h.ram.m, old(h.layout))
    ensures Outcome(old(Snap(h)), Snap(h), size, align, grant, ptr)
    ensures ptr != 0 ==> 0 < size && (align ==> PageAligned(ptr))
  {
    var g := if h.GrantOk(BlockSizeFor(size), align, grant) then grant else 0;
    ptr := h.HeapAlloc(size, align, g);
    ValidAtRest(h);
  }

  method DoFree(h: Heap, events: seq<Event>, ptr: int) returns (e: Event)
    requires Held(h, events) && Safe(h, Live(events), Free(ptr))
    modifies h.ram, h`index, h`layout, h`locked
    ensures Held(h, events + [e]) && BelowKept(h.startAddr, old(h.ram.m), h.ram.m)
    ensures Answers(old(Snap(h)), Live(events), Free(ptr), e) && Step(old(Snap(h)), Snap(h), e)
  {
    if ptr in Live(events) {
      FreeLive(h, events, ptr);
      e := Freed(ptr);
    } else {
      e := Refused;
      NothingDone(h, events);
    }
  }

  lemma NothingDone(h: Heap, events: seq<Event>)
    requires Held(h, events)
    ensures Held(h, events + [Refused]) && Step(Snap(h), Snap(h), Refused)
  {
    Appended(events, Refused);
  }

  method FreeLive(h: Heap, ghost events: seq<Event>, ptr: int)
    requires Held(h, events) && ptr in Live(events) && Safe(h, Live(events), Free(ptr))
    modifies h.ram, h`index, h`layout, h`locked
    ensures Held(h, events + [Freed(ptr)]) && BelowKept(h.startAddr, old(h.ram.m), h.ram.m)
    ensures Step(old(Snap(h)), Snap(h), Freed(ptr))
  {
    FreeAny(h, events, ptr);
  }

  /** `heap_free` of a live pointer, or of one that it ignores: null, or without a block in front of it. */
  method FreeAny(h: Heap, ghost events: seq<Event>, ptr: int)
    requires Held(h, events) && (ptr != 0 && h.HeaderChecked(ptr) ==> ptr in Live(events))
             && Safe(h, Live(events), Free(ptr))
    modifies h.ram, h`index, h`layout, h`locked
    ensures BelowKept(h.startAddr, old(h.ram.m), h.ram.m)
    ensures if ptr in Live(events) then Held(h, events + [Freed(ptr)]) && Step(old(Snap(h)), Snap(h), Freed(ptr))
            else Held(h, events) && Snap(h) == old(Snap(h))
  {
    ghost var L, m, live, contents := h.layout, h.ram.m, Live(events), Contents(events);
    Appended(events, Freed(ptr));
    if ptr in live {
      LiveBlock(L, h.startAddr, h.endAddr, live, ptr);
      CheckedWhenLive(h, ptr);
    }
    h.HeapFree(ptr);
    if ptr in live {
      FreedSees(L, h.startAddr, h.endAddr, m, h.ram.m, live, contents, ptr);
    }
  }

  lemma CheckedWhenLive(h: Heap, ptr: int)
    requires h.Valid() && ptr - 16 in Used(h.layout)
    ensures ptr != 0 && h.HeaderChecked(ptr)
  {
    CellParts(h.ram.m, h.layout, h.startAddr, h.endAddr, ptr - 16);
    assert Slot(h.build, h.startAddr, 0) < h.startAddr;
  }

  lemma FreedSees(L: Layout, lo: int, hi: int, m: Memory, m': Memory, live: map<int, int>, contents: map<int, int>,
                  ptr: int)
    requires Tiled(L, lo, hi) && Tracks(live, Used(L)) && Sees(m, live, contents) && ptr in live
    requires ptr - 16 in L && FreeOnly(lo, hi, m, m', Mark(L, ptr - 16, false))
    ensures BelowKept(lo, m, m')
    ensures Sees(m', live - {ptr}, Without(contents, live, ptr))
    ensures Tracks(live - {ptr}, Used(L) - {ptr - 16})
  {
    var M, live' := Mark(L, ptr - 16, false), live - {ptr};
    MarkTiled(L, lo, hi, ptr - 16, false);
    UsedMarked(L, ptr - 16);
    FreedTracks(live, Used(L), ptr);
    FreeSpaceAbove(M, lo, hi, m, m');
    forall w | w in Without(contents, live, ptr) ensures Owned(live', w) && Rd(m', w) == contents[w] {
      StillOwned(live, ptr, w);
      OwnedNotFree(M, lo, hi, live', w);
    }
  }

  lemma FreedTracks(live: map<int, int>, used: map<int, int>, ptr: int)
    requires Tracks(live, used) && ptr in live
    ensures Tracks(live - {ptr}, used - {ptr - 16})
  {
    var live', used' := live - {ptr}, used - {ptr - 16};
    forall p ensures LiveOk(live', used', p) { assert LiveOk(live, used, p); }
    forall a ensures UsedOk(live', used', a) { assert UsedOk(live, used, a); }
  }

  lemma StillOwned(live: map<int, int>, ptr: int, w: int)
    requires Owned(live, w) && ptr in live && !(ptr <= w < ptr + live[ptr])
    ensures Owned(live - {ptr}, w)
  {
    var p :| p in live && p <= w && w + 8 <= p + live[p];
    assert p in live - {ptr};
  }

  method StoreWord(h: Heap, a: int, w: int, value: int)
    requires h.Valid() && a in Used(h.layout) && a + 16 <= w && w + 8 <= a + Used(h.layout)[a] - 16
    modifies h.ram
    ensures h.Valid() && h.ram.m == old(h.ram.m)[w := value] && BelowKept(h.startAddr, old(h.ram.m), h.ram.m)
  {
    assert BlockOk(h.layout, h.startAddr, h.endAddr, a);
    PayloadWritten(h.build, h.startAddr, h.endAddr, h.ram.m, h.layout, h.index, a, w, value);
    h.ram.m := h.ram.m[w := value];
  }

  lemma StoredSees(m: Memory, live: map<int, int>, contents: map<int, int>, ptr: int, w: int, value: int)
    requires Sees(m, live, contents) && ptr in live && ptr <= w && w + 8 <= ptr + live[ptr]
    ensures Sees(m[w := value], live, contents[w := value])
  {
  }

  method DoStore(h: Heap, events: seq<Event>, ptr: int, offset: int, value: int) returns (e: Event)
    requires Held(h, events)
    modifies h.ram
    ensures Held(h, events + [e]) && BelowKept(h.startAddr, old(h.ram.m), h.ram.m)
    ensures Answers(old(Snap(h)), Live(events), Store(ptr, offset, value), e) && Step(old(Snap(h)), Snap(h), e)
  {
    if StoreFits(Live(events), ptr, offset) {
      e := StoreFitting(h, events, ptr, offset, value);
    } else {
      NothingDone(h, events);
      e := Refused;
    }
  }

  method StoreFitting(h: Heap, ghost events: seq<Event>, ptr: int, offset: int, value: int) returns (e: Event)
    requires Held(h, events) && StoreFits(Live(events), ptr, offset)
    modifies h.ram
    ensures Held(h, events + [e]) && BelowKept(h.startAddr, old(h.ram.m), h.ram.m)
    ensures e == Stored(ptr + offset, value) && Step(old(Snap(h)), Snap(h), e)
  {
    e := Stored(ptr + offset, value);
    StoreLive(h, events, ptr, ptr + offset, value);
  }

  method StoreLive(h: Heap, ghost events: seq<Event>, ptr: int, w: int, value: int)
    requires Held(h, events) && ptr in Live(events) && ptr <= w && w + 8 <= ptr + Live(events)[ptr]
    modifies h.ram
    ensures Held(h, events + [Stored(w, value)]) && BelowKept(h.startAddr, old(h.ram.m), h.ram.m)
    ensures Step(old(Snap(h)), Snap(h), Stored(w, value)) && h.ram.m == old(h.ram.m)[w := value]
  {
    Appended(events, Stored(w, value));
    StoredSees(h.ram.m, Live(events), Contents(events), ptr, w, value);
    LiveBlock(h.layout, h.startAddr, h.endAddr, Live(events), ptr);
    StoreWord(h, ptr - 16, w, value);
  }

  /** The i-th request was answered as it had to be by the heap of its moment, and the heap went on from there. */
  ghost predicate Answered(trace: seq<Snapshot>, ops: seq<Op>, events: seq<Event>, i: nat)
    requires i < |ops| && i < |events| && i + 1 < |trace|
  {
    && AtRest(trace[i]) && Answers(trace[i], Live(events[..i]), ops[i], events[i])
    && Step(trace[i], trace[i + 1], events[i])
    && Exactly(trace[i], trace[i + 1], ops[i], events[i])
  }

  ghost predicate Exactly(s: Snapshot, s': Snapshot, op: Op, e: Event) {
    if op.Alloc? then Determined(s, s', op.size, op.align, op.grant, if e.Allocated? then e.ptr else 0)
    else s'.hi == s.hi
  }

  ghost predicate Traced(trace: seq<Snapshot>, ops: seq<Op>, events: seq<Event>, n: nat) {
    && n <= |ops| && |events| == n && |trace| == n + 1
    && forall i {:trigger Answered(trace, ops, events, i)} | 0 <= i < n :: Answered(trace, ops, events, i)
  }

  lemma TracedNext(trace: seq<Snapshot>, ops: seq<Op>, events: seq<Event>, n: nat, s: Snapshot, e: Event)
    requires Traced(trace, ops, events, n) && n < |ops|
    requires AtRest(trace[n]) && Answers(trace[n], Live(events), ops[n], e) && Step(trace[n], s, e)
             && Exactly(trace[n], s, ops[n], e)
    ensures Traced(trace + [s], ops, events + [e], n + 1)
  {
    var trace', events' := trace + [s], events + [e];
    forall i | 0 <= i < n + 1 ensures Answered(trace', ops, events', i) {
      if i < n {
        assert Answered(trace, ops, events, i);
        assert events'[..i] == events[..i];
      } else {
        assert events'[..n] == events;
      }
    }
  }

  /** One request. */
  method Do(h: Heap, events: seq<Event>, op: Op) returns (e: Event)
    requires Held(h, events) && (op.Alloc? ==> 0 <= op.size < W64) && Safe(h, Live(events), op)
    modifies h.ram, h`index, h`layout, h`endAddr, h`locked
    ensures Held(h, events + [e]) && BelowKept(h.startAddr, old(h.ram.m), h.ram.m)
    ensures Answers(old(Snap(h)), Live(events), op, e) && Step(old(Snap(h)), Snap(h), e)
            && Exactly(old(Snap(h)), Snap(h), op, e)
  {
    match op {
      case Alloc(size, align, grant) => e := DoAlloc(h, events, size, align, grant);
      case Free(ptr) => e := DoFree(h, events, ptr);
      case Store(ptr, offset, value) => e := DoStore(h, events, ptr, offset, value);
    }
  }

  lemma BelowThen(lo: int, m: Memory, m1: Memory, m2: Memory)
    requires BelowKept(lo, m, m1) && BelowKept(lo, m1, m2)
    ensures BelowKept(lo, m, m2)
  {
    forall w | w < lo && Guarded(lo, w) ensures Rd(m2, w) == Rd(m, w) { assert Rd(m1, w) == Rd(m, w); }
  }

  lemma NothingUsed(used: map<int, int>)
    requires Tracks(map[], used)
    ensures used == map[]
  {
    forall a ensures a !in used { assert UsedOk(map[], used, a); }
  }

  lemma RunEnds(h: Heap, events: seq<Event>)
    requires Held(h, events)
    ensures forall p | p in Live(events) :: h.startAddr + 16 <= p && p + Live(events)[p] + 16 <= h.endAddr
    ensures forall p, q | p in Live(events) && q in Live(events) && p < q :: p + Live(events)[p] + 32 <= q
    ensures Live(events) == map[] ==> h.layout == map[h.startAddr := Blk(h.endAddr - h.startAddr, false)]
  {
    var live, L := Live(events), h.layout;
    forall p | p in live ensures h.startAddr + 16 <= p && p + live[p] + 16 <= h.endAddr {
      LiveBlock(L, h.startAddr, h.endAddr, live, p);
    }
    forall p, q | p in live && q in live && p < q ensures p + live[p] + 32 <= q {
      LiveApart(L, h.startAddr, h.endAddr, live, p, q);
    }
    if live == map[] {
      NothingUsed(Used(L));
      AllFree(L, h.startAddr, h.endAddr);
    }
  }

  /** What a session of requests has come to, of whatever build the heap is. */
  ghost predicate Isolated(h: Heap, events: seq<Event>)
    reads h, h.ram
  {
    && (forall p | p in Live(events) :: h.startAddr + 16 <= p && p + Live(events)[p] + 16 <= h.endAddr)
    && (forall p, q | p in Live(events) && q in Live(events) && p < q :: p + Live(events)[p] + 32 <= q)
    && (forall w | w in Contents(events) :: Rd(h.ram.m, w) == Contents(events)[w])
    && (Live(events) == map[] ==> h.layout == map[h.startAddr := Blk(h.endAddr - h.startAddr, false)])
  }

  /**
   A client of a heap: what it has asked for, what it got, and the heap before each request and after the last one.
   */
  class Session {
    const h: Heap
    var events: seq<Event>
    ghost var ops: seq<Op>
    ghost var trace: seq<Snapshot>

    constructor (h: Heap)
      requires h.Valid() && Used(h.layout) == map[]
      ensures Valid() && this.h == h && events == [] && ops == [] && trace == [Snap(h)]
    {
      this.h, this.events, this.ops, this.trace := h, [], [], [Snap(h)];
    }

    ghost predicate Valid()
      reads this, h, h.ram
    {
      && Held(h, events) && Traced(trace, ops, events, |ops|) && trace[|ops|] == Snap(h)
      && BelowKept(h.startAddr, trace[0].m, h.ram.m)
    }

    /**
     Any request that is safe at its moment. It is answered as the heap of that moment demands: an allocation is refused
     exactly if it cannot be met.
     */
    method Request(op: Op) returns (e: Event)
      requires Valid() && (op.Alloc? ==> 0 <= op.size < W64) && Safe(h, Live(events), op)
      modifies this, h.ram, h`index, h`layout, h`endAddr, h`locked
      ensures Valid() && ops == old(ops) + [op] && events == old(events) + [e] && trace == old(trace) + [Snap(h)]
    {
      ghost var m := h.ram.m;
      ValidAtRest(h);
      e := Do(h, events, op);
      BelowThen(h.startAddr, trace[0].m, m, h.ram.m);
      Longer(trace, ops, events, op);
      TracedNext(trace, ops + [op], events, |ops|, Snap(h), e);
      events, ops, trace := events + [e], ops + [op], trace + [Snap(h)];
    }

    /**
     However many requests there were: every live block holds what was asked for, lies inside the heap apart from all
     others, and still has every word its owner stored in it; when everything has been freed the heap is one free block.
     */
    lemma Keeps()
      requires Valid()
      ensures Isolated(h, events)
    {
      RunEnds(h, events);
    }
  }

  lemma Longer(trace: seq<Snapshot>, ops: seq<Op>, events: seq<Event>, op: Op)
    requires Traced(trace, ops, events, |ops|)
    ensures Traced(trace, ops + [op], events, |ops|)
  {
    forall i | 0 <= i < |ops| ensures Answered(trace, ops + [op], events, i) { assert Answered(trace, ops, events, i); }
  }

  /** A run of any requests on the repaired heap, which has no unsafe ones. */
  method Run(h: Heap, ops: seq<Op>) returns (events: seq<Event>, ghost trace: seq<Snapshot>)
    requires h.Valid() && h.build.Repaired? && Used(h.layout) == map[]
    requires forall i | 0 <= i < |ops| && ops[i].Alloc? :: 0 <= ops[i].size < W64
    modifies h.ram, h`index, h`layout, h`endAddr, h`locked
    ensures Traced(trace, ops, events, |ops|) && trace[0] == old(Snap(h)) && trace[|ops|] == Snap(h)
    ensures RunOk(h, events) && BelowKept(h.startAddr, old(h.ram.m), h.ram.m) && Isolated(h, events)
  {
    var s := new Session(h);
    for i := 0 to |ops|
      invariant s.Valid() && s.h == h && fresh(s) && s.ops == ops[..i] && s.trace[0] == old(Snap(h))
    {
      var e := s.Request(ops[i]);
      assert ops[..i + 1] == ops[..i] + [ops[i]];
    }
    assert ops[..|ops|] == ops;
    s.Keeps();
    events, trace := s.events, s.trace;
  }

  /** Freeing a block that was free space in an earlier state s brings the used blocks of s back, and its layout. */
  method FreeNew(h: Heap, ptr: int, ghost s: Snapshot, ghost size: int)
    requires h.Valid() && h.build.Repaired? && AtRest(s) && Step(s, Snap(h), Allocated(ptr, size))
    modifies h.ram, h`index, h`layout, h`locked
    ensures h.Valid() && Step(old(Snap(h)), Snap(h), Freed(ptr)) && Used(h.layout) == Used(s.layout)
    ensures h.endAddr == s.hi ==> h.layout == s.layout
  {
    CheckedWhenLive(h, ptr);
    h.HeapFree(ptr);
    assert Used(h.layout) == Used(s.layout);
    if h.endAddr == s.hi { LayoutUnique(h.layout, s.layout, h.startAddr, h.endAddr); }
  }

  /**
   Freeing what was just allocated restores the layout, unless the heap had to grow. In between, the block was in
   use, and it was the only one that had not been before.
   */
  method AllocThenFree(h: Heap, size: int, align: bool, grant: int) returns (ptr: int, ghost middle: Snapshot)
    requires h.Valid() && h.build.Repaired? && 0 <= size < W64
    modifies h.ram, h`index, h`layout, h`endAddr, h`locked
    ensures h.Valid() && Used(h.layout) == old(Used(h.layout)) && h.endAddr == middle.hi
    ensures Outcome(old(Snap(h)), middle, size, align, grant, ptr)
    ensures if ptr == 0 then Snap(h) == middle else Step(middle, Snap(h), Freed(ptr))
    ensures h.endAddr == old(h.endAddr) ==> h.layout == old(h.layout)
  {
    ghost var s := Snap(h);
    ValidAtRest(h);
    ptr := AllocIfGranted(h, size, align, grant);
    middle := Snap(h);
    if ptr != 0 {
      FreeNew(h, ptr, s, size);
    }
  }
}
