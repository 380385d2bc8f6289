/**
 `heap_realloc` with its repairs: no lock around the calls that take it themselves, nothing is copied or freed
 when no block could be had, and a size whose rounding would wrap is refused.
 */
module HeapRealloc {
  import opened Machine
  import opened HeapFormat
  import opened HeapTiling
  import opened HeapBlocks
  import opened LoaderHeap
  import opened HeapRuns

  /** HEAP_ALIGN rounds down. */
  function AlignDown(size: int): int {
    size - size % 16
  }

  /** Rounding down still leaves room: a block kept in place holds the new size, and so does the block asked for. */
  lemma RoomEitherWay(size: int, now: int)
    requires now % 16 == 0
    ensures now > AlignDown(size) ==> size <= now
    ensures size < AlignDown(size) + HEAP_OVERHEAD && (now <= AlignDown(size) ==> now <= size)
  {
    var q, r := size / 16, now / 16;
    assert size == 16 * q + size % 16 && now == 16 * r;
  }

  /** The payload of a live block, up to its footer. */
  function PayloadSize(L: Layout, ptr: int): int {
    if ptr - 16 in L then L[ptr - 16].size - HEAP_OVERHEAD else 0
  }

  lemma PayloadParts(h: Heap, events: seq<Event>, ptr: int)
    requires RunOk(h, events) && ptr in Live(events)
    ensures ptr - 16 in Used(h.layout) && PayloadSize(h.layout, ptr) == Used(h.layout)[ptr - 16] - HEAP_OVERHEAD
    ensures PayloadSize(h.layout, ptr) % 16 == 0 && 0 < Live(events)[ptr] <= PayloadSize(h.layout, ptr)
    ensures ptr != 0 && h.startAddr + 16 <= ptr && ptr + PayloadSize(h.layout, ptr) + 16 <= h.endAddr
  {
    LiveBlock(h.layout, h.startAddr, h.endAddr, Live(events), ptr);
    CheckedWhenLive(h, ptr);
    assert BlockOk(h.layout, h.startAddr, h.endAddr, ptr - 16);
    Sixteenths(h.layout[ptr - 16].size, HEAP_OVERHEAD);
  }

  /** n bytes at q are what they were at p. */
  ghost predicate Copied(m: Memory, m': Memory, p: int, q: int, n: int) {
    forall w {:trigger Rd(m', w)} | q <= w < q + n && (w - q) % 8 == 0 :: Rd(m', w) == Rd(m, p + (w - q))
  }

  lemma PayloadsApart(h: Heap, events: seq<Event>, p: int, q: int)
    requires RunOk(h, events) && p in Live(events) && q in Live(events) && p != q
    ensures p + PayloadSize(h.layout, p) <= q || q + PayloadSize(h.layout, q) <= p
  {
    PayloadParts(h, events, p);
    PayloadParts(h, events, q);
    assert BlockOk(h.layout, h.startAddr, h.endAddr, p - 16) && BlockOk(h.layout, h.startAddr, h.endAddr, q - 16);
  }

  /** The client's view after n bytes were copied from p to q. */
  ghost predicate Viewed(m: Memory, c: map<int, int>, c': map<int, int>, p: int, q: int, n: int) {
    && (forall w {:trigger w in c'} | q <= w < q + n && (w - q) % 8 == 0 :: w in c' && c'[w] == Rd(m, p + (w - q)))
    && ContentsKept(c, c', q, n)
  }

  /** Outside n bytes at q, what a client stored is still in its view. */
  ghost predicate ContentsKept(c: map<int, int>, c': map<int, int>, q: int, n: int) {
    forall w {:trigger w in c'} {:trigger w in c} | w in c && !(q <= w < q + n) :: w in c' && c'[w] == c[w]
  }

  lemma ViewedNext(m: Memory, c: map<int, int>, c': map<int, int>, p: int, q: int, i: int)
    requires Viewed(m, c, c', p, q, i) && 0 <= i && i % 8 == 0
    ensures Viewed(m, c, c'[q + i := Rd(m, p + i)], p, q, i + 8)
  {
    var d := c'[q + i := Rd(m, p + i)];
    forall w | q <= w < q + i + 8 && (w - q) % 8 == 0 ensures w in d && d[w] == Rd(m, p + (w - q)) {
      assert w < q + i ==> w in c';
    }
  }

  /** `mem_copy` of a whole payload into a larger one, a word at a time. */
  method MemCopy(h: Heap, ghost events: seq<Event>, p: int, q: int, n: int) returns (ghost after: seq<Event>)
    requires RunOk(h, events) && p in Live(events) && q in Live(events) && p != q
    requires n == PayloadSize(h.layout, p) <= Live(events)[q]
    modifies h.ram
    ensures RunOk(h, after) && Live(after) == Live(events) && BelowKept(h.startAddr, old(h.ram.m), h.ram.m)
    ensures Within(old(h.ram.m), h.ram.m, q, q + n) && h.layout == old(h.layout)
    ensures Viewed(old(h.ram.m), Contents(events), Contents(after), p, q, n)
  {
    PayloadParts(h, events, p);
    PayloadParts(h, events, q);
    PayloadsApart(h, events, p, q);
    ghost var m0 := h.ram.m;
    after := events;
    var i := 0;
    while i < n
      invariant 0 <= i <= n && i % 8 == 0 && RunOk(h, after) && Live(after) == Live(events)
      invariant BelowKept(h.startAddr, m0, h.ram.m) && Within(m0, h.ram.m, q, q + n)
      invariant Viewed(m0, Contents(events), Contents(after), p, q, i)
    {
      EightMore(n, i);
      var v := Rd(h.ram.m, p + i);
      assert v == Rd(m0, p + i);
      ViewedNext(m0, Contents(events), Contents(after), p, q, i);
      CopyWord(h, after, m0, q, i, n, v);
      after := after + [Stored(q + i, v)];
      i := i + 8;
    }
  }

  method CopyWord(h: Heap, ghost events: seq<Event>, ghost m0: Memory, q: int, i: int, ghost n: int, v: int)
    requires RunOk(h, events) && q in Live(events) && 0 <= i && i + 8 <= n <= Live(events)[q]
    requires BelowKept(h.startAddr, m0, h.ram.m) && Within(m0, h.ram.m, q, q + n)
    modifies h.ram
    ensures RunOk(h, events + [Stored(q + i, v)])
    ensures Live(events + [Stored(q + i, v)]) == Live(events)
            && Contents(events + [Stored(q + i, v)]) == Contents(events)[q + i := v]
    ensures BelowKept(h.startAddr, m0, h.ram.m) && Within(m0, h.ram.m, q, q + n)
  {
    ghost var m := h.ram.m;
    Appended(events, Stored(q + i, v));
    StoreLive(h, events, q, q + i, v);
    BelowThen(h.startAddr, m0, m, h.ram.m);
    forall w | w < q || q + n <= w ensures Rd(h.ram.m, w) == Rd(m0, w) { assert Rd(m, w) == Rd(m0, w); }
  }

  lemma EightMore(n: int, i: int)
    requires n % 16 == 0 && i % 8 == 0 && i < n
    ensures i + 8 <= n
  {
  }

  /** What became of a request to resize the block at ptr. */
  ghost predicate Resized(h: Heap, m: Memory, n: int, before: seq<Event>, after: seq<Event>, ptr: int, size: int,
                          r: int)
    reads h, h.ram
  {
    if r == 0 then
      Live(after) == Live(before) && Contents(after) == Contents(before)
    else if r == ptr then
      after == before && size <= PayloadSize(h.layout, ptr)
    else
      Moved(m, h.ram.m, n, before, after, ptr, size, r)
  }

  /** The block has moved with all its words to a place of its own, and no other client notices. */
  ghost predicate Moved(m: Memory, m': Memory, n: int, before: seq<Event>, after: seq<Event>, ptr: int, size: int,
                        r: int)
  {
    && r !in Live(before) && r in Live(after) && size < Live(after)[r]
    && Live(after) == (Live(before) - {ptr})[r := Live(after)[r]]
    && Copied(m, m', ptr, r, n) && ContentsKept(Contents(before), Contents(after), ptr, n)
  }

  /** Allocating elsewhere leaves the payload of a live block as it is. */
  lemma AllocKeepsPayload(L: Layout, lo: int, hi: int, m: Memory, m': Memory, ptr: int)
    requires Tiled(L, lo, hi) && ptr - 16 in L && L[ptr - 16].used && FreeOnly(lo, hi, m, m', L)
    ensures forall w {:trigger Rd(m', w)} | ptr <= w < ptr + PayloadSize(L, ptr) :: Rd(m', w) == Rd(m, w)
  {
    assert BlockOk(L, lo, hi, ptr - 16);
    forall w | ptr <= w < ptr + PayloadSize(L, ptr) ensures Rd(m', w) == Rd(m, w) {
      forall a | IsFree(L, a) ensures !(a <= w < a + L[a].size) { assert BlockOk(L, lo, hi, a); }
      assert !InFree(L, w) && Guarded(lo, w);
    }
  }

  /** The new block of a move. */
  method NewHome(h: Heap, ghost events: seq<Event>, ptr: int, want: int, now: int, align: bool, grant: int)
    returns (r: int, ghost after: seq<Event>)
    requires RunOk(h, events) && 0 <= want < W64 && (ptr == 0 || ptr in Live(events))
             && now == PayloadSize(h.layout, ptr)
    modifies h.ram, h`index, h`layout, h`endAddr, h`locked
    ensures RunOk(h, after) && BelowKept(h.startAddr, old(h.ram.m), h.ram.m)
    ensures Contents(after) == Contents(events)
    ensures Step(old(Snap(h)), Snap(h), if r == 0 then Refused else Allocated(r, want))
    ensures (r == 0 <==> Unmet(old(Snap(h)), want, align, grant)) && (r != 0 && align ==> PageAligned(r))
    ensures r == 0 ==> Live(after) == Live(events)
    ensures r != 0 ==> r !in Live(events) && Live(after) == Live(events)[r := want] && Unstored(h, after, r)
    ensures ptr != 0 ==>
              && now == PayloadSize(h.layout, ptr)
              && forall w {:trigger Rd(h.ram.m, w)} | ptr <= w < ptr + now :: Rd(h.ram.m, w) == Rd(old(h.ram.m), w)
  {
    ghost var L, hi, m := h.layout, h.endAddr, h.ram.m;
    if ptr != 0 { PayloadParts(h, events, ptr); }
    var e := DoAlloc(h, events, want, align, grant);
    after := events + [e];
    Appended(events, e);
    r := if e.Allocated? then e.ptr else 0;
    if e.Allocated? { NothingStored(h, events, m, r, want); }
    if ptr != 0 {
      AllocKeepsPayload(L, h.startAddr, hi, m, h.ram.m, ptr);
      PayloadParts(h, after, ptr);
    }
  }

  lemma NoNullBlock(h: Heap, events: seq<Event>)
    requires RunOk(h, events)
    ensures 0 !in Live(events) && PayloadSize(h.layout, 0) == 0
  {
    if 0 in Live(events) { LiveBlock(h.layout, h.startAddr, h.endAddr, Live(events), 0); }
    assert -16 in h.layout ==> BlockOk(h.layout, h.startAddr, h.endAddr, -16);
    assert BlockOk(h.layout, h.startAddr, h.endAddr, h.startAddr) && Slot(h.build, h.startAddr, 0) < h.startAddr;
  }

  /** Copying out of the old block and freeing it. */
  method MoveOver(h: Heap, ghost events: seq<Event>, ptr: int, r: int, now: int) returns (ghost after: seq<Event>)
    requires RunOk(h, events) && ptr in Live(events) && r in Live(events) && ptr != r && Unstored(h, events, r)
    requires now == PayloadSize(h.layout, ptr) <= Live(events)[r]
    modifies h.ram, h`index, h`layout, h`locked
    ensures RunOk(h, after) && BelowKept(h.startAddr, old(h.ram.m), h.ram.m) && Live(after) == Live(events) - {ptr}
    ensures Copied(old(h.ram.m), h.ram.m, ptr, r, now) && ContentsKept(Contents(events), Contents(after), ptr, now)
  {
    ghost var m0 := h.ram.m;
    PayloadParts(h, events, ptr);
    PayloadParts(h, events, r);
    PayloadsApart(h, events, ptr, r);
    ghost var mid := MemCopy(h, events, ptr, r, now);
    ghost var m1 := h.ram.m;
    PayloadParts(h, mid, ptr);
    Appended(mid, Freed(ptr));
    FreeLive(h, mid, ptr);
    after := mid + [Freed(ptr)];
    BelowThen(h.startAddr, m0, m1, h.ram.m);
    MovedView(m0, h.ram.m, Contents(events), Contents(mid), Live(mid), ptr, r, now);
  }

  /** The client's view after the old block has gone. */
  lemma MovedView(m0: Memory, m: Memory, c: map<int, int>, mid: map<int, int>, live: map<int, int>, ptr: int, r: int,
                  now: int)
    requires Viewed(m0, c, mid, ptr, r, now) && ptr in live && live[ptr] <= now
    requires ptr + now <= r || r + now <= ptr
    requires forall w | w in c :: w < r || r + now <= w
    requires forall w | w in Without(mid, live, ptr) :: Rd(m, w) == Without(mid, live, ptr)[w]
    ensures Copied(m0, m, ptr, r, now) && ContentsKept(c, Without(mid, live, ptr), ptr, now)
  {
    forall w | r <= w < r + now && (w - r) % 8 == 0 ensures Rd(m, w) == Rd(m0, ptr + (w - r)) {
      assert w in mid && w in Without(mid, live, ptr);
    }
    forall w | w in c && !(ptr <= w < ptr + now)
      ensures w in Without(mid, live, ptr) && Without(mid, live, ptr)[w] == c[w] {
      assert w in mid && mid[w] == c[w];
    }
  }

  lemma CopiedFrom(m0: Memory, m1: Memory, m2: Memory, p: int, q: int, n: int)
    requires Copied(m1, m2, p, q, n) && forall w {:trigger Rd(m1, w)} | p <= w < p + n :: Rd(m1, w) == Rd(m0, w)
    ensures Copied(m0, m2, p, q, n)
  {
    forall w | q <= w < q + n && (w - q) % 8 == 0 ensures Rd(m2, w) == Rd(m0, p + (w - q)) {
      assert Rd(m2, w) == Rd(m1, p + (w - q));
    }
  }

  /** The same, counted from before the new block was found. */
  method MoveHome(h: Heap, ghost events: seq<Event>, ptr: int, r: int, now: int, ghost m0: Memory)
    returns (ghost after: seq<Event>)
    requires RunOk(h, events) && ptr in Live(events) && r in Live(events) && ptr != r && Unstored(h, events, r)
    requires now == PayloadSize(h.layout, ptr) <= Live(events)[r] && BelowKept(h.startAddr, m0, h.ram.m)
    requires forall w {:trigger Rd(h.ram.m, w)} | ptr <= w < ptr + now :: Rd(h.ram.m, w) == Rd(m0, w)
    modifies h.ram, h`index, h`layout, h`locked
    ensures RunOk(h, after) && BelowKept(h.startAddr, m0, h.ram.m) && Live(after) == Live(events) - {ptr}
    ensures Copied(m0, h.ram.m, ptr, r, now) && ContentsKept(Contents(events), Contents(after), ptr, now)
  {
    ghost var m1 := h.ram.m;
    after := MoveOver(h, events, ptr, r, now);
    BelowThen(h.startAddr, m0, m1, h.ram.m);
    CopiedFrom(m0, m1, h.ram.m, ptr, r, now);
  }

  /** A new block and then the copy, or for a null pointer the new block alone, make a move. */
  lemma HomeIsMoved(m0: Memory, m: Memory, now: int, before: seq<Event>, mid: seq<Event>, after: seq<Event>,
                    ptr: int, size: int, r: int, want: int)
    requires r !in Live(before) && Live(mid) == Live(before)[r := want] && Contents(mid) == Contents(before)
             && size < want && ptr != r
    requires if ptr == 0 then after == mid && now == 0 && 0 !in Live(before)
             else && Live(after) == Live(mid) - {ptr} && Copied(m0, m, ptr, r, now)
                  && ContentsKept(Contents(mid), Contents(after), ptr, now)
    ensures Moved(m0, m, now, before, after, ptr, size, r)
  {
    assert (Live(before) - {ptr})[r := want] == Live(before)[r := want] - {ptr};
  }

  method Move(h: Heap, ghost events: seq<Event>, ptr: int, size: int, now: int, align: bool, grant: int)
    returns (r: int, ghost after: seq<Event>)
    requires RunOk(h, events) && 0 <= size <= W64 - 48 && (ptr == 0 || ptr in Live(events))
    requires now == PayloadSize(h.layout, ptr) <= AlignDown(size)
    modifies h.ram, h`index, h`layout, h`endAddr, h`locked
    ensures RunOk(h, after) && BelowKept(h.startAddr, old(h.ram.m), h.ram.m)
    ensures if r == 0 then Live(after) == Live(events) && Contents(after) == Contents(events)
            else Moved(old(h.ram.m), h.ram.m, now, events, after, ptr, size, r)
    ensures r == 0 <==> Unmet(old(Snap(h)), AlignDown(size) + HEAP_OVERHEAD, align, grant)
    ensures r != 0 && align ==> PageAligned(r)
  {
    ghost var m0 := h.ram.m;
    NoNullBlock(h, events);
    RoomEitherWay(size, 0);
    r, after := NewHome(h, events, ptr, AlignDown(size) + HEAP_OVERHEAD, now, align, grant);
    if r != 0 {
      ghost var mid := after;
      if ptr != 0 {
        after := MoveHome(h, mid, ptr, r, now, m0);
      }
      HomeIsMoved(m0, h.ram.m, now, events, mid, after, ptr, size, r, AlignDown(size) + HEAP_OVERHEAD);
    }
  }

  /**
   `heap_realloc`: the block stays exactly if it is large enough; otherwise a larger one, on a page boundary if
   wanted, takes over all its words, and no other client notices. It fails exactly if the block cannot stay and
   no other can be had.
   */
  method Realloc(h: Heap, ghost events: seq<Event>, ptr: int, size: int, align: bool, grant: int)
    returns (r: int, ghost after: seq<Event>)
    requires RunOk(h, events) && 0 <= size < W64 && (ptr == 0 || ptr in Live(events))
    modifies h.ram, h`index, h`layout, h`endAddr, h`locked
    ensures RunOk(h, after) && BelowKept(h.startAddr, old(h.ram.m), h.ram.m)
    ensures Resized(h, old(h.ram.m), old(PayloadSize(h.layout, ptr)), events, after, ptr, size, r)
    ensures r != 0 && r == ptr <==> AlignDown(size) < old(PayloadSize(h.layout, ptr))
    ensures r == 0 <==>
              && old(PayloadSize(h.layout, ptr)) <= AlignDown(size)
              && (W64 - 48 < size || Unmet(old(Snap(h)), AlignDown(size) + HEAP_OVERHEAD, align, grant))
    ensures r != 0 && r != ptr && align ==> PageAligned(r)
  {
    var psize := AlignDown(size);
    NoNullBlock(h, events);
    if ptr != 0 { PayloadParts(h, events, ptr); }
    RoomEitherWay(size, PayloadSize(h.layout, ptr));
    var now := h.HeapAllocSize(ptr);
    if now > psize {
      r, after := ptr, events;
    } else if size > W64 - 48 {
      r, after := 0, events;
    } else {
      r, after := Move(h, events, ptr, size, now, align, grant);
    }
  }

  // ----- The code as it stands -----

  /** `heap_wait_lock`: whoever finds the lock taken waits; if it is the holder, for ever. */
  method WaitLock(h: Heap) returns (spins: bool)
    modifies h`locked
    ensures spins == old(h.locked) && h.locked
  {
    spins := h.locked;
    h.locked := true;
  }

  /**
   `heap_realloc` up to its call of `heap_alloc`, which waits for the lock again: it never returns unless the block
   stays.
   */
  method ReallocAsItStands(h: Heap, ptr: int, size: int) returns (spins: bool, r: int)
    requires h.Valid() && 0 <= size && (ptr == 0 || ptr - 16 in Used(h.layout))
    modifies h`locked
    ensures spins <==> PayloadSize(h.layout, ptr) <= AlignDown(size)
    ensures !spins ==> r == ptr && h.Valid()
  {
    NullPayload(h);
    var now := h.HeapAllocSize(ptr);
    if now > AlignDown(size) {
      spins, r := false, ptr;
    } else {
      spins := WaitLock(h);
      spins := WaitLock(h);
      r := 0;
    }
  }

  lemma NullPayload(h: Heap)
    requires h.Valid()
    ensures PayloadSize(h.layout, 0) == 0
  {
    assert -16 in h.layout ==> BlockOk(h.layout, h.startAddr, h.endAddr, -16);
    assert BlockOk(h.layout, h.startAddr, h.endAddr, h.startAddr) && Slot(h.build, h.startAddr, 0) < h.startAddr;
  }

  /** What `heap_realloc` without its outer lock does with a block. */
  datatype Fate = Stays | Moves | Short(overrun: bool) | Lost | Overruns

  /** The rounded size and what is added to it do not fit 64 bits. */
  predicate RoundingWraps(size: int) {
    W64 <= AlignDown(size) + HEAP_OVERHEAD
  }

  /** What is asked for, in plain numbers; it wraps for the last 32 sizes, to nothing or to 16 bytes. */
  lemma WrappedSize(size: int)
    requires 0 <= size < W64
    ensures AlignDown(size) + HEAP_OVERHEAD == size / 16 * 16 + 32
    ensures RoundingWraps(size) <==> 0xFFFF_FFFF_FFFF_FFE0 <= size
    ensures var want := Add64(AlignDown(size), HEAP_OVERHEAD);
            if RoundingWraps(size) then want == 0 || want == 16
            else want == AlignDown(size) + HEAP_OVERHEAD && size < want
  {
    RoomEitherWay(size, 0);
    var q := size / 16;
    assert size == 16 * q + size % 16;
  }

  /**
   The same code with the outer lock taken away. If the rounding wraps, a request for almost all of the address space
   is answered with a block for 16 bytes, which the copy overruns exactly if the old payload is larger than the new one.
   A refusal is not noticed: the old payload is copied to address 0, and then the block is freed. It is lost, unless the
   copy is so long that it overruns the heap structure.
   */
  method ReallocWithoutLock(h: Heap, ghost events: seq<Event>, ptr: int, size: int, align: bool, grant: int)
    returns (fate: Fate, r: int, ghost after: seq<Event>, ghost middle: Snapshot)
    requires RunOk(h, events) && 0 <= size < W64 && ptr in Live(events)
    modifies h.ram, h`index, h`layout, h`endAddr, h`locked
    ensures var now, want := old(PayloadSize(h.layout, ptr)), Add64(AlignDown(size), HEAP_OVERHEAD);
            var refused := Unmet(old(Snap(h)), want, align, grant);
            && (fate.Stays? <==> AlignDown(size) < now)
            && (fate.Moves? <==> now <= AlignDown(size) && !refused && !RoundingWraps(size))
            && (fate.Short? <==> now <= AlignDown(size) && !refused && RoundingWraps(size))
            && (fate.Lost? <==> now <= AlignDown(size) && refused && now <= h.startAddr - HeapStructSize(h.build))
    ensures fate.Stays? ==> r == ptr && after == events && Snap(h) == old(Snap(h))
    ensures fate.Moves? ==>
              && RunOk(h, after) && (align ==> PageAligned(r))
              && Moved(old(h.ram.m), h.ram.m, old(PayloadSize(h.layout, ptr)), events, after, ptr, size, r)
    ensures fate.Short? ==>
              && Step(old(Snap(h)), middle, Allocated(r, 16))
              && (fate.overrun <==> PayloadSize(middle.layout, r) < old(PayloadSize(h.layout, ptr)))
    ensures fate == Short(false) ==>
              && RunOk(h, after)
              && Moved(old(h.ram.m), h.ram.m, old(PayloadSize(h.layout, ptr)), events, after, ptr, 15, r)
    ensures fate == Short(true) ==> FooterOverrun(middle, h.ram.m, ptr, r)
    ensures fate.Lost? ==>
              && RunOk(h, after) && r == 0
              && Live(after) == Live(events) - {ptr} && Contents(after) == Without(Contents(events), Live(events), ptr)
  {
    WrappedSize(size);
    PayloadParts(h, events, ptr);
    var now := h.HeapAllocSize(ptr);
    if now > AlignDown(size) {
      fate, r, after, middle := Stays, ptr, events, Snap(h);
    } else {
      fate, r, after, middle := Relocate(h, events, ptr, now, Add64(AlignDown(size), HEAP_OVERHEAD),
                                         RoundingWraps(size), align, grant);
    }
  }

  /** What follows once the block cannot stay. */
  method Relocate(h: Heap, ghost events: seq<Event>, ptr: int, now: int, want: int, wraps: bool, align: bool,
                  grant: int)
    returns (fate: Fate, r: int, ghost after: seq<Event>, ghost middle: Snapshot)
    requires RunOk(h, events) && 0 <= want < W64 && ptr in Live(events) && now == PayloadSize(h.layout, ptr)
    requires !wraps ==> now <= want
    modifies h.ram, h`index, h`layout, h`endAddr, h`locked
    ensures var refused := Unmet(old(Snap(h)), want, align, grant);
            && (fate.Lost? || fate.Overruns? <==> refused)
            && (fate.Lost? <==> refused && now <= h.startAddr - HeapStructSize(h.build))
            && (fate.Short? <==> !refused && wraps) && (fate.Moves? <==> !refused && !wraps)
    ensures fate.Moves? || fate.Short? ==>
              && Step(old(Snap(h)), middle, Allocated(r, want)) && r !in Live(events) && (align ==> PageAligned(r))
              && (fate == Short(true) <==> fate.Short? && PayloadSize(middle.layout, r) < now)
    ensures fate.Moves? || fate == Short(false) ==>
              && RunOk(h, after) && Live(after) == Live(events)[r := want] - {ptr}
              && Copied(old(h.ram.m), h.ram.m, ptr, r, now) && ContentsKept(Contents(events), Contents(after), ptr, now)
    ensures fate == Short(true) ==> FooterOverrun(middle, h.ram.m, ptr, r)
    ensures fate.Lost? ==>
              && RunOk(h, after) && r == 0
              && Live(after) == Live(events) - {ptr} && Contents(after) == Without(Contents(events), Live(events), ptr)
  {
    ghost var m0 := h.ram.m;
    PayloadParts(h, events, ptr);
    r, after := NewHome(h, events, ptr, want, now, align, grant);
    middle := Snap(h);
    if r == 0 {
      fate, after := MoveNowhere(h, after, ptr, now);
    } else {
      fate, after := MoveAnyway(h, after, ptr, r, now, wraps);
      if fate != Short(true) { CopiedFrom(m0, middle.m, h.ram.m, ptr, r, now); }
    }
  }

  /** After a refusal. */
  method MoveNowhere(h: Heap, ghost events: seq<Event>, ptr: int, now: int)
    returns (fate: Fate, ghost after: seq<Event>)
    requires RunOk(h, events) && ptr in Live(events) && 0 <= now
    modifies h.ram, h`index, h`layout, h`locked
    ensures fate == if now <= h.startAddr - HeapStructSize(h.build) then Lost else Overruns
    ensures fate.Lost? ==>
              && RunOk(h, after) && Live(after) == Live(events) - {ptr}
              && Contents(after) == Without(Contents(events), Live(events), ptr)
  {
    after := events;
    if now <= h.startAddr - HeapStructSize(h.build) {
      fate := Lost;
      after := CopyToNull(h, events, ptr, now);
    } else {
      fate := Overruns;
      CopyRaw(h.ram, ptr, 0, now);
    }
  }

  /** With a new block, whatever its size. */
  method MoveAnyway(h: Heap, ghost events: seq<Event>, ptr: int, r: int, now: int, wraps: bool)
    returns (fate: Fate, ghost after: seq<Event>)
    requires RunOk(h, events) && ptr in Live(events) && r in Live(events) && ptr != r && Unstored(h, events, r)
    requires now == PayloadSize(h.layout, ptr) && (!wraps ==> now <= Live(events)[r])
    modifies h.ram, h`index, h`layout, h`locked
    ensures fate == if wraps then Short(old(PayloadSize(h.layout, r)) < now) else Moves
    ensures fate == Short(true) ==> FooterOverrun(old(Snap(h)), h.ram.m, ptr, r)
    ensures fate != Short(true) ==>
              && RunOk(h, after) && Live(after) == Live(events) - {ptr}
              && Copied(old(h.ram.m), h.ram.m, ptr, r, now) && ContentsKept(Contents(events), Contents(after), ptr, now)
  {
    if wraps {
      var overrun;
      overrun, after := MoveShort(h, events, ptr, r, now);
      fate := Short(overrun);
    } else {
      after := MoveOver(h, events, ptr, r, now);
      fate := Moves;
    }
  }

  /** `mem_copy` to wherever: each word gets what is at its source by then. */
  method CopyRaw(ram: Ram, p: int, q: int, n: int)
    modifies ram
    ensures Within(old(ram.m), ram.m, q, q + n) && RawCopied(old(ram.m), ram.m, p, q, n)
  {
    ghost var m0 := ram.m;
    var i := 0;
    while i < n
      invariant 0 <= i && i % 8 == 0 && Within(m0, ram.m, q, q + i) && Within(m0, ram.m, q, q + n)
                && RawCopied(m0, ram.m, p, q, i)
    {
      ghost var m := ram.m;
      ram.m := ram.m[q + i := Rd(ram.m, p + i)];
      RawNext(m0, m, p, q, i, n);
      i := i + 8;
    }
  }

  /** The j-th byte's word was copied, unless the copy itself had reached its source before. */
  predicate RawWord(m0: Memory, m: Memory, p: int, q: int, j: int) {
    !(q <= p + j < q + j) ==> Rd(m, q + j) == Rd(m0, p + j)
  }

  ghost predicate RawCopied(m0: Memory, m: Memory, p: int, q: int, i: int) {
    forall j {:trigger RawWord(m0, m, p, q, j)} | 0 <= j < i && j % 8 == 0 :: RawWord(m0, m, p, q, j)
  }

  lemma RawNext(m0: Memory, m: Memory, p: int, q: int, i: int, n: int)
    requires 0 <= i < n && i % 8 == 0 && Within(m0, m, q, q + i) && RawCopied(m0, m, p, q, i)
    ensures var m' := m[q + i := Rd(m, p + i)];
            Within(m0, m', q, q + i + 8) && Within(m0, m', q, q + n) && RawCopied(m0, m', p, q, i + 8)
  {
    var m' := m[q + i := Rd(m, p + i)];
    forall w | w < q || q + i + 8 <= w || q + n <= w ensures Rd(m', w) == Rd(m0, w) { assert Rd(m, w) == Rd(m0, w); }
    forall j | 0 <= j < i + 8 && j % 8 == 0 ensures RawWord(m0, m', p, q, j) {
      if j < i { assert RawWord(m0, m, p, q, j); } else { assert Rd(m, p + i) == Rd(m, p + i); }
    }
  }

  /** The footer of the block at q is replaced by words of the payload at p. */
  ghost predicate FooterOverrun(s: Snapshot, m: Memory, p: int, q: int) {
    var n := PayloadSize(s.layout, q);
    Rd(m, q + n) == Rd(s.m, p + n) && Rd(m, q + n + 8) == Rd(s.m, p + n + 8)
  }

  /** Copying to a block that is too small for the request, and freeing the old one if the copy did no harm. */
  method MoveShort(h: Heap, ghost events: seq<Event>, ptr: int, r: int, now: int)
    returns (overrun: bool, ghost after: seq<Event>)
    requires RunOk(h, events) && ptr in Live(events) && r in Live(events) && ptr != r && Unstored(h, events, r)
    requires now == PayloadSize(h.layout, ptr)
    modifies h.ram, h`index, h`layout, h`locked
    ensures overrun <==> old(PayloadSize(h.layout, r)) < now
    ensures overrun ==> FooterOverrun(old(Snap(h)), h.ram.m, ptr, r)
    ensures !overrun ==>
              && RunOk(h, after) && Live(after) == Live(events) - {ptr}
              && Copied(old(h.ram.m), h.ram.m, ptr, r, now) && ContentsKept(Contents(events), Contents(after), ptr, now)
  {
    PayloadParts(h, events, ptr);
    PayloadParts(h, events, r);
    PayloadsApart(h, events, ptr, r);
    after := events;
    var room := h.HeapAllocSize(r);
    overrun := room < now;
    if overrun {
      SixteenMore(now, room);
      CopyRaw(h.ram, ptr, r, now);
      assert RawWord(old(h.ram.m), h.ram.m, ptr, r, room) && RawWord(old(h.ram.m), h.ram.m, ptr, r, room + 8);
    } else {
      CopySpare(h, events, ptr, r, now);
      after := FreeCopied(h, events, ptr, r, now);
    }
  }

  lemma SixteenMore(a: int, b: int)
    requires a % 16 == 0 && b % 16 == 0 && b < a
    ensures b + 16 <= a && b % 8 == 0 && (b + 8) % 8 == 0
  {
  }

  /** Copying to a payload that holds no word its client has stored. */
  method CopySpare(h: Heap, ghost events: seq<Event>, p: int, q: int, n: int)
    requires RunOk(h, events) && q - 16 in Used(h.layout) && Unstored(h, events, q) && (p + n <= q || q + n <= p)
    requires n <= PayloadSize(h.layout, q) && n % 16 == 0
    modifies h.ram
    ensures RunOk(h, events) && Copied(old(h.ram.m), h.ram.m, p, q, n) && Within(old(h.ram.m), h.ram.m, q, q + n)
  {
    ghost var m0 := h.ram.m;
    var i := 0;
    while i < n
      invariant 0 <= i && i % 8 == 0 && RunOk(h, events) && Within(m0, h.ram.m, q, q + n)
                && Copied(m0, h.ram.m, p, q, i)
    {
      EightMore(n, i);
      ghost var m := h.ram.m;
      assert Rd(m, p + i) == Rd(m0, p + i);
      SpareWord(h, events, q, i, Rd(h.ram.m, p + i));
      CopiedNext(m0, m, p, q, i);
      forall w | w < q || q + n <= w ensures Rd(h.ram.m, w) == Rd(m0, w) { assert Rd(m, w) == Rd(m0, w); }
      i := i + 8;
    }
  }

  method SpareWord(h: Heap, ghost events: seq<Event>, q: int, i: int, v: int)
    requires RunOk(h, events) && q - 16 in Used(h.layout) && Unstored(h, events, q)
    requires 0 <= i && i + 8 <= PayloadSize(h.layout, q)
    modifies h.ram
    ensures RunOk(h, events) && h.ram.m == old(h.ram.m)[q + i := v]
  {
    UnstoredWrite(h.ram.m, Live(events), Contents(events), q + i, v);
    StoreWord(h, q - 16, q + i, v);
  }

  lemma CopiedNext(m0: Memory, m: Memory, p: int, q: int, i: int)
    requires Copied(m0, m, p, q, i) && 0 <= i && i % 8 == 0 && Rd(m, p + i) == Rd(m0, p + i)
    ensures Copied(m0, m[q + i := Rd(m, p + i)], p, q, i + 8)
  {
    var m' := m[q + i := Rd(m, p + i)];
    forall w | q <= w < q + i + 8 && (w - q) % 8 == 0 ensures Rd(m', w) == Rd(m0, p + (w - q)) {
      assert w < q + i ==> Rd(m, w) == Rd(m0, p + (w - q));
    }
  }

  lemma KeptByFree(c: map<int, int>, live: map<int, int>, ptr: int, now: int)
    requires ptr in live && live[ptr] <= now
    ensures ContentsKept(c, Without(c, live, ptr), ptr, now)
  {
  }

  /** Freeing the old block leaves the copy. */
  method FreeCopied(h: Heap, ghost events: seq<Event>, ptr: int, r: int, now: int) returns (ghost after: seq<Event>)
    requires RunOk(h, events) && ptr in Live(events) && r in Live(events) && ptr != r
    requires now == PayloadSize(h.layout, ptr) <= PayloadSize(h.layout, r)
    modifies h.ram, h`index, h`layout, h`locked
    ensures RunOk(h, after) && Live(after) == Live(events) - {ptr}
            && ContentsKept(Contents(events), Contents(after), ptr, now)
    ensures forall w {:trigger Rd(h.ram.m, w)} | r <= w < r + now :: Rd(h.ram.m, w) == Rd(old(h.ram.m), w)
  {
    ghost var L, m := h.layout, h.ram.m;
    PayloadParts(h, events, ptr);
    PayloadParts(h, events, r);
    Appended(events, Freed(ptr));
    FreeLive(h, events, ptr);
    after := events + [Freed(ptr)];
    KeptByFree(Contents(events), Live(events), ptr, now);
    MarkTiled(L, h.startAddr, h.endAddr, ptr - 16, false);
    AllocKeepsPayload(Mark(L, ptr - 16, false), h.startAddr, h.endAddr, m, h.ram.m, r);
  }

  /** Copying a payload to address 0, below the heap, and freeing the block. */
  method CopyToNull(h: Heap, ghost events: seq<Event>, ptr: int, now: int) returns (ghost after: seq<Event>)
    requires RunOk(h, events) && ptr in Live(events) && 0 <= now <= h.startAddr - HeapStructSize(h.build)
    modifies h.ram, h`index, h`layout, h`locked
    ensures RunOk(h, after) && Live(after) == Live(events) - {ptr}
    ensures Contents(after) == Without(Contents(events), Live(events), ptr)
  {
    ghost var m := h.ram.m;
    CopyRaw(h.ram, ptr, 0, now);
    LowWritten(h.build, h.startAddr, h.endAddr, m, h.ram.m, h.layout, h.index, now);
    LowSees(h.layout, h.startAddr, h.endAddr, m, h.ram.m, Live(events), Contents(events), now);
    Appended(events, Freed(ptr));
    FreeLive(h, events, ptr);
    after := events + [Freed(ptr)];
  }

  lemma LowSees(L: Layout, lo: int, hi: int, m: Memory, m': Memory, live: map<int, int>, contents: map<int, int>,
                n: int)
    requires Tiled(L, lo, hi) && Tracks(live, Used(L)) && Sees(m, live, contents) && Within(m, m', 0, n) && n <= lo
    ensures Sees(m', live, contents)
  {
    forall w | w in contents ensures Owned(live, w) && Rd(m', w) == contents[w] { OwnedNotFree(L, lo, hi, live, w); }
  }
}
