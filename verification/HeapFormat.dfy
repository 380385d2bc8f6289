/** Constants, block format and size classes of the loader heap (heap.h and the macros of heap.c). */
module HeapFormat {
  import opened Machine

  const HEAP_MAGIC: int := 0xFFFFC0CAC01AFFFF
  const HEAP_OVERHEAD: int := 32
  const HEAP_LIST_MIN: int := 48
  const HEAP_LIST_MAX: int := 1056
  const HEAP_LIST_SPARSE: int := 16

  /** HEAP_LIST_COUNT. The repair gives every list size up to HEAP_LIST_MAX its own slot before the tree slot. */
  function ListCount(b: Build): int {
    match b
    case Shipped => (HEAP_LIST_MAX - HEAP_LIST_MIN) / HEAP_LIST_SPARSE
    case Repaired => (HEAP_LIST_MAX - HEAP_OVERHEAD) / HEAP_LIST_SPARSE + 1
  }

  /** HEAP_SIZE_IDX, for a block size of at most HEAP_LIST_MAX. */
  function SizeIdx(s: int): int {
    (s - HEAP_OVERHEAD) / HEAP_LIST_SPARSE
  }

  /** A size some block may have. */
  predicate GoodSize(s: int) {
    HEAP_LIST_MIN <= s && s % 16 == 0
  }

  /** The size has an index position: a list slot of its own, or the tree. */
  predicate Filed(b: Build, s: int) {
    s <= HEAP_LIST_MAX ==> SizeIdx(s) < ListCount(b)
  }

  /** Address of `heap->free[i]`; the array ends where the first block begins. */
  function Slot(b: Build, lo: int, i: int): int {
    lo - 8 * (ListCount(b) + 1 - i)
  }

  /** An address that is not one of `free[]`, in either build. */
  predicate Guarded(lo: int, w: int) {
    w < lo - 8 * (ListCount(Repaired) + 1) || lo <= w
  }

  /** sizeof(heap_t): four words and the `free` array. */
  function HeapStructSize(b: Build): int {
    32 + 8 * (ListCount(b) + 1)
  }

  /** HEAP_SIZE_ALIGN in 64-bit arithmetic. */
  function HeapSizeAlign(s: int): int {
    var t := Add64(s, 15);
    t - t % 16
  }

  /** HEAP_BSIZE of the aligned payload size, as `heap_alloc` computes it. */
  function BlockSizeFor(size: int): int {
    Add64(HeapSizeAlign(HeapSizeAlign(size)), HEAP_OVERHEAD)
  }

  /** HEAP_GET_SIZE and HEAP_GET_USED of a header's size word. */
  function SizeOf(w: int): int {
    w - w % 16
  }

  predicate UsedOf(w: int) {
    w % 2 == 1
  }

  /** The size word of a header, with its used bit. */
  function SizeWord(s: int, used: bool): int {
    s + if used then 1 else 0
  }

  /** The structure's size and where its lists and its tree are, in plain numbers. */
  lemma StructFormat(lo: int, i: int)
    ensures ListCount(Shipped) == 63 && ListCount(Repaired) == 65
    ensures HeapStructSize(Shipped) == 4 * 8 + 64 * 8 && HeapStructSize(Repaired) == 4 * 8 + 66 * 8
    ensures Slot(Shipped, lo, i) == lo - 64 * 8 + 8 * i && Slot(Repaired, lo, i) == lo - 66 * 8 + 8 * i
  {
  }

  /** The lower four bits of a size word are no part of the size, and the lowest of them is the used bit. */
  lemma SizeWordBits(q: int, flags: int)
    requires 0 <= flags < 16
    ensures SizeOf(16 * q + flags) == 16 * q && (UsedOf(16 * q + flags) <==> flags % 2 == 1)
  {
    assert (16 * q + flags) % 16 == flags;
    var n, r := flags / 2, flags % 2;
    assert 16 * q + flags == 2 * (8 * q + n) + r;
  }

  lemma SizeWordParts(s: int, used: bool)
    requires s % 16 == 0
    ensures SizeOf(SizeWord(s, used)) == s && UsedOf(SizeWord(s, used)) == used
    ensures SizeWord(s, used) - SizeWord(s, used) % 2 == s
  {
    LowBits(s / 16, if used then 1 else 0);
  }

  lemma LowBits(q: int, r: int)
    requires 0 <= r < 2
    ensures (16 * q + r) % 16 == r && (16 * q + r) % 2 == r
  {
    if r == 0 {
      Multiple16(q);
      Even(8 * q);
    } else {
      Multiple16AndOne(q);
      Odd(8 * q);
    }
  }

  lemma Multiple16(q: int)
    ensures (16 * q) % 16 == 0
  {
  }

  lemma Multiple16AndOne(q: int)
    ensures (16 * q + 1) % 16 == 1
  {
  }

  lemma Even(q: int)
    ensures (2 * q) % 2 == 0
  {
  }

  lemma Odd(q: int)
    ensures (2 * q + 1) % 2 == 1
  {
  }

  predicate PageAligned(a: int) {
    a % 4096 == 0
  }

  /** Size of what lies left of a block when its payload is moved up to a page boundary (`left_size`). */
  function LeftSize(addr: int): int {
    PageSizeAlign(addr + 16) - 16 - addr
  }

  /**
   The test by which the aligned searches accept a block whose payload is not page aligned:
   `right_size` is a 64-bit difference. The repair first checks that it does not wrap.
   */
  predicate FitTest(b: Build, addr: int, size: int, bsize: int) {
    && (b.Repaired? ==> LeftSize(addr) <= size)
    && HEAP_LIST_MIN <= LeftSize(addr)
    && bsize <= Sub64(size, LeftSize(addr))
  }

  /**
   Where `heap_alloc` cuts an unaligned block. The repair moves on to the next page when the leftover could not stand
   alone.
   */
  function CutFor(b: Build, addr: int): int {
    if PageAligned(addr + 16) then 0
    else if b.Repaired? && LeftSize(addr) < HEAP_LIST_MIN then LeftSize(addr) + PAGE_SIZE
    else LeftSize(addr)
  }

  /** The cut puts the payload on a page boundary. */
  lemma LeftSizeForPage(addr: int)
    requires addr % 16 == 0
    ensures PageAligned(addr + LeftSize(addr) + 16) && LeftSize(addr) % 16 == 0 && 0 <= LeftSize(addr) < PAGE_SIZE
  {
    var q, r := (addr + 16 + 4095) / 4096, (addr + 16) / 16;
    AlignedUp(addr + 16, q);
    SixteenthsOf(addr, r);
    Times(4096, q);
    Times(16, 256 * q - r);
  }

  lemma AlignedUp(n: int, q: int)
    requires q == (n + 4095) / 4096
    ensures PageSizeAlign(n) == 4096 * q && n <= 4096 * q < n + 4096
  {
  }

  lemma SixteenthsOf(addr: int, r: int)
    requires addr % 16 == 0 && r == (addr + 16) / 16
    ensures addr + 16 == 16 * r
  {
  }

  lemma Times(d: int, q: int)
    requires d == 16 || d == 4096
    ensures (d * q) % d == 0
  {
  }

  lemma CutForPage(b: Build, addr: int)
    requires addr % 16 == 0
    ensures PageAligned(addr + CutFor(b, addr) + 16) && CutFor(b, addr) % 16 == 0
    ensures 0 <= CutFor(b, addr) < PAGE_SIZE + HEAP_LIST_MIN
    ensures b.Repaired? && CutFor(b, addr) != 0 ==> HEAP_LIST_MIN <= CutFor(b, addr)
    ensures HEAP_LIST_MIN <= LeftSize(addr) && !PageAligned(addr + 16) ==> CutFor(b, addr) == LeftSize(addr)
  {
    LeftSizeForPage(addr);
    NextPageToo(addr + LeftSize(addr) + 16, LeftSize(addr));
  }

  /**
   The cut is the least that puts the payload on a page boundary and, after the repair, leaves nothing or a whole
   block.
   */
  lemma CutLeast(b: Build, addr: int, c: int)
    requires addr % 16 == 0 && 0 <= c && (addr + c + 16) % 4096 == 0 && (b.Repaired? && c != 0 ==> 48 <= c)
    ensures 0 <= CutFor(b, addr) <= c && (addr + CutFor(b, addr) + 16) % 4096 == 0
    ensures b.Repaired? && CutFor(b, addr) != 0 ==> 48 <= CutFor(b, addr)
  {
    CutForPage(b, addr);
    var p, q := (addr + c + 16) / 4096, (addr + CutFor(b, addr) + 16) / 4096;
    assert c - CutFor(b, addr) == 4096 * (p - q);
  }

  lemma NextPageToo(a: int, s: int)
    requires PageAligned(a) && s % 16 == 0
    ensures PageAligned(a + PAGE_SIZE) && (s + PAGE_SIZE) % 16 == 0
  {
  }

  lemma Sixteenths(a: int, b: int)
    requires a % 16 == 0 && b % 16 == 0
    ensures (a + b) % 16 == 0 && (a - b) % 16 == 0
  {
    var q, r := a / 16, b / 16;
    assert a + b == 16 * (q + r) && a - b == 16 * (q - r);
  }

  /** What `heap_alloc` asks `page_alloc` for. The repair leaves room for the cut of an aligned request. */
  function ExtendRequest(b: Build, bsize: int, align: bool): int {
    if b.Repaired? && align then bsize + PAGE_SIZE + HEAP_LIST_MIN else bsize
  }

  /** A block can be placed: it holds the cut and the request, and what is left over can stand alone and be filed. */
  predicate CarveOk(b: Build, addr: int, size: int, bsize: int, align: bool) {
    var cut := if align then CutFor(b, addr) else 0;
    && cut + bsize <= size
    && (cut != 0 ==> GoodSize(cut) && Filed(b, cut))
    && (HEAP_LIST_MIN <= size - cut - bsize ==> Filed(b, size - cut - bsize))
  }

  /** In the repaired build every accepted block, and every extension asked for, can be placed. */
  lemma RepairedCarve(addr: int, size: int, bsize: int, align: bool)
    requires 0 <= addr && addr % 16 == 0 && GoodSize(bsize) && bsize <= size < W64
    requires align ==>
               PageAligned(addr + 16) || FitTest(Repaired, addr, size, bsize)
                 || ExtendRequest(Repaired, bsize, true) <= size
    ensures CarveOk(Repaired, addr, size, bsize, align)
  {
    CutForPage(Repaired, addr);
    if align && !PageAligned(addr + 16) && FitTest(Repaired, addr, size, bsize) {
      FitTestRepaired(addr, size, bsize);
    }
  }

  /** A block of bsize really fits at the page boundary, behind a leftover that can stand alone. */
  predicate Fits(addr: int, size: int, bsize: int) {
    HEAP_LIST_MIN <= LeftSize(addr) && LeftSize(addr) + bsize <= size
  }

  /** An accepted block is large enough exactly when the difference did not wrap. */
  lemma FitTestExact(b: Build, addr: int, size: int, bsize: int)
    requires 0 <= addr && 0 < bsize && 0 <= size < W64
    requires FitTest(b, addr, size, bsize)
    ensures Fits(addr, size, bsize) <==> LeftSize(addr) <= size
    ensures b.Repaired? ==> Fits(addr, size, bsize)
  {
    var left := LeftSize(addr);
    assert left < 4096;
    if left <= size {
      assert Sub64(size, left) == size - left;
    }
  }

  /** What the shipped test accepts, in plain numbers: what lies beyond the cut wraps around if there is nothing. */
  lemma FitTestShipped(addr: int, size: int, bsize: int)
    requires 0 <= addr && 0 < size < W64
    ensures var left := LeftSize(addr);
            FitTest(Shipped, addr, size, bsize) <==>
              48 <= left && bsize <= if left <= size then size - left else size - left + 0x1_0000_0000_0000_0000
  {
    var left := LeftSize(addr);
    assert 48 <= left < 4096 + 48 || left < 48;
  }

  /** A block right at the start of a page passes the shipped test for a page it does not reach. */
  lemma FitTestWraps()
    ensures FitTest(Shipped, 0x200000, 2048, 2048) && !Fits(0x200000, 2048, 2048)
  {
  }

  /** The repair turns down exactly what wraps, and nothing that fits. */
  lemma FitTestRepaired(addr: int, size: int, bsize: int)
    requires 0 <= addr && 0 < bsize && 0 <= size < W64
    ensures FitTest(Repaired, addr, size, bsize) <==> Fits(addr, size, bsize)
  {
    var left := LeftSize(addr);
    if 0 <= left <= size {
      assert Sub64(size, left) == size - left;
    }
  }

  /** 64-bit rounding honours a request up to 2^64 - 48 bytes, and no request beyond. */
  lemma RequestHonoured(size: int)
    requires 0 < size < W64
    ensures size <= W64 - 48 <==> size <= BlockSizeFor(size) - HEAP_OVERHEAD
    ensures size <= W64 - 48 ==> GoodSize(BlockSizeFor(size)) && BlockSizeFor(size) < size + 48
  {
    Wraps(size + 15);
    var p := HeapSizeAlign(size);
    Wraps(p + 15);
    Wraps(HeapSizeAlign(p) + HEAP_OVERHEAD);
  }

  /** The block size of a request, in plain numbers. */
  lemma RoundedSize(size: int)
    requires 0 < size <= W64 - 48
    ensures BlockSizeFor(size) == (size + 15) / 16 * 16 + 32
  {
    Wraps(size + 15);
    var p := HeapSizeAlign(size);
    Wraps(p + 15);
    Wraps(HeapSizeAlign(p) + HEAP_OVERHEAD);
  }

  lemma Wraps(x: int)
    requires 0 <= x < 2 * W64
    ensures x % W64 == if x < W64 then x else x - W64
  {
  }

  /** The sizes without a slot are 1040 and 1056 as shipped, and none after the repair. */
  lemma MisfiledSizes(b: Build, s: int)
    requires GoodSize(s)
    ensures !Filed(b, s) <==> b.Shipped? && (s == 1040 || s == 1056)
  {
  }
}
