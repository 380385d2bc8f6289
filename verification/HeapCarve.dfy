/**
 Aligned requests: when the shipped code cuts a block in two that does not hold the parts, and what becomes of the
 heap.
 */
module HeapCarve {
  import opened Machine
  import opened HeapFormat
  import opened HeapIndex
  import opened IndexMemory
  import opened HeapTiling
  import opened HeapBlocks
  import opened HeapDefects

  // ----- Aligned requests after an extension -----

  /**
   An aligned request served by an extension behind a last block that is used (left == 0) or has left free bytes, of a
   heap with any end. The shipped code asks for the block alone; that fits behind the cut exactly if the distance to the
   page boundary is made up by the free bytes and by what rounding up to pages adds. The cut is too small to be a block
   exactly for a free block 32 or 48 bytes below a page boundary.
   */
  lemma ShippedExtension(end: int, left: int, bsize: int)
    requires 0 <= left <= end && end % 16 == 0 && (left == 0 || GoodSize(left)) && GoodSize(bsize)
    ensures CutFor(Shipped, end - left) + bsize <= left + PageSizeAlign(ExtendRequest(Shipped, bsize, true))
            <==> (left - 16 - end) % PAGE_SIZE <= left + (-bsize) % PAGE_SIZE
    ensures 0 < CutFor(Shipped, end - left) < HEAP_LIST_MIN
            <==> (end - left) % PAGE_SIZE == 4048 || (end - left) % PAGE_SIZE == 4064
    ensures CutFor(Repaired, end - left) + bsize <= left + PageSizeAlign(ExtendRequest(Repaired, bsize, true))
  {
    Sixteenths(end, left);
    CutOf(end - left);
    SmallCut(end - left);
    RoundedUp(bsize);
    RoundedUp(bsize + PAGE_SIZE + HEAP_LIST_MIN);
  }

  /**
   For a heap that ends on a page boundary: it fits exactly if there was a free last block, or the block is 16 bytes
   beyond whole pages. The cut is too small exactly for the free sizes that end 32 or 48 bytes beyond whole pages.
   */
  lemma ShippedExtensionAligned(end: int, left: int, bsize: int)
    requires 0 <= left <= end && end % PAGE_SIZE == 0 && (left == 0 || GoodSize(left)) && GoodSize(bsize)
    ensures CutFor(Shipped, end - left) + bsize <= left + PageSizeAlign(ExtendRequest(Shipped, bsize, true))
            <==> left > 0 || bsize % PAGE_SIZE == 16
    ensures 0 < CutFor(Shipped, end - left) < HEAP_LIST_MIN <==> left % PAGE_SIZE == 32 || left % PAGE_SIZE == 48
  {
    PageEnd(end, left);
    ShippedExtension(end, left, bsize);
    SlackOf(bsize);
    RoundedUp(bsize);
  }

  /** Three heaps that do not end on a page boundary: one extension that is too short, one that fits, one small cut. */
  lemma ExtensionsElsewhere()
    ensures CutFor(Shipped, 0x105800 - 48) + 4096 > 48 + PageSizeAlign(ExtendRequest(Shipped, 4096, true))
    ensures CutFor(Shipped, 0x105010) + 4128 <= PageSizeAlign(ExtendRequest(Shipped, 4128, true))
    ensures CutFor(Shipped, 0x105010 - 64) == 32
  {
  }

  /** The cut of the shipped code is the distance from the payload to the next page boundary. */
  lemma CutOf(x: int)
    requires 0 <= x && x % 16 == 0
    ensures CutFor(Shipped, x) == LeftSize(x) == (-16 - x) % PAGE_SIZE
    ensures 0 <= CutFor(Repaired, x) < PAGE_SIZE + HEAP_LIST_MIN
  {
    var q := (x + 16 + 4095) / 4096;
    AlignedUp(x + 16, q);
    ModAt(-q, 4096 * q - 16 - x);
    CutForPage(Repaired, x);
  }

  lemma SmallCut(x: int)
    requires 0 <= x && x % 16 == 0
    ensures 0 < (-16 - x) % PAGE_SIZE < HEAP_LIST_MIN <==> x % PAGE_SIZE == 4048 || x % PAGE_SIZE == 4064
  {
    var p, r, s := x / 4096, x % 4096, x / 16;
    assert r == 16 * (s - 256 * p);
    if r == 4080 {
      ModAt(-p - 1, 0);
    } else {
      ModAt(-p - 1, 4080 - r);
    }
  }

  /** What lies left bytes below a page boundary. */
  lemma PageEnd(end: int, left: int)
    requires 0 <= left <= end && end % PAGE_SIZE == 0 && left % 16 == 0
    ensures end % 16 == 0 && (left - 16 - end) % PAGE_SIZE == (left - 16) % PAGE_SIZE
    ensures left == 0 ==> (left - 16) % PAGE_SIZE == 4080
    ensures left > 0 ==> (left - 16) % PAGE_SIZE <= left
    ensures (end - left) % PAGE_SIZE == 4048 <==> left % PAGE_SIZE == 48
    ensures (end - left) % PAGE_SIZE == 4064 <==> left % PAGE_SIZE == 32
  {
    var q, p, r, s := end / 4096, left / 4096, left % 4096, left / 16;
    assert r == 16 * (s - 256 * p);
    Multiple16(256 * q);
    if r == 0 {
      ModAt(p - 1, 4080);
      ModAt(p - 1 - q, 4080);
      ModAt(q - p, 0);
    } else {
      ModAt(p, r - 16);
      ModAt(p - q, r - 16);
      ModAt(q - p - 1, 4096 - r);
    }
  }

  lemma ModAt(p: int, r: int)
    requires 0 <= r < 4096
    ensures (4096 * p + r) % PAGE_SIZE == r
  {
  }

  /** Free last blocks of 48 and 4128 bytes: the shipped code writes leftovers of 32 and 16 bytes. */
  lemma SmallCuts()
    ensures CutFor(Shipped, 0x105000 - 48) == 32 && CutFor(Shipped, 0x106000 - 4128) == 16
    ensures CutFor(Repaired, 0x105000 - 48) == 32 + PAGE_SIZE && CutFor(Repaired, 0x106000 - 4128) == 16 + PAGE_SIZE
  {
  }

  /** What rounding up to pages adds to a block size. */
  lemma RoundedUp(n: int)
    ensures PageSizeAlign(n) == n + (-n) % PAGE_SIZE && 0 <= (-n) % PAGE_SIZE
  {
    var q := (n + 4095) / 4096;
    AlignedUp(n, q);
    ModAt(-q, 4096 * q - n);
  }

  lemma SlackOf(bsize: int)
    requires bsize % 16 == 0
    ensures 4080 <= (-bsize) % PAGE_SIZE <==> bsize % PAGE_SIZE == 16
  {
    var p, r, s := bsize / 4096, bsize % 4096, bsize / 16;
    assert r == 16 * (s - 256 * p);
    if r == 0 { ModAt(-p, 0); } else { ModAt(-p - 1, 4096 - r); }
  }

  /**
   Layouts whose memories have the same headers before x agree up to x: the headers lead from one block to the next.
   */
  lemma {:induction false} SameUpTo(b: Build, lo: int, hi: int, m: Memory, L: Layout, ix: Index, hi': int, m': Memory,
                                    L': Layout, ix': Index, a: int, x: int, y: int)
    requires Sound(b, lo, hi, m, L, ix) && Sound(b, lo, hi', m', L', ix')
    requires x in L && a in L && a in L' && a <= x && y in L' && x < y
    requires forall c | c in L && c < x :: Rd(m', c + 8) == Rd(m, c + 8)
    ensures x in L'
    decreases x - a
  {
    if a < x {
      CellParts(m, L, lo, hi, a);
      CellParts(m', L', lo, hi', a);
      BlockBounds(L', lo, hi', y);
      PositiveSize(L', lo, hi', y);
      BlockBounds(L, lo, hi, x);
      PositiveSize(L, lo, hi, x);
      SameUpTo(b, lo, hi, m, L, ix, hi', m', L', ix', End(L, a), x, y);
    }
  }

  /**
   A cut that is too small to be a block ends every invariant: as long as the headers before the block stand, no
   layout has both the block and what is carved out of it, the block that `heap_alloc` returns.
   */
  lemma SmallCutBreaks(b: Build, lo: int, hi: int, m: Memory, L: Layout, ix: Index, x: int, cut: int, hi': int,
                       m': Memory, L': Layout, ix': Index)
    requires Sound(b, lo, hi, m, L, ix) && x in L && 0 < cut < HEAP_LIST_MIN
    requires forall c | c in L && c < x :: Rd(m', c + 8) == Rd(m, c + 8)
    requires x + cut in L'
    ensures !Sound(b, lo, hi', m', L', ix')
  {
    if Sound(b, lo, hi', m', L', ix') {
      BlockBounds(L, lo, hi, x);
      SameUpTo(b, lo, hi, m, L, ix, hi', m', L', ix', lo, x, x + cut);
      ApartBySize(L', lo, hi', x, x + cut);
    }
  }

  lemma ApartBySize(L: Layout, lo: int, hi: int, x: int, y: int)
    requires Tiled(L, lo, hi) && x in L && y in L && x < y
    ensures x + HEAP_LIST_MIN <= y
  {
    assert BlockOk(L, lo, hi, x);
  }

  /** The two writes of the carve leave the headers before the block. */
  lemma CarveLeavesHeaders(lo: int, hi: int, m: Memory, L: Layout, x: int, cut: int)
    requires Tiled(L, lo, hi) && x in L && (cut == 16 || cut == 32) && cut + 32 <= L[x].size
    ensures forall c | c in L && c < x ::
              Rd(Created(Created(m, x, cut), x + cut, L[x].size - cut), c + 8) == Rd(m, c + 8)
  {
    forall c | c in L && c < x
      ensures Rd(Created(Created(m, x, cut), x + cut, L[x].size - cut), c + 8) == Rd(m, c + 8) {
      assert BlockOk(L, lo, hi, c);
    }
  }

  // ----- A carve that does not fit -----

  /** `heap_create_block`, whose footer's address is a 64-bit sum. */
  function Created64(m: Memory, a: int, size: int): Memory {
    m[a := HEAP_MAGIC][a + 8 := size][Add64(a, size - 8) := a][Add64(a, size - 16) := HEAP_MAGIC]
  }

  /**
   The blocks that an aligned carve of `heap_alloc` creates: the leftover and the rest behind it, and then, because the
   size of the rest is a 64-bit difference, also what `heap_split_block` cuts off from a rest that is too short.
   */
  function CarveWrites(m: Memory, x: int, size: int, cut: int, bsize: int): Memory {
    var y, right := x + cut, Sub64(size, cut);
    var rest, m1 := Sub64(right, bsize), Created64(Created64(m, x, cut), y, right);
    if HEAP_LIST_MIN <= rest then Created64(Created64(m1, y + bsize, rest), y, bsize) else m1
  }

  /** What does not fit wraps into a large rest, so the block gets the size that was asked for all the same. */
  lemma WrappedRest(size: int, cut: int, bsize: int)
    requires GoodSize(size) && GoodSize(cut) && GoodSize(bsize) && size < cut + bsize
    requires size <= MAX_PADDR && cut <= MAX_PADDR && bsize <= MAX_PADDR
    ensures Sub64(size, cut) == size - cut + if size < cut then W64 else 0
    ensures Sub64(Sub64(size, cut), bsize) == size - cut - bsize + W64
            && HEAP_LIST_MIN <= Sub64(Sub64(size, cut), bsize)
  {
  }

  /** All footers that the carve writes lie where the footer of the whole block was, or before. */
  lemma CarveFooters(x: int, size: int, cut: int, bsize: int)
    requires 0 <= x <= MAX_PADDR && GoodSize(size) && GoodSize(cut) && GoodSize(bsize) && size < cut + bsize
    requires size <= MAX_PADDR && cut <= MAX_PADDR && bsize <= MAX_PADDR
    ensures var right := Sub64(size, cut);
            && Add64(x + cut, right - 8) == Add64(x + cut + bsize, Sub64(right, bsize) - 8) == x + size - 8
            && Add64(x + cut, right - 16) == Add64(x + cut + bsize, Sub64(right, bsize) - 16) == x + size - 16
    ensures Add64(x, cut - 8) == x + cut - 8 && Add64(x, cut - 16) == x + cut - 16
    ensures Add64(x + cut, bsize - 8) == x + cut + bsize - 8 && Add64(x + cut, bsize - 16) == x + cut + bsize - 16
  {
    WrappedRest(size, cut, bsize);
  }

  lemma CarveHeaders(m: Memory, x: int, size: int, cut: int, bsize: int)
    requires 0 <= x <= MAX_PADDR && GoodSize(size) && GoodSize(cut) && GoodSize(bsize) && size < cut + bsize
    requires size <= MAX_PADDR && cut <= MAX_PADDR && bsize <= MAX_PADDR
    ensures var w := CarveWrites(m, x, size, cut, bsize); Rd(w, x + 8) == cut && Rd(w, x + cut + 8) == bsize
  {
    WrappedRest(size, cut, bsize);
    CarveFooters(x, size, cut, bsize);
  }

  /** The sizes in the two headers that the carve writes for the caller and for the leftover still stand. */
  predicate CarveStands(m: Memory, m': Memory, x: int, size: int, cut: int, bsize: int) {
    var w := CarveWrites(m, x, size, cut, bsize);
    Rd(m', x + 8) == Rd(w, x + 8) && SizeOf(Rd(m', x + cut + 8)) == Rd(w, x + cut + 8)
  }

  /**
   A carve that does not fit ends every invariant: as long as the two headers that it writes stand, no layout in which
   the block behind the carved one is still a block, or the end of the heap, has the leftover and the block that
   `heap_alloc` returns. A block of just the size of the cut is never carved: the test refuses it, and an extension
   is larger.
   */
  lemma CarveBeyondBreaks(b: Build, lo: int, hi: int, m: Memory, L: Layout, ix: Index, x: int, cut: int, bsize: int,
                          m': Memory, L': Layout, ix': Index)
    requires Sound(b, lo, hi, m, L, ix) && IsFree(L, x) && 0 <= lo && hi <= MAX_PADDR
    requires GoodSize(cut) && GoodSize(bsize) && cut <= MAX_PADDR && bsize <= MAX_PADDR
    requires L[x].size < cut + bsize && cut != L[x].size && CarveStands(m, m', x, L[x].size, cut, bsize)
    requires x in L' && x + cut in L' && (End(L, x) == hi || End(L, x) in L')
    ensures !Sound(b, lo, hi, m', L', ix')
  {
    assert BlockOk(L, lo, hi, x);
    CarveHeaders(m, x, L[x].size, cut, bsize);
    if Sound(b, lo, hi, m', L', ix') {
      CellParts(m', L', lo, hi, x);
      CellParts(m', L', lo, hi, x + cut);
      SizeWordParts(cut, false);
    }
  }

  /**
   An input: a heap of one free block of 2048 bytes at the start of a page. The shipped test accepts the block for an
   aligned request of that size, which does not fit, and no later memory is a sound heap.
   */
  lemma WrappedCarve(m': Memory, L': Layout, ix': Index)
    requires CarveStands(Created(map[], 0x200000, 2048), m', 0x200000, 2048, 4080, 2048)
    requires 0x200000 in L' && 0x200000 + 4080 in L'
    ensures LeftSize(0x200000) == 4080 && FitTest(Shipped, 0x200000, 2048, 2048) && !Fits(0x200000, 2048, 2048)
    ensures var L := map[0x200000 := Blk(2048, false)];
            Sound(Shipped, 0x200000, 0x200800, Created(map[], 0x200000, 2048), L, EmptyIndex(Shipped))
    ensures !Sound(Shipped, 0x200000, 0x200800, m', L', ix')
  {
    var x, L, m := 0x200000, map[0x200000 := Blk(2048, false)], Created(map[], 0x200000, 2048);
    FirstInMemory(x, 2048);
    FitTestWraps();
    CarveBeyondBreaks(Shipped, x, 0x200800, m, L, EmptyIndex(Shipped), x, 4080, 2048, m', L', ix');
  }

  /**
   Where the first block of a heap created at 0x104000 lies, and its memory and blocks once all of its page is handed
   out.
   */
  const FIRST: int := 0x104000 + HeapStructSize(Shipped)

  function FullMemory(): Memory {
    Created(map[], FIRST, 0x105000 - FIRST)[FIRST + 8 := SizeWord(0x105000 - FIRST, true)]
  }

  function FullLayout(): Layout {
    map[FIRST := Blk(0x105000 - FIRST, true)]
  }

  lemma FullSound()
    ensures Sound(Shipped, FIRST, 0x105000, FullMemory(), FullLayout(), EmptyIndex(Shipped))
  {
    var size := 0x105000 - FIRST;
    var L := map[FIRST := Blk(size, false)];
    FirstInMemory(FIRST, size);
    Marked(Shipped, FIRST, 0x105000, Created(map[], FIRST, size), FullMemory(), L, EmptyIndex(Shipped), FIRST, true);
    assert Mark(L, FIRST, true) == FullLayout();
  }

  /** That heap, extended by one page. */
  lemma ExtendedSound()
    ensures Sound(Shipped, FIRST, 0x106000, Created(FullMemory(), 0x105000, 4096), Extend(FullLayout(), 0x105000, 4096),
                  EmptyIndex(Shipped))
  {
    FullSound();
    Extended(Shipped, FIRST, 0x105000, FullMemory(), FullLayout(), EmptyIndex(Shipped), 4096);
  }

  /**
   An input: that heap and page. It is the page that the shipped code asks for to serve an aligned request of 4096
   bytes; the request does not fit behind the cut, and no later memory is a sound heap.
   */
  lemma ShortExtension(m': Memory, L': Layout, ix': Index)
    requires CarveStands(Created(FullMemory(), 0x105000, 4096), m', 0x105000, 4096, 4080, 4096)
    requires 0x105000 in L' && 0x105000 + 4080 in L'
    ensures PageSizeAlign(ExtendRequest(Shipped, 4096, true)) == 4096 && CutFor(Shipped, 0x105000) == 4080
    ensures Sound(Shipped, FIRST, 0x106000, Created(FullMemory(), 0x105000, 4096), Extend(FullLayout(), 0x105000, 4096),
                  EmptyIndex(Shipped))
    ensures !Sound(Shipped, FIRST, 0x106000, m', L', ix')
  {
    ExtendedSound();
    CarveBeyondBreaks(Shipped, FIRST, 0x106000, Created(FullMemory(), 0x105000, 4096),
                      Extend(FullLayout(), 0x105000, 4096),
                      EmptyIndex(Shipped), 0x105000, 4080, 4096, m', L', ix');
  }

  // ----- A heap that does not start on a 16-byte boundary -----

  predicate LooseOk(L: Layout, lo: int, hi: int, a: int)
    requires a in L
  {
    lo <= a && GoodSize(L[a].size) && End(L, a) <= hi && (End(L, a) == hi || End(L, a) in L)
  }

  /** A tiling whose blocks may lie anywhere. */
  ghost predicate LooseTiled(L: Layout, lo: int, hi: int) {
    && lo in L
    && (forall a {:trigger LooseOk(L, lo, hi, a)} | a in L :: LooseOk(L, lo, hi, a))
    && Disjoint(L)
  }

  /** All blocks lie as far from a 16-byte boundary as the first one. */
  lemma {:induction false} SameResidue(L: Layout, lo: int, hi: int, from: int, a: int)
    requires LooseTiled(L, lo, hi) && from in L && a in L && from <= a && from % 16 == lo % 16
    ensures a % 16 == lo % 16
    decreases a - from
  {
    if from < a {
      assert LooseOk(L, lo, hi, from) && LooseOk(L, lo, hi, a);
      SixteenOn(from, L[from].size);
      SameResidue(L, lo, hi, End(L, from), a);
    }
  }

  lemma SixteenOn(a: int, s: int)
    requires s % 16 == 0
    ensures (a + s) % 16 == a % 16
  {
    var q, p, r := s / 16, a / 16, a % 16;
    assert a + s == 16 * (p + q) + r;
  }

  /** The size of the cut is a multiple of 16 exactly for a block on a 16-byte boundary. */
  lemma CutSixteenths(x: int)
    ensures LeftSize(x) % 16 == 0 <==> x % 16 == 0
  {
    var q := (x + 16 + 4095) / 4096;
    AlignedUp(x + 16, q);
    var p, r := x / 16, x % 16;
    assert LeftSize(x) == 16 * (256 * q - 1 - p) - r;
    NegativeRest(256 * q - 1 - p, r);
  }

  lemma NegativeRest(n: int, r: int)
    requires 0 <= r < 16
    ensures (16 * n - r) % 16 == 0 <==> r == 0
  {
    if r > 0 { assert 16 * n - r == 16 * (n - 1) + (16 - r); }
  }

  /**
   An aligned carve of a free block writes the cut as the size word of what is left. That word and the carved block
   are part of some tiling exactly if the heap starts on a 16-byte boundary; otherwise the low bits of the word are
   flags and the header leads short.
   */
  lemma CarveNeedsSixteen(L: Layout, lo: int, hi: int, x: int)
    requires LooseTiled(L, lo, hi) && IsFree(L, x)
    requires HEAP_LIST_MIN <= LeftSize(x) && LeftSize(x) + HEAP_LIST_MIN <= L[x].size
    ensures (exists L': Layout, hi' :: LooseTiled(L', lo, hi') && Carved(L', x)) <==> lo % 16 == 0
  {
    assert LooseOk(L, lo, hi, x);
    SameResidue(L, lo, hi, lo, x);
    CutSixteenths(x);
    if lo % 16 == 0 {
      EvenCarve(L, lo, hi, x);
    } else {
      forall L': Layout, hi' | LooseTiled(L', lo, hi') ensures !Carved(L', x) { OddCarve(L', lo, hi', x); }
    }
  }

  /** On 16-byte boundaries the carve is a split. */
  lemma EvenCarve(L: Layout, lo: int, hi: int, x: int)
    requires LooseTiled(L, lo, hi) && lo % 16 == 0 && IsFree(L, x) && LeftSize(x) % 16 == 0
    requires HEAP_LIST_MIN <= LeftSize(x) && LeftSize(x) + HEAP_LIST_MIN <= L[x].size
    ensures var M := Split(L, x, LeftSize(x)); LooseTiled(M, lo, hi) && Carved(M, x)
  {
    forall a | a in L ensures BlockOk(L, lo, hi, a) {
      assert LooseOk(L, lo, hi, a);
      SameResidue(L, lo, hi, lo, a);
    }
    Sixteenths(L[x].size, LeftSize(x));
    SplitTiled(L, lo, hi, x, LeftSize(x));
    var M := Split(L, x, LeftSize(x));
    forall a | a in M ensures LooseOk(M, lo, hi, a) { assert BlockOk(M, lo, hi, a); }
  }

  /** A header whose size word is no multiple of 16 leads short of the carved block. */
  lemma OddCarve(L: Layout, lo: int, hi: int, x: int)
    requires LooseTiled(L, lo, hi) && LeftSize(x) % 16 != 0
    ensures !Carved(L, x)
  {
    if Carved(L, x) {
      LooseFacts(L, lo, hi, x);
      LooseFacts(L, lo, hi, x + LeftSize(x));
      UsedFlagOnly(L[x].size, L[x].used, LeftSize(x));
      LooseFacts(L, lo, hi, End(L, x));
    }
  }

  lemma LooseFacts(L: Layout, lo: int, hi: int, a: int)
    requires LooseTiled(L, lo, hi)
    ensures a in L ==> GoodSize(L[a].size) && a + L[a].size <= hi && (a + L[a].size == hi || a + L[a].size in L)
  {
    assert a in L ==> LooseOk(L, lo, hi, a);
  }

  /** The layout has the carved block, and what is left of it has the header that the carve writes. */
  ghost predicate Carved(L: Layout, x: int) {
    x in L && x + LeftSize(x) in L && SizeWord(L[x].size, L[x].used) == LeftSize(x)
  }

  /** A size word that is not a multiple of 16 stands for a smaller size. */
  lemma UsedFlagOnly(s: int, used: bool, word: int)
    requires GoodSize(s) && SizeWord(s, used) == word && word % 16 != 0
    ensures s == word - 1
  {
  }

  /** Such a heap: eight bytes placed at 0x104000 before `mem_init_heap`, then one extension by two pages. */
  lemma OddStart()
    ensures var lo := 0x104000 + 8 + HeapStructSize(Repaired);
            var L := map[lo := Blk(0x105008 - lo + 2 * PAGE_SIZE, false)];
            && lo % 16 == 8 && LooseTiled(L, lo, 0x105008 + 2 * PAGE_SIZE)
            && FitTest(Repaired, lo, L[lo].size, 48) && LeftSize(lo) % 16 == 8
            && !exists L': Layout, hi' :: LooseTiled(L', lo, hi') && Carved(L', lo)
  {
    var lo := 0x104000 + 8 + HeapStructSize(Repaired);
    var L := map[lo := Blk(0x105008 - lo + 2 * PAGE_SIZE, false)];
    assert LooseOk(L, lo, 0x105008 + 2 * PAGE_SIZE, lo);
    CarveNeedsSixteen(L, lo, 0x105008 + 2 * PAGE_SIZE, lo);
  }
}
