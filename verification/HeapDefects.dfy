/** Where the shipped heap leaves its invariant, and exactly when. */
module HeapDefects {
  import opened Machine
  import opened HeapFormat
  import opened HeapIndex
  import opened IndexMemory
  import opened FreeTree
  import opened HeapTree
  import opened HeapTiling
  import opened HeapBlocks

  /** The list half of `heap_insert`, run with whatever slot the size selects. */
  function ListPush(m: Memory, slot: int, block: int): Memory {
    var head := Rd(m, slot);
    var m1 := m[block + 16 := 0][block + 24 := head];
    (if head != 0 then m1[head + 16 := block] else m1)[slot := block]
  }

  /** The headers of list blocks and of the first block survive every write of ListPush but the last. */
  lemma PushedWords(b: Build, lo: int, hi: int, m: Memory, L: Layout, ix: Index, block: int)
    requires Sound(b, lo, hi, m, L, ix) && IsFree(L, block) && hi <= MAX_PADDR
    requires b.Shipped? && !Filed(b, L[block].size)
    ensures var m' := ListPush(m, Slot(b, lo, SizeIdx(L[block].size)), block);
            && (L[block].size == 1040 ==> Rd(m', Slot(b, lo, ListCount(b))) == block && Rd(m', block + 8) == 1040)
            && (L[block].size == 1056 ==> Rd(m', lo) == block)
  {
    CellParts(m, L, lo, hi, block);
    CellParts(m, L, lo, hi, lo);
    var r := ix.slot[ListCount(b)];
    if r != 0 {
      SpineFacts(b, ix, r);
      assert Cell(lo, m, ix, r);
    }
  }

  /**
   Filing a free block whose size has no slot of its own ends every possible invariant: a block of 1040 bytes
   becomes the root of the tree of larger blocks, and a block of 1056 bytes overwrites the first block's header.
   `HeapInsert` keeps the invariant for all other sizes.
   */
  lemma MisfiledBreaks(b: Build, lo: int, hi: int, m: Memory, L: Layout, ix: Index, block: int, hi': int, L': Layout,
                       ix': Index)
    requires Sound(b, lo, hi, m, L, ix) && IsFree(L, block) && hi <= MAX_PADDR
    requires b.Shipped? && !Filed(b, L[block].size)
    ensures !Sound(b, lo, hi', ListPush(m, Slot(b, lo, SizeIdx(L[block].size)), block), L', ix')
  {
    var m' := ListPush(m, Slot(b, lo, SizeIdx(L[block].size)), block);
    assert BlockOk(L, lo, hi, block) && BlockOk(L, lo, hi, lo);
    PushedWords(b, lo, hi, m, L, ix, block);
    SoundFacts(b, lo, hi', m', L', ix');
  }

  /** Two facts of every sound heap: the first header is intact, and the root of the tree is a large block. */
  lemma SoundFacts(b: Build, lo: int, hi: int, m: Memory, L: Layout, ix: Index)
    ensures Sound(b, lo, hi, m, L, ix) ==>
              && Rd(m, lo) == HEAP_MAGIC
              && var r := Rd(m, Slot(b, lo, ListCount(b))); r != 0 ==> Rd(m, r + 8) > HEAP_LIST_MAX
  {
    if Sound(b, lo, hi, m, L, ix) {
      assert BlockCell(m, L, lo);
      var r := ix.slot[ListCount(b)];
      if r != 0 {
        SpineFacts(b, ix, r);
        assert Cell(lo, m, ix, r);
      }
    }
  }

  /**
   Deleting a spine block with a child leaves the child with a stale parent link in the shipped build, and only
   there.
   */
  lemma PromotionStale(b: Build, ix: Index, x: int)
    requires IndexOk(b, ix) && OnSpine(ix, x) && ix.node[x].child != 0
    ensures Neighbours(ix, x) && (Stale(DetachSpine(b, ix, x), ix.node[x].child) <==> b.Shipped?)
  {
    DetachSpineOk(b, ix, x);
    SpineFacts(b, ix, x);
    PromoteFits(b, ix, x);
  }

  // ----- Inputs the code can receive -----

  /** A heap with one free block in otherwise blank memory. */
  lemma FirstInMemory(lo: int, size: int)
    requires lo % 16 == 0 && 4096 <= lo && GoodSize(size)
    ensures Sound(Shipped, lo, lo + size, Created(map[], lo, size), map[lo := Blk(size, false)], EmptyIndex(Shipped))
  {
    var m0: Memory := map[];
    assert Rep(Shipped, lo, m0, EmptyIndex(Shipped)) by {
      assert forall i | 0 <= i <= ListCount(Shipped) :: Rd(m0, Slot(Shipped, lo, i)) == 0;
    }
    FirstBlock(Shipped, lo, size, m0);
  }

  /** `heap_create` of a heap whose one block has a size that is not filed: no later memory is a sound heap. */
  lemma FirstBlockMisfiled(size: int, hi': int, L': Layout, ix': Index)
    requires size == 1040 || size == 1056
    ensures var lo := 0x104000 + HeapStructSize(Shipped);
            var m := Created(map[], lo, size);
            && Sound(Shipped, lo, lo + size, m, map[lo := Blk(size, false)], EmptyIndex(Shipped))
            && !Sound(Shipped, lo, hi', ListPush(m, Slot(Shipped, lo, SizeIdx(size)), lo), L', ix')
  {
    var lo := 0x104000 + HeapStructSize(Shipped);
    FirstInMemory(lo, size);
    MisfiledBreaks(Shipped, lo, lo + size, Created(map[], lo, size), map[lo := Blk(size, false)], EmptyIndex(Shipped),
                   lo, hi', L', ix');
  }

  /** Two free blocks of a page each, the second one hanging off the first. */
  function TwoPages(): Index {
    Index(
      map[0x106000 := Node(4096, 0, 0, 0x108000, 0), 0x108000 := Node(4096, 0, 0, 0, 0x106000)],
      seq(ListCount(Shipped), _ => 0) + [0x106000],
      map[0x106000 := 0, 0x108000 := 0], 1, map[4096 := 0x106000])
  }

  /** Deleting the first of them, and then the second, takes the wrong branch: by then its parent link is stale. */
  lemma SecondDeleteIsWrong()
    ensures IndexOk(Shipped, TwoPages()) && OnSpine(TwoPages(), 0x106000)
    ensures Neighbours(TwoPages(), 0x106000) && IndexOk(Shipped, DetachSpine(Shipped, TwoPages(), 0x106000))
    ensures Stale(DetachSpine(Shipped, TwoPages(), 0x106000), 0x108000)
  {
    var ix := TwoPages();
    TwoPagesLists();
    TwoPagesTree();
    PromotionStale(Shipped, ix, 0x106000);
    DetachSpineOk(Shipped, ix, 0x106000);
  }

  lemma TwoPagesLists()
    ensures ListsOk(Shipped, TwoPages())
  {
    var ix := TwoPages();
    forall i | 0 <= i < ListCount(Shipped) ensures SlotOk(ix, i) { assert ix.slot[i] == 0; }
  }

  lemma TwoPagesTree()
    ensures TreeOk(Shipped, TwoPages()) && OnSpine(TwoPages(), 0x106000)
  {
    var ix := TwoPages();
    assert ix.slot[ListCount(Shipped)] == 0x106000;
    assert SpineNode(Shipped, ix, 0x106000) && ChildNode(ix, 0x108000);
    forall a | Large(ix, a) ensures TreeNode(Shipped, ix, a) {}
    forall t | t in ix.spine ensures SpineEntry(ix, t) {}
    forall t, u | t in ix.spine && u in ix.spine ensures SpinePair(ix, t, u) {}
  }

  /** The two pages in memory, a used page between them: a whole heap. */
  function TwoPagesLayout(): Layout {
    map[0x106000 := Blk(4096, false), 0x107000 := Blk(4096, true), 0x108000 := Blk(4096, false)]
  }

  function PageBlock(m: Memory, a: int, word: int): Memory {
    m[a := HEAP_MAGIC][a + 8 := word][a + 4080 := HEAP_MAGIC][a + 4088 := a]
  }

  function TwoPagesBlocks(): Memory {
    PageBlock(PageBlock(PageBlock(map[], 0x106000, 4096), 0x107000, 4097), 0x108000, 4096)
  }

  function TwoPagesMemory(): Memory {
    TwoPagesBlocks()[0x105FF8 := 0x106000][0x106020 := 0x108000][0x108028 := 0x106000]
  }

  lemma TwoPagesTiled()
    ensures Tiled(TwoPagesLayout(), 0x106000, 0x109000) && Coalesced(TwoPagesLayout())
  {
    var L := TwoPagesLayout();
    forall a | a in L ensures BlockOk(L, 0x106000, 0x109000, a) && CoalescedAt(L, a) {}
  }

  /** The block at a has its header and its footer. */
  predicate HasBlock(m: Memory, a: int, word: int) {
    Rd(m, a) == HEAP_MAGIC && Rd(m, a + 8) == word && Rd(m, a + 4080) == HEAP_MAGIC && Rd(m, a + 4088) == a
  }

  /** The links of the two blocks and the slots of the lists and of the tree. */
  ghost predicate HasLinks(m: Memory) {
    && Rd(m, 0x106010) == Rd(m, 0x106018) == Rd(m, 0x106028) == 0 && Rd(m, 0x106020) == 0x108000
    && Rd(m, 0x108010) == Rd(m, 0x108018) == Rd(m, 0x108020) == 0 && Rd(m, 0x108028) == 0x106000
    && Rd(m, 0x105FF8) == 0x106000 && forall w {:trigger Rd(m, w)} | w < 0x105FF8 :: Rd(m, w) == 0
  }

  lemma PageBlockAt(m: Memory, a: int, word: int)
    ensures var m' := PageBlock(m, a, word);
            && HasBlock(m', a, word)
            && forall w {:trigger Rd(m', w)} | w != a && w != a + 8 && w != a + 4080 && w != a + 4088 ::
                 Rd(m', w) == Rd(m, w)
  {
  }

  lemma TwoPagesWords()
    ensures var m := TwoPagesMemory();
            HasBlock(m, 0x106000, 4096) && HasBlock(m, 0x107000, 4097) && HasBlock(m, 0x108000, 4096) && HasLinks(m)
  {
    var m1 := PageBlock(map[], 0x106000, 4096);
    var m2 := PageBlock(m1, 0x107000, 4097);
    PageBlockAt(map[], 0x106000, 4096);
    PageBlockAt(m1, 0x107000, 4097);
    PageBlockAt(m2, 0x108000, 4096);
    Linked(PageBlock(m2, 0x108000, 4096));
  }

  /** The links, written over blocks without any. */
  lemma Linked(m: Memory)
    requires HasBlock(m, 0x106000, 4096) && HasBlock(m, 0x107000, 4097) && HasBlock(m, 0x108000, 4096)
    requires Rd(m, 0x106010) == Rd(m, 0x106018) == Rd(m, 0x106028) == 0
    requires Rd(m, 0x108010) == Rd(m, 0x108018) == Rd(m, 0x108020) == 0
    requires forall w {:trigger Rd(m, w)} | w < 0x105FF8 :: Rd(m, w) == 0
    ensures var m' := m[0x105FF8 := 0x106000][0x106020 := 0x108000][0x108028 := 0x106000];
            HasBlock(m', 0x106000, 4096) && HasBlock(m', 0x107000, 4097) && HasBlock(m', 0x108000, 4096) && HasLinks(m')
  {
    var m' := m[0x105FF8 := 0x106000][0x106020 := 0x108000][0x108028 := 0x106000];
    forall w | w < 0x105FF8 ensures Rd(m', w) == 0 { assert Rd(m, w) == 0; }
  }

  lemma TwoPagesCells(m: Memory)
    requires HasBlock(m, 0x106000, 4096) && HasBlock(m, 0x107000, 4097) && HasBlock(m, 0x108000, 4096)
    ensures BlocksRep(m, TwoPagesLayout())
  {
    var L := TwoPagesLayout();
    assert BlockCell(m, L, 0x106000) && BlockCell(m, L, 0x107000) && BlockCell(m, L, 0x108000);
  }

  lemma TwoPagesRep(m: Memory)
    requires HasBlock(m, 0x106000, 4096) && HasBlock(m, 0x108000, 4096) && HasLinks(m)
    ensures Rep(Shipped, 0x106000, m, TwoPages())
  {
    var ix := TwoPages();
    assert Cell(0x106000, m, ix, 0x106000) && Cell(0x106000, m, ix, 0x108000);
    forall i | 0 <= i <= ListCount(Shipped) ensures Rd(m, Slot(Shipped, 0x106000, i)) == ix.slot[i] {
      if i < ListCount(Shipped) { assert Slot(Shipped, 0x106000, i) < 0x105FF8; }
    }
  }

  lemma SoundTwoPages(m: Memory)
    requires HasBlock(m, 0x106000, 4096) && HasBlock(m, 0x107000, 4097) && HasBlock(m, 0x108000, 4096) && HasLinks(m)
    ensures Sound(Shipped, 0x106000, 0x109000, m, TwoPagesLayout(), TwoPages())
  {
    TwoPagesTiled();
    TwoPagesCells(m);
    TwoPagesRep(m);
    TwoPagesLists();
    TwoPagesTree();
  }

  /** So the two deletions can come about: this is a sound heap, and coalesced. */
  lemma TwoPagesSound()
    ensures Sound(Shipped, 0x106000, 0x109000, TwoPagesMemory(), TwoPagesLayout(), TwoPages())
    ensures Coalesced(TwoPagesLayout())
  {
    TwoPagesWords();
    SoundTwoPages(TwoPagesMemory());
    TwoPagesTiled();
  }
}
