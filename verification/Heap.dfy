/** The loader heap: the steps of heap.c and the operations built from them. */
module LoaderHeap {
  import opened Machine
  import opened HeapFormat
  import opened HeapIndex
  import opened IndexMemory
  import opened FreeLists
  import opened FreeTree
  import opened HeapTree
  import opened HeapSearch
  import opened HeapTiling
  import opened HeapBlocks

  lemma WholePages(end: int, n: int)
    requires 0 < n && n % PAGE_SIZE == 0 && end % 16 == 0
    ensures GoodSize(n) && (end + n) % 16 == 0
  {
    var p, e := n / 4096, end / 16;
    Multiple16(256 * p);
    assert end + n == 16 * (e + 256 * p);
    Multiple16(e + 256 * p);
  }

  /** A block and its free left neighbour as one: what lies to the right of it is as before. */
  lemma LeftJoined(L: Layout, lo: int, hi: int, r: int, block: int)
    requires Tiled(L, lo, hi) && FreeLeftOf(L, r, block) && IsFree(L, block) && CoalescedAwayFrom(L, block)
    ensures var M, e := Merge(L, r), End(L, block);
            && CoalescedAwayFrom(M, r) && LeftSettled(M, r) && End(M, r) == e
            && M[r].size == LeftFreeSize(L, block) + L[block].size
            && (IsFree(M, e) <==> IsFree(L, e)) && (IsFree(L, e) ==> M[e] == L[e])
            && NoMoreFree(lo, hi, L, M) && Used(M) == Used(L)
  {
    assert BlockOk(L, lo, hi, r) && BlockOk(L, lo, hi, block);
    MergeLeftSettles(L, lo, hi, r);
    MergeSpace(L, lo, hi, r);
    forall l | FreeLeftOf(L, l, block) ensures l == r { OneLeftNeighbour(L, lo, hi, l, r); }
  }

  lemma NothingJoined(L: Layout, block: int)
    requires block in L && CoalescedAwayFrom(L, block) && forall l | IsFree(L, l) :: End(L, l) != block
    ensures LeftFreeSize(L, block) == 0 && LeftSettled(L, block)
  {
    forall l ensures !FreeLeftOf(L, l, block) { assert IsFree(L, l) ==> End(L, l) != block; }
  }

  /**
   The block that serves a request: the one the search returns, or else what an extension by the granted pages makes of
   the end of the heap; with its size.
   */
  ghost predicate Obtained(b: Build, L: Layout, ix: Index, hi: int, bsize: int, align: bool, grant: int, x: int,
                           s: int)
  {
    if if align then NoneEligible(b, ix, bsize) else NoFreeFit(L, bsize) then
      x == hi - LeftFreeSize(L, hi) && s == grant + LeftFreeSize(L, hi)
    else
      (if align then ChosenAligned(b, ix, x, bsize) else Chosen(ix, x, bsize)) && s == ix.node[x].size
  }

  /** Where in that block the request is placed, and with how much of it: all that is left if the rest is no block. */
  predicate PlacedIn(b: Build, x: int, s: int, bsize: int, align: bool, y: int, used: int) {
    var cut := if align then CutFor(b, x) else 0;
    y == x + cut && used == if s - cut - bsize >= 48 then bsize else s - cut
  }

  /** Both: the request is met at y by so many bytes. */
  ghost predicate Given(b: Build, L: Layout, ix: Index, hi: int, bsize: int, align: bool, grant: int, y: int,
                        used: int)
  {
    exists x, s :: Obtained(b, L, ix, hi, bsize, align, grant, x, s) && PlacedIn(b, x, s, bsize, align, y, used)
  }

  /** The heap structure. `free[]` lies in memory right below startAddr. */
  class Heap {
    const build: Build
    const ram: Ram
    const startAddr: int
    var endAddr: int
    var locked: bool
    ghost var layout: Layout
    ghost var index: Index

    /** What holds between any two steps. */
    ghost predicate Steady()
      reads this`endAddr, this`layout, this`index, ram
    {
      && Sound(build, startAddr, endAddr, ram.m, layout, index)
      && endAddr % 16 == 0 && endAddr <= MAX_PADDR
    }

    /** The index lacks exactly the given free blocks. */
    ghost predicate Missing(S: set<int>)
      reads this`layout, this`index
    {
      && (forall a {:trigger IsFree(layout, a)} | IsFree(layout, a) :: a in index.node <==> a !in S)
      && (forall a | a in S :: IsFree(layout, a))
    }

    /** The invariant of a heap at rest. */
    ghost predicate Valid()
      reads this, ram
    {
      Steady() && Missing({}) && Coalesced(layout) && !locked
    }

    /** `heap_create`: one free block behind the heap structure. */
    constructor Create(build: Build, ram: Ram, start: int, size: int)
      requires 0 <= start && start % 16 == 0 && size % 16 == 0 && start + size <= MAX_PADDR
      requires HEAP_LIST_MIN <= size - HeapStructSize(build) && Filed(build, size - HeapStructSize(build))
      modifies ram
      ensures this.build == build && this.ram == ram && Valid()
      ensures startAddr == start + HeapStructSize(build) && endAddr == start + size
      ensures layout == map[startAddr := Blk(endAddr - startAddr, false)]
      ensures forall w {:trigger Rd(ram.m, w)} | w < start :: Rd(ram.m, w) == Rd(old(ram.m), w)
    {
      this.build, this.ram, this.startAddr := build, ram, start + HeapStructSize(build);
      this.endAddr, this.locked := start + size, false;
      this.layout, this.index := map[], EmptyIndex(build);
      new;
      Format();
    }

    /** The part of `heap_create` that writes behind the structure's first words. */
    method Format()
      requires startAddr % 16 == 0 && Slot(build, startAddr, 0) > 0 && !locked && endAddr <= MAX_PADDR
      requires GoodSize(endAddr - startAddr) && Filed(build, endAddr - startAddr)
      modifies ram, this`index, this`layout
      ensures Valid() && layout == map[startAddr := Blk(endAddr - startAddr, false)]
      ensures forall w {:trigger Rd(ram.m, w)} | w < startAddr && Guarded(startAddr, w) ::
                Rd(ram.m, w) == Rd(old(ram.m), w)
    {
      ghost var m0 := ram.m;
      Lay();
      ghost var m2 := ram.m;
      HeapInsert(startAddr);
      FormatBelow(startAddr, endAddr, m0, m2, ram.m, layout);
      assert Coalesced(layout) by { forall a | a in layout ensures CoalescedAt(layout, a) {} }
    }

    /** The empty index and the one block, still outside it. */
    method Lay()
      requires startAddr % 16 == 0 && Slot(build, startAddr, 0) > 0 && endAddr <= MAX_PADDR
      requires GoodSize(endAddr - startAddr)
      modifies ram, this`index, this`layout
      ensures Steady() && index == EmptyIndex(build) && layout == map[startAddr := Blk(endAddr - startAddr, false)]
      ensures forall w {:trigger Rd(ram.m, w)} | w < startAddr && Guarded(startAddr, w) ::
                Rd(ram.m, w) == Rd(old(ram.m), w)
    {
      ClearSlots(build, ram, startAddr);
      ghost var m1 := ram.m;
      FirstBlock(build, startAddr, endAddr - startAddr, ram.m);
      CreateBlock(ram, startAddr, endAddr - startAddr);
      CreatedWithin(m1, startAddr, endAddr - startAddr);
      layout, index := map[startAddr := Blk(endAddr - startAddr, false)], EmptyIndex(build);
      forall w | w < startAddr && Guarded(startAddr, w) ensures Rd(ram.m, w) == Rd(old(ram.m), w) {
        assert Rd(m1, w) == Rd(old(ram.m), w);
      }
    }

    static lemma FormatBelow(lo: int, hi: int, m0: Memory, m1: Memory, m2: Memory, L: Layout)
      requires forall w {:trigger Rd(m1, w)} | w < lo && Guarded(lo, w) :: Rd(m1, w) == Rd(m0, w)
      requires FreeOnly(lo, hi, m1, m2, L) && lo < hi && L == map[lo := Blk(hi - lo, false)]
      ensures forall w {:trigger Rd(m2, w)} | w < lo && Guarded(lo, w) :: Rd(m2, w) == Rd(m0, w)
    {
      forall w | w < lo && Guarded(lo, w) ensures Rd(m2, w) == Rd(m0, w) {
        assert Rd(m1, w) == Rd(m0, w) && !InFree(L, w);
      }
    }

    /** `heap_remove` */
    method HeapRemove(block: int)
      requires Steady() && block in index.node && !Stale(index, block)
      modifies ram, this`index
      ensures Steady() && index.node.Keys == old(index.node.Keys) - {block}
      ensures StaleAfter(old(index), index, block) && Removed(build, old(index), index, block)
      ensures FreeOnly(startAddr, endAddr, old(ram.m), ram.m, layout)
    {
      ghost var m, ix := ram.m, index;
      index := IndexRemove(build, ram, startAddr, block, index);
      IndexChanged(build, startAddr, endAddr, m, ram.m, layout, ix, index);
    }

    /** A free block outside the index may enter it. */
    lemma MayEnter(block: int)
      requires Steady() && IsFree(layout, block) && block !in index.node
      ensures startAddr <= block && block % 16 == 0 && block != 0 && GoodSize(layout[block].size)
      ensures Rd(ram.m, block + 8) == layout[block].size
      ensures Spaced(index.node[block := NodeAt(ram.m, block)])
      ensures Indexed(layout, Enter(index, block, NodeAt(ram.m, block)))
    {
      CellParts(ram.m, layout, startAddr, endAddr, block);
      assert Slot(build, startAddr, 0) < startAddr;
    }

    /** `heap_insert`, for a block whose size has an index position. */
    method HeapInsert(block: int)
      requires Steady() && IsFree(layout, block) && block !in index.node
      requires Filed(build, layout[block].size)
      modifies ram, this`index
      ensures Steady() && index.node.Keys == old(index.node.Keys) + {block}
      ensures Added(old(index), index, block, layout[block].size)
      ensures FreeOnly(startAddr, endAddr, old(ram.m), ram.m, layout)
    {
      MayEnter(block);
      ghost var m, ix := ram.m, Enter(index, block, NodeAt(ram.m, block));
      var bsize := SizeOf(Rd(ram.m, block + 8));
      var listIdx := if bsize <= HEAP_LIST_MAX then SizeIdx(bsize) else -1;
      if listIdx >= 0 {
        assert SlotOk(index, listIdx);
        PushOk(build, index, block, NodeAt(ram.m, block));
        index := ListInsert(build, ram, startAddr, block, index);
      } else {
        var done;
        done, index := TreeInsert(build, ram, startAddr, block, index);
      }
      IndexChanged(build, startAddr, endAddr, m, ram.m, layout, ix, index);
    }
  
    /** What the left neighbour of a block must not be for `heap_merge_left` to remove it. */
    ghost predicate LeftReady(block: int)
      reads this
    {
      forall l | IsFree(layout, l) && End(layout, l) == block :: l in index.node && !Stale(index, l)
    }

    /** Two free neighbours outside the index become one block, as both merges do in the end. */
    method Fuse(a: int)
      requires Steady() && IsFree(layout, a) && a !in index.node
      requires IsFree(layout, End(layout, a)) && End(layout, a) !in index.node
      modifies ram, this`layout
      ensures Steady() && layout == Merge(old(layout), a)
      ensures FreeOnly(startAddr, endAddr, old(ram.m), ram.m, old(layout))
    {
      ghost var e := End(layout, a);
      CellParts(ram.m, layout, startAddr, endAddr, a);
      CellParts(ram.m, layout, startAddr, endAddr, e);
      var size := SizeOf(Rd(ram.m, a + 8));
      FuseAs(a, size + SizeOf(Rd(ram.m, a + size + 8)));
    }

    method FuseAs(a: int, total: int)
      requires Steady() && IsFree(layout, a) && a !in index.node
      requires IsFree(layout, End(layout, a)) && End(layout, a) !in index.node
      requires total == layout[a].size + layout[End(layout, a)].size
      modifies ram, this`layout
      ensures Steady() && layout == Merge(old(layout), a)
      ensures FreeOnly(startAddr, endAddr, old(ram.m), ram.m, old(layout))
    {
      assert BlockOk(layout, startAddr, endAddr, a) && BlockOk(layout, startAddr, endAddr, End(layout, a));
      Merged(build, startAddr, endAddr, ram.m, layout, index, a);
      CreateBlock(ram, a, total);
      layout := Merge(layout, a);
    }

    /** What the footer in front of a block leads to. */
    lemma FooterLeadsLeft(block: int) returns (l: int)
      requires Steady() && block in layout && block > startAddr
      ensures l in layout && End(layout, l) == block && l == Rd(ram.m, block - 8)
      ensures Rd(ram.m, block - 16) == HEAP_MAGIC && Rd(ram.m, l) == HEAP_MAGIC
      ensures UsedOf(Rd(ram.m, l + 8)) == layout[l].used
      ensures forall k | k in layout && End(layout, k) == block :: k == l
    {
      l := LeftNeighbour(layout, startAddr, endAddr, block);
      CellParts(ram.m, layout, startAddr, endAddr, l);
      forall k | k in layout && End(layout, k) == block ensures k == l {
        OneLeftNeighbour(layout, startAddr, endAddr, k, l);
      }
    }

    /** `heap_merge_left` */
    method HeapMergeLeft(block: int) returns (r: int)
      requires Steady() && IsFree(layout, block) && block !in index.node && LeftReady(block)
      modifies ram, this`index, this`layout
      ensures Steady() && IsFree(layout, r) && r !in index.node
      ensures FreeOnly(startAddr, endAddr, old(ram.m), ram.m, old(layout))
      ensures r == block ==>
                && layout == old(layout) && index == old(index)
                && forall l | IsFree(layout, l) :: End(layout, l) != block
      ensures r != block ==>
                && old(IsFree(layout, r) && End(layout, r) == block) && layout == Merge(old(layout), r)
                && index.node.Keys == old(index.node.Keys) - {r} && StaleAfter(old(index), index, r)
    {
      r := block;
      if block > startAddr {
        ghost var l := FooterLeadsLeft(block);
        var left := Rd(ram.m, block - 8);
        if Rd(ram.m, block - 16) == HEAP_MAGIC && Rd(ram.m, left) == HEAP_MAGIC && !UsedOf(Rd(ram.m, left + 8)) {
          HeapRemove(left);
          ghost var m := ram.m;
          Fuse(left);
          FreeOnlyThen(startAddr, endAddr, endAddr, old(ram.m), m, ram.m, old(layout), old(layout));
          r := left;
        }
      } else {
        assert BlockOk(layout, startAddr, endAddr, block);
        forall l | IsFree(layout, l) ensures End(layout, l) != block { assert BlockOk(layout, startAddr, endAddr, l); }
      }
    }

    /** `heap_merge_right` */
    method HeapMergeRight(block: int) returns (r: int)
      requires Steady() && IsFree(layout, block) && block !in index.node
      requires IsFree(layout, End(layout, block)) ==>
                 End(layout, block) in index.node && !Stale(index, End(layout, block))
      modifies ram, this`index, this`layout
      ensures r == block && Steady() && IsFree(layout, block) && block !in index.node
      ensures FreeOnly(startAddr, endAddr, old(ram.m), ram.m, old(layout))
      ensures if old(IsFree(layout, End(layout, block)))
              then layout == Merge(old(layout), block)
                && index.node.Keys == old(index.node.Keys) - {old(End(layout, block))}
              else layout == old(layout) && index == old(index)
    {
      r := block;
      CellParts(ram.m, layout, startAddr, endAddr, block);
      ghost var e := End(layout, block);
      var footer := block + SizeOf(Rd(ram.m, block + 8)) - 16;
      if footer + 16 < endAddr {
        var next := block + SizeOf(Rd(ram.m, block + 8));
        CellParts(ram.m, layout, startAddr, endAddr, e);
        var nextSize := SizeOf(Rd(ram.m, next + 8));
        if Rd(ram.m, next) == HEAP_MAGIC && Rd(ram.m, next + nextSize - 16) == HEAP_MAGIC
          && !UsedOf(Rd(ram.m, next + 8)) {
          HeapRemove(next);
          ghost var m := ram.m;
          Fuse(block);
          FreeOnlyThen(startAddr, endAddr, endAddr, old(ram.m), m, ram.m, old(layout), old(layout));
        }
      } else {
        assert e in layout ==> BlockOk(layout, startAddr, endAddr, e);
      }
    }

    /** `heap_split_block`: cut off what lies beyond the offset, if it can stand alone. */
    method HeapSplitBlock(block: int, offset: int) returns (other: int)
      requires Steady() && IsFree(layout, block) && block !in index.node
      requires GoodSize(offset) && offset <= layout[block].size
      modifies ram, this`layout
      ensures Steady() && IsFree(layout, block)
      ensures FreeOnly(startAddr, endAddr, old(ram.m), ram.m, old(layout))
      ensures if old(layout[block].size) - offset >= HEAP_LIST_MIN
              then other == block + offset && other !in old(layout) && other != 0
                && layout == Split(old(layout), block, offset)
              else other == 0 && layout == old(layout)
    {
      CellParts(ram.m, layout, startAddr, endAddr, block);
      assert Slot(build, startAddr, 0) < startAddr;
      var blockSize := SizeOf(Rd(ram.m, block + 8));
      var cut := SizeOf(offset);
      var leftover := blockSize - cut;
      Sixteenths(blockSize, offset);
      other := 0;
      if leftover >= HEAP_LIST_MIN {
        other := block + cut;
        CutRight(block, blockSize, cut);
      }
    }

    /** The two writes of `heap_split_block`: the leftover first. */
    method CutRight(block: int, blockSize: int, offset: int)
      requires Steady() && IsFree(layout, block) && block !in index.node && blockSize == layout[block].size
      requires GoodSize(offset) && GoodSize(layout[block].size - offset)
      modifies ram, this`layout
      ensures Steady() && layout == Split(old(layout), block, offset) && block + offset !in old(layout)
      ensures FreeOnly(startAddr, endAddr, old(ram.m), ram.m, old(layout))
    {
      Cut(build, startAddr, endAddr, ram.m, layout, index, block, offset);
      CreateBlock(ram, block + offset, blockSize - offset);
      CreateBlock(ram, block, offset);
      layout := Split(layout, block, offset);
    }

    /** HEAP_SET_USED */
    method SetUsed(a: int, used: bool)
      requires Steady() && a in layout && a !in index.node
      modifies ram, this`layout
      ensures Steady() && layout == Mark(old(layout), a, used)
      ensures forall w {:trigger Rd(ram.m, w)} | w != a + 8 :: Rd(ram.m, w) == Rd(old(ram.m), w)
    {
      CellParts(ram.m, layout, startAddr, endAddr, a);
      var w := Rd(ram.m, a + 8);
      Marked(build, startAddr, endAddr, ram.m, ram.m[a + 8 := SizeWord(layout[a].size, used)], layout, index, a, used);
      ram.m := ram.m[a + 8 := w - w % 2 + if used then 1 else 0];
      layout := Mark(layout, a, used);
    }

    /** `heap_merge_left` on a heap that lacks only this block: nothing free remains to its left. */
    method JoinLeft(block: int) returns (r: int)
      requires Steady() && Missing({block}) && CoalescedAwayFrom(layout, block) && NeighboursReady(block)
      modifies ram, this`index, this`layout
      ensures Steady() && Missing({r}) && CoalescedAwayFrom(layout, r) && LeftSettled(layout, r)
      ensures IsFree(layout, End(layout, r)) ==> !Stale(index, End(layout, r))
      ensures Used(layout) == old(Used(layout)) && NoMoreFree(startAddr, endAddr, old(layout), layout)
      ensures End(layout, r) == old(End(layout, block))
              && (IsFree(layout, End(layout, r)) <==> old(IsFree(layout, End(layout, block))))
      ensures layout[r].size == old(LeftFreeSize(layout, block) + layout[block].size)
      ensures IsFree(layout, End(layout, r)) ==> layout[End(layout, r)] == old(layout)[End(layout, r)]
      ensures FreeOnly(startAddr, endAddr, old(ram.m), ram.m, old(layout))
    {
      ghost var L, ix := layout, index;
      assert forall l | IsFree(L, l) && End(L, l) == block :: FreeLeftOf(L, l, block);
      r := HeapMergeLeft(block);
      if r != block {
        LeftJoined(L, startAddr, endAddr, r, block);
        JoinedMissing(L, ix, r, block);
      } else {
        NothingJoined(L, block);
      }
    }

    /** The index lacks exactly the joined block, and no stale block follows it. */
    lemma JoinedMissing(L: Layout, ix: Index, r: int, block: int)
      requires Steady() && FreeLeftOf(L, r, block) && IsFree(L, block) && layout == Merge(L, r)
      requires index.node.Keys == ix.node.Keys - {r} && StaleAfter(ix, index, r)
      requires forall a {:trigger IsFree(L, a)} | IsFree(L, a) :: a in ix.node <==> a != block
      requires End(layout, r) == End(L, block)
      requires build.Shipped? ==> !(OnSpine(ix, r) && ix.node[r].child == End(L, block))
      requires IsFree(L, End(L, block)) ==> !Stale(ix, End(L, block))
      ensures Missing({r}) && (IsFree(layout, End(layout, r)) ==> !Stale(index, End(layout, r)))
    {
      forall a | IsFree(layout, a) ensures a in index.node <==> a != r { assert a != r ==> IsFree(L, a); }
      if build.Repaired? { NeverStale(build, index, End(layout, r)); }
    }

    /** `heap_merge_right` after that: the heap is coalesced. */
    method JoinRight(block: int) returns (r: int)
      requires Steady() && Missing({block}) && CoalescedAwayFrom(layout, block) && LeftSettled(layout, block)
      requires IsFree(layout, End(layout, block)) ==> !Stale(index, End(layout, block))
      modifies ram, this`index, this`layout
      ensures r == block && Steady() && Missing({r}) && Coalesced(layout)
      ensures Used(layout) == old(Used(layout)) && NoMoreFree(startAddr, endAddr, old(layout), layout)
      ensures var e := old(End(layout, block));
              layout[r].size == old(layout[block].size) + if old(IsFree(layout, e)) then old(layout[e].size) else 0
      ensures FreeOnly(startAddr, endAddr, old(ram.m), ram.m, old(layout))
    {
      ghost var L := layout;
      assert IsFree(L, block) && BlockOk(layout, startAddr, endAddr, block);
      r := HeapMergeRight(block);
      if IsFree(L, End(L, block)) {
        MergeRightSettles(L, startAddr, endAddr, block);
        MergeSpace(L, startAddr, endAddr, block);
        forall a | IsFree(layout, a) ensures a in index.node <==> a != r { assert a != r ==> IsFree(L, a); }
      }
      Settled(layout, r);
    }

    /** Merging a free block with both neighbours, as `heap_free` does, coalesces the heap. */
    method MergeBoth(block: int) returns (r: int)
      requires Steady() && Missing({block}) && CoalescedAwayFrom(layout, block) && NeighboursReady(block)
      modifies ram, this`index, this`layout
      ensures Steady() && Missing({r}) && Coalesced(layout)
      ensures Used(layout) == old(Used(layout)) && layout[r].size == old(FreedSize(layout, block))
      ensures NoMoreFree(startAddr, endAddr, old(layout), layout)
      ensures FreeOnly(startAddr, endAddr, old(ram.m), ram.m, old(layout))
    {
      r := JoinLeft(block);
      ghost var L1, m1 := layout, ram.m;
      r := JoinRight(r);
      FreeOnlyThen(startAddr, endAddr, endAddr, old(ram.m), m1, ram.m, old(layout), L1);
      NoMoreFreeThen(startAddr, endAddr, old(layout), L1, layout);
    }

    /** The neighbours of a block about to be merged are in the index and removable one after the other. */
    ghost predicate NeighboursReady(block: int)
      requires block in layout
      reads this
    {
      && (forall l | FreeLeftOf(layout, l, block) ::
            && l in index.node && !Stale(index, l)
            && (build.Shipped? ==> !(OnSpine(index, l) && index.node[l].child == End(layout, block))))
      && (IsFree(layout, End(layout, block)) ==> End(layout, block) in index.node && !Stale(index, End(layout, block)))
    }
  
    // ----- heap_free -----

    /** HEAP_CHECK_HEADER of the block behind a payload pointer. */
    predicate HeaderChecked(ptr: int)
      reads ram
    {
      && Rd(ram.m, ptr - 16) == HEAP_MAGIC
      && Rd(ram.m, ptr - 16 + SizeOf(Rd(ram.m, ptr - 8)) - 16) == HEAP_MAGIC
    }

    /**
     What a caller must check before freeing a block of the shipped heap: neither neighbour it merges
     with carries a stale parent link, and the merged block has an index position.
     */
    ghost predicate FreeSafe(a: int)
      requires a in layout
      reads this`layout, this`index
    {
      build.Shipped? ==>
        && (forall l | FreeLeftOf(layout, l, a) ::
              !Stale(index, l) && !(OnSpine(index, l) && index.node[l].child == End(layout, a)))
        && (IsFree(layout, End(layout, a)) ==> !Stale(index, End(layout, a)))
        && Filed(build, FreedSize(layout, a))
    }

    lemma FreeReady(a: int, L: Layout)
      requires Steady() && a in L && layout == Mark(L, a, false) && FreeReadyBefore(a, L)
      ensures NeighboursReady(a)
    {
      assert BlockOk(layout, startAddr, endAddr, a);
      forall l | FreeLeftOf(layout, l, a) ensures l in index.node && !Stale(index, l) {
        assert IsFree(layout, l);
        assert l != a ==> FreeLeftOf(L, l, a);
        if build.Repaired? { NeverStale(build, index, l); }
      }
      var e := End(layout, a);
      if IsFree(layout, e) && build.Repaired? { NeverStale(build, index, e); }
      forall l | FreeLeftOf(layout, l, a) ensures build.Shipped? ==> !(OnSpine(index, l) && index.node[l].child == e) {
        assert l != a ==> FreeLeftOf(L, l, a);
      }
    }

    ghost predicate FreeReadyBefore(a: int, L: Layout)
      requires a in L
      reads this
    {
      && Missing({a})
      && (build.Shipped? ==>
            && (forall l | FreeLeftOf(L, l, a) ::
                  !Stale(index, l) && !(OnSpine(index, l) && index.node[l].child == End(L, a)))
            && (IsFree(L, End(L, a)) ==> !Stale(index, End(L, a))))
    }

    /** The body of `heap_free` under the lock. */
    method Release(block: int)
      requires Steady() && Missing({}) && Coalesced(layout) && block in Used(layout) && FreeSafe(block)
      modifies ram, this`index, this`layout
      ensures Steady() && Missing({}) && Coalesced(layout)
      ensures Used(layout) == old(Used(layout)) - {block}
      ensures FreeOnly(startAddr, endAddr, old(ram.m), ram.m, Mark(old(layout), block, false))
    {
      ghost var L, M, m := layout, Mark(layout, block, false), ram.m;
      SetUsed(block, false);
      UsedMarked(L, block);
      ReleasedAwayFrom(L, block);
      FreedSizeMarked(L, startAddr, endAddr, block);
      forall a | IsFree(layout, a) ensures a in index.node <==> a != block { assert a != block ==> IsFree(L, a); }
      FreeReady(block, L);
      ghost var m1 := ram.m;
      CellParts(m, L, startAddr, endAddr, block);
      HeaderInFree(startAddr, endAddr, m, m1, M, block);
      var r := MergeBoth(block);
      ghost var m2, L2 := ram.m, layout;
      HeapInsert(r);
      FreeOnlyThen(startAddr, endAddr, endAddr, m, m1, m2, M, M);
      FreeOnlyThen(startAddr, endAddr, endAddr, m, m2, ram.m, M, L2);
    }

    /** `heap_free`. A null pointer, or one whose block does not pass the header check, is ignored. */
    method HeapFree(ptr: int)
      requires Valid()
      requires ptr != 0 && HeaderChecked(ptr) ==> ptr - 16 in Used(layout) && FreeSafe(ptr - 16)
      modifies ram, this`index, this`layout, this`locked
      ensures Valid()
      ensures if ptr != 0 && old(HeaderChecked(ptr))
              then && Used(layout) == old(Used(layout)) - {ptr - 16}
                   && FreeOnly(startAddr, endAddr, old(ram.m), ram.m, Mark(old(layout), ptr - 16, false))
              else ram.m == old(ram.m) && layout == old(layout) && index == old(index)
    {
      if ptr != 0 {
        var block := ptr - 16;
        if Rd(ram.m, block) == HEAP_MAGIC && Rd(ram.m, block + SizeOf(Rd(ram.m, block + 8)) - 16) == HEAP_MAGIC {
          locked := true;
          Release(block);
          locked := false;
        }
      }
    }
  
    // ----- heap_alloc -----

    /** The last block, if it is free: what `heap_extend` merges the new space with. */
    ghost predicate LastFree(l: int)
      reads this`layout, this`endAddr
    {
      FreeLeftOf(layout, l, endAddr)
    }

    /** What `page_alloc` may answer: nothing, or whole pages of fresh memory at the end of the heap. */
    predicate GrantOk(bsize: int, align: bool, grant: int)
      reads this`endAddr
    {
      grant == 0 || (ExtendRequest(build, bsize, align) <= grant && grant % PAGE_SIZE == 0 && 0 < grant
                     && endAddr + grant <= MAX_PADDR)
    }

    /** `heap_extend`: grant is the answer of `page_alloc`. */
    method HeapExtend(grant: int) returns (r: int)
      requires Steady() && Missing({}) && Coalesced(layout)
      requires grant == 0 || (0 < grant && grant % PAGE_SIZE == 0 && endAddr + grant <= MAX_PADDR)
      requires grant != 0 ==> forall l | LastFree(l) :: !Stale(index, l)
      modifies ram, this`index, this`layout, this`endAddr
      ensures Steady() && Coalesced(layout) && Used(layout) == old(Used(layout))
      ensures endAddr == old(endAddr) + grant
      ensures grant == 0 ==> r == 0 && ram.m == old(ram.m) && layout == old(layout) && index == old(index)
      ensures grant != 0 ==> r != 0 && Missing({r}) && End(layout, r) == endAddr
      ensures grant != 0 ==>
                && layout[r].size == grant + old(LeftFreeSize(layout, endAddr))
                && NoMoreFree(startAddr, old(endAddr), old(layout), layout)
      ensures FreeOnly(startAddr, old(endAddr), old(ram.m), ram.m, old(layout))
    {
      r := 0;
      if grant > 0 {
        r := Grow(grant);
      }
    }

    lemma FreeBlockAt(x: int)
      requires Steady() && IsFree(layout, x)
      ensures 0 < x && x % 16 == 0 && layout[x].size <= MAX_PADDR
    {
      assert BlockOk(layout, startAddr, endAddr, x) && Slot(build, startAddr, 0) < startAddr;
    }

    /** `heap_extend` once `page_alloc` has answered. */
    method Grow(grant: int) returns (r: int)
      requires Steady() && Missing({}) && Coalesced(layout)
      requires 0 < grant && grant % PAGE_SIZE == 0 && endAddr + grant <= MAX_PADDR
      requires forall l | LastFree(l) :: !Stale(index, l)
      modifies ram, this`index, this`layout, this`endAddr
      ensures Steady() && Coalesced(layout) && Used(layout) == old(Used(layout))
      ensures endAddr == old(endAddr) + grant && r != 0 && Missing({r}) && End(layout, r) == endAddr
      ensures layout[r].size == grant + old(LeftFreeSize(layout, endAddr))
      ensures NoMoreFree(startAddr, old(endAddr), old(layout), layout)
      ensures FreeOnly(startAddr, old(endAddr), old(ram.m), ram.m, old(layout))
    {
      ghost var L, m := layout, ram.m;
      var hi := endAddr;
      Append(grant);
      ghost var m1, L1 := ram.m, layout;
      r := JoinLeft(hi);
      EndNotBlock(layout, startAddr, endAddr);
      Settled(layout, r);
      FreeBlockAt(r);
      GrownSpace(startAddr, hi, endAddr, m, m1, ram.m, L, L1, layout);
    }

    method Append(grant: int)
      requires Steady() && Missing({}) && Coalesced(layout)
      requires 0 < grant && grant % PAGE_SIZE == 0 && endAddr + grant <= MAX_PADDR
      requires forall l | LastFree(l) :: !Stale(index, l)
      modifies ram, this`layout, this`endAddr
      ensures Steady() && layout == Extend(old(layout), old(endAddr), grant) && old(endAddr) !in old(layout)
      ensures endAddr == old(endAddr) + grant
      ensures Missing({old(endAddr)}) && CoalescedAwayFrom(layout, old(endAddr)) && NeighboursReady(old(endAddr))
      ensures LeftFreeSize(layout, old(endAddr)) == old(LeftFreeSize(layout, endAddr))
              && Used(layout) == old(Used(layout))
      ensures NoMoreFree(startAddr, old(endAddr), old(layout), layout)
      ensures FreeOnly(startAddr, old(endAddr), old(ram.m), ram.m, old(layout))
    {
      ghost var L, hi := layout, endAddr;
      AppendBlock(grant);
      ExtendReady(L, hi, grant);
      ExtendSpace(L, startAddr, hi, grant);
    }

    /** The new space is one free block. */
    method AppendBlock(grant: int)
      requires Steady() && 0 < grant && grant % PAGE_SIZE == 0 && endAddr + grant <= MAX_PADDR
      modifies ram, this`layout, this`endAddr
      ensures Steady() && layout == Extend(old(layout), old(endAddr), grant) && old(endAddr) !in old(layout)
      ensures endAddr == old(endAddr) + grant
      ensures FreeOnly(startAddr, old(endAddr), old(ram.m), ram.m, old(layout))
    {
      WholePages(endAddr, grant);
      Extended(build, startAddr, endAddr, ram.m, layout, index, grant);
      CreateBlock(ram, endAddr, grant);
      layout := Extend(layout, endAddr, grant);
      endAddr := endAddr + grant;
    }

    /** The child of a spine block is a block, so it does not lie at the end of the heap. */
    lemma ChildBeforeEnd(l: int)
      requires Steady() && OnSpine(index, l)
      ensures index.node[l].child != endAddr
    {
      assert BlockOk(layout, startAddr, endAddr, startAddr) && Slot(build, startAddr, 0) < startAddr;
      SpineFacts(build, index, l);
      var c := index.node[l].child;
      if c != 0 { assert c in layout && BlockOk(layout, startAddr, endAddr, c); }
    }

    lemma ExtendReady(L: Layout, hi: int, n: int)
      requires Steady() && hi !in L && layout == Extend(L, hi, n) && endAddr == hi + n && 0 < n
      requires Coalesced(L) && Tiled(L, startAddr, hi) && Indexed(L, index)
      requires forall a | IsFree(L, a) :: a in index.node
      requires forall l | FreeLeftOf(L, l, hi) :: !Stale(index, l)
      ensures Missing({hi}) && CoalescedAwayFrom(layout, hi) && NeighboursReady(hi)
      ensures LeftFreeSize(layout, hi) == LeftFreeSize(L, hi) && Used(layout) == Used(L)
    {
      ExtendAwayFrom(L, startAddr, hi, n);
      forall a | IsFree(layout, a) ensures a in index.node <==> a != hi { assert a != hi ==> IsFree(L, a); }
      EndNotBlock(layout, startAddr, endAddr);
      forall l | FreeLeftOf(layout, l, hi)
        ensures l in index.node && !Stale(index, l) && !(OnSpine(index, l) && index.node[l].child == endAddr) {
        assert FreeLeftOf(L, l, hi) && IsFree(L, l);
        if OnSpine(index, l) { ChildBeforeEnd(l); }
      }
    }
  
    /** The cut of `heap_alloc` that puts the payload on a page boundary; the left part is indexed again. */
    method CutLeft(x: int, cut: int) returns (y: int)
      requires Steady() && Missing({x}) && Coalesced(layout)
      requires GoodSize(cut) && Filed(build, cut) && GoodSize(layout[x].size - cut)
      modifies ram, this`index, this`layout
      ensures y == x + cut && y !in old(layout) && Steady() && Missing({y}) && layout == Split(old(layout), x, cut)
      ensures CoalescedAwayFrom(layout, y) && RightSettled(layout, y)
      ensures Used(layout) == old(Used(layout)) && NoMoreFree(startAddr, endAddr, old(layout), layout)
      ensures FreeOnly(startAddr, endAddr, old(ram.m), ram.m, old(layout))
    {
      ghost var L, m := layout, ram.m;
      assert IsFree(L, x);
      CellParts(m, L, startAddr, endAddr, x);
      y := TwoBlocks(x, SizeOf(Rd(ram.m, x + 8)), cut);
      CoalescedSettled(L, x);
      SplitAwayFrom(L, startAddr, endAddr, x, cut);
      SplitSpace(L, startAddr, endAddr, x, cut);
      ghost var m1 := ram.m;
      HeapInsert(x);
      FreeOnlyThen(startAddr, endAddr, endAddr, m, m1, ram.m, L, layout);
      forall a | IsFree(layout, a) ensures a in index.node <==> a != y { assert a != x && a != y ==> IsFree(L, a); }
    }

    method TwoBlocks(x: int, size: int, cut: int) returns (y: int)
      requires Steady() && IsFree(layout, x) && x !in index.node && size == layout[x].size
      requires GoodSize(cut) && GoodSize(layout[x].size - cut)
      modifies ram, this`layout
      ensures y == x + cut && y !in old(layout) && y !in index.node && Steady() && layout == Split(old(layout), x, cut)
      ensures FreeOnly(startAddr, endAddr, old(ram.m), ram.m, old(layout))
    {
      y := x + cut;
      CutOther(build, startAddr, endAddr, ram.m, layout, index, x, cut);
      CreateBlock(ram, x, cut);
      CreateBlock(ram, y, size - cut);
      layout := Split(layout, x, cut);
    }

    /** The end of `heap_alloc`: cut off and index what is left over, mark the block used. */
    method Occupy(y: int, bsize: int)
      requires Steady() && Missing({y}) && CoalescedAwayFrom(layout, y) && RightSettled(layout, y)
      requires GoodSize(bsize) && bsize <= layout[y].size
      requires HEAP_LIST_MIN <= layout[y].size - bsize ==> Filed(build, layout[y].size - bsize)
      modifies ram, this`index, this`layout
      ensures Steady() && Missing({}) && Coalesced(layout)
      ensures Used(layout) ==
              old(Used(layout))[y := if old(layout[y].size) - bsize >= HEAP_LIST_MIN then bsize
                                     else old(layout[y].size)]
      ensures layout == Mark(if old(layout[y].size) - bsize >= HEAP_LIST_MIN then Split(old(layout), y, bsize)
                             else old(layout), y, true)
      ensures FreeOnly(startAddr, endAddr, old(ram.m), ram.m, old(layout))
    {
      ghost var L, m := layout, ram.m;
      CutOff(y, bsize);
      ghost var L1, m1 := layout, ram.m;
      TakeOut(y);
      FreeOnlyThen(startAddr, endAddr, endAddr, m, m1, ram.m, L, L1);
    }

    method CutOff(y: int, bsize: int)
      requires Steady() && Missing({y}) && CoalescedAwayFrom(layout, y) && RightSettled(layout, y)
      requires GoodSize(bsize) && bsize <= layout[y].size
      requires HEAP_LIST_MIN <= layout[y].size - bsize ==> Filed(build, layout[y].size - bsize)
      modifies ram, this`index, this`layout
      ensures Steady() && Missing({y}) && CoalescedAwayFrom(layout, y)
      ensures layout == if old(layout[y].size) - bsize >= HEAP_LIST_MIN then Split(old(layout), y, bsize)
                        else old(layout)
      ensures Used(layout) == old(Used(layout)) && NoMoreFree(startAddr, endAddr, old(layout), layout)
      ensures FreeOnly(startAddr, endAddr, old(ram.m), ram.m, old(layout))
    {
      ghost var L, m := layout, ram.m;
      assert IsFree(L, y);
      CellParts(m, L, startAddr, endAddr, y);
      var other := HeapSplitBlock(y, bsize);
      ghost var m1 := ram.m;
      if other != 0 {
        SplitAwayFrom(L, startAddr, endAddr, y, bsize);
        SplitSpace(L, startAddr, endAddr, y, bsize);
        HeapInsert(other);
      }
      forall a | IsFree(layout, a) ensures a in index.node <==> a != y { assert a != other && a != y ==> IsFree(L, a); }
      FreeOnlyThen(startAddr, endAddr, endAddr, m, m1, ram.m, L, layout);
    }

    method TakeOut(y: int)
      requires Steady() && Missing({y}) && CoalescedAwayFrom(layout, y)
      modifies ram, this`layout
      ensures Steady() && Missing({}) && Coalesced(layout) && layout == Mark(old(layout), y, true)
      ensures Used(layout) == old(Used(layout))[y := old(layout[y].size)]
      ensures FreeOnly(startAddr, endAddr, old(ram.m), ram.m, old(layout))
    {
      ghost var L, m := layout, ram.m;
      assert IsFree(L, y);
      CellParts(m, L, startAddr, endAddr, y);
      SetUsed(y, true);
      HeaderInFree(startAddr, endAddr, m, ram.m, L, y);
      UsedMarked(L, y);
      UsedSettles(L, y);
      forall a | IsFree(layout, a) ensures a in index.node { assert IsFree(L, a); }
    }
  
    /** `heap_alloc` once it has a block and knows the cut. */
    method Place(x: int, cut: int, bsize: int) returns (y: int)
      requires Steady() && Missing({x}) && Coalesced(layout)
      requires GoodSize(bsize) && 0 <= cut && cut + bsize <= layout[x].size
      requires cut != 0 ==> GoodSize(cut) && Filed(build, cut)
      requires HEAP_LIST_MIN <= layout[x].size - cut - bsize ==> Filed(build, layout[x].size - cut - bsize)
      modifies ram, this`index, this`layout
      ensures y == x + cut && y !in old(Used(layout)) && Steady() && Missing({}) && Coalesced(layout)
      ensures var rest := old(layout[x].size) - cut;
              Used(layout) == old(Used(layout))[y := if rest - bsize >= HEAP_LIST_MIN then bsize else rest]
      ensures cut != 0 ==> IsFree(layout, x) && layout[x].size == cut
      ensures FreeOnly(startAddr, endAddr, old(ram.m), ram.m, old(layout))
    {
      ghost var L, m := layout, ram.m;
      assert IsFree(L, x);
      CoalescedSettled(L, x);
      y := x;
      if cut != 0 {
        assert GoodSize(L[x].size - cut) by {
          assert BlockOk(L, startAddr, endAddr, x);
          Sixteenths(L[x].size, cut);
        }
        y := CutLeft(x, cut);
      }
      ghost var L1, m1 := layout, ram.m;
      Occupy(y, bsize);
      FreeOnlyThen(startAddr, endAddr, endAddr, m, m1, ram.m, L, L1);
    }

    /** Where `heap_alloc` cuts a block: nowhere, or where the payload reaches the next page boundary. */
    method ChooseCut(x: int, align: bool) returns (cut: int)
      requires x % 16 == 0
      ensures cut == if align then CutFor(build, x) else 0
      ensures align ==> PageAligned(x + cut + 16)
      ensures 0 <= cut
    {
      cut := 0;
      CutForPage(build, x);
      if align && !PageAligned(x + 16) {
        var blockOffset := PageSizeAlign(x + 16) - 16;
        cut := blockOffset - x;
        if build.Repaired? && cut < HEAP_LIST_MIN {
          cut := cut + PAGE_SIZE;
        }
      }
    }

    /** A block `heap_search` may return. */
    ghost predicate Candidate(x: int, bsize: int, align: bool)
      reads this`index
    {
      if align then ChosenAligned(build, index, x, bsize) else Chosen(index, x, bsize)
    }

    /** No free block can serve a request: none is large enough, or, with alignment, none is eligible. */
    ghost predicate NothingFound(bsize: int, align: bool)
      reads this`layout, this`index
    {
      if align then NoneEligible(build, index, bsize) else NoFreeFit(layout, bsize)
    }

    /**
     What a caller must check before allocating from the shipped heap: every block the search may return
     can be removed and placed, and so can the block an extension would give.
     */
    ghost predicate AllocSafe(size: int, align: bool, grant: int)
      reads this`layout, this`index, this`endAddr
    {
      build.Shipped? && 0 < size ==>
        var bsize := BlockSizeFor(size);
        && size <= W64 - 48
        && (forall x | Candidate(x, bsize, align) ::
              !Stale(index, x) && CarveOk(build, x, index.node[x].size, bsize, align))
        && (grant != 0 && NothingFound(bsize, align) ==>
              var left := LeftFreeSize(layout, endAddr);
              && (forall l | LastFree(l) :: !Stale(index, l))
              && CarveOk(build, endAddr - left, grant + left, bsize, align))
    }
  
    /** The free blocks of a heap at rest are the indexed ones. */
    lemma FreeIsIndexed()
      requires Steady() && Missing({})
      ensures forall a {:trigger IsFree(layout, a)} :: IsFree(layout, a) <==> a in index.node
      ensures forall a | a in index.node :: layout[a].size == index.node[a].size
    {
      forall a ensures IsFree(layout, a) <==> a in index.node { assert IsFree(layout, a) ==> a in index.node; }
    }

    /** The first half of `heap_alloc`: a block from the index, or else from an extension; it is in no index then. */
    method Obtain(bsize: int, align: bool, grant: int) returns (x: int)
      requires Steady() && Missing({}) && Coalesced(layout) && GoodSize(bsize)
      requires grant == 0 || (0 < grant && grant % PAGE_SIZE == 0 && endAddr + grant <= MAX_PADDR)
      requires forall x | Candidate(x, bsize, align) :: !Stale(index, x)
      requires grant != 0 && NothingFound(bsize, align) ==> forall l | LastFree(l) :: !Stale(index, l)
      modifies ram, this`index, this`layout, this`endAddr
      ensures Steady() && Coalesced(layout) && Used(layout) == old(Used(layout))
      ensures x == 0 ==>
                && ram.m == old(ram.m) && layout == old(layout) && endAddr == old(endAddr) && Missing({}) && grant == 0
                && old(NothingFound(bsize, align))
      ensures x != 0 ==> Missing({x}) && NoMoreFree(startAddr, old(endAddr), old(layout), layout)
      ensures x != 0 && endAddr == old(endAddr) ==>
                && layout == old(layout) && old(Candidate(x, bsize, align)) && layout[x].size == old(index.node[x].size)
                && (!align ==> BestFreeFit(layout, x, bsize))
      ensures endAddr != old(endAddr) ==>
                && x == old(endAddr - LeftFreeSize(layout, endAddr))
                && layout[x].size == grant + old(LeftFreeSize(layout, endAddr))
                && endAddr == old(endAddr) + grant && old(NothingFound(bsize, align))
      ensures FreeOnly(startAddr, old(endAddr), old(ram.m), ram.m, old(layout))
    {
      ghost var ix := index;
      FreeIsIndexed();
      x := Search(build, ram, startAddr, bsize, align, index);
      if x == 0 {
        x := HeapExtend(grant);
      } else {
        assert Candidate(x, bsize, align);
        HeapRemove(x);
        forall a | IsFree(layout, a) ensures a in index.node <==> a != x { assert a in ix.node; }
        assert IsFree(layout, x);
      }
    }
  
    /** A block that the search or an extension gave can be placed. */
    lemma ObtainedFits(x: int, s: int, bsize: int, align: bool)
      requires build.Repaired? && GoodSize(bsize) && bsize <= s <= MAX_PADDR && 0 <= x && x % 16 == 0
      requires align ==> PageAligned(x + 16) || FitTest(build, x, s, bsize) || ExtendRequest(build, bsize, true) <= s
      ensures CarveOk(build, x, s, bsize, align)
    {
      RepairedCarve(x, s, bsize, align);
    }

    /** The safety of an allocation in terms of the block size. */
    ghost predicate CarveSafe(bsize: int, align: bool, grant: int)
      reads this`layout, this`index, this`endAddr
    {
      && (forall x | Candidate(x, bsize, align) :: !Stale(index, x))
      && (grant != 0 && NothingFound(bsize, align) ==> forall l | LastFree(l) :: !Stale(index, l))
      && (build.Shipped? ==>
            && (forall x | Candidate(x, bsize, align) :: CarveOk(build, x, index.node[x].size, bsize, align))
            && (grant != 0 && NothingFound(bsize, align) ==>
                  CarveOk(build, endAddr - LeftFreeSize(layout, endAddr), grant + LeftFreeSize(layout, endAddr), bsize,
                          align)))
    }

    lemma SafeToCarve(size: int, align: bool, grant: int)
      requires Steady() && AllocSafe(size, align, grant) && 0 < size
      ensures CarveSafe(BlockSizeFor(size), align, grant)
    {
      if build.Repaired? {
        forall x ensures !Stale(index, x) { NeverStale(build, index, x); }
      }
    }

    /** Whatever `heap_alloc` obtains can be placed. */
    method ObtainFitting(bsize: int, align: bool, grant: int) returns (x: int)
      requires Steady() && Missing({}) && Coalesced(layout) && GoodSize(bsize)
      requires GrantOk(bsize, align, grant) && CarveSafe(bsize, align, grant)
      modifies ram, this`index, this`layout, this`endAddr
      ensures Steady() && Coalesced(layout) && Used(layout) == old(Used(layout))
      ensures x == 0 ==>
                && ram.m == old(ram.m) && layout == old(layout) && endAddr == old(endAddr) && Missing({}) && grant == 0
                && old(NothingFound(bsize, align))
      ensures x != 0 ==>
                && Missing({x}) && NoMoreFree(startAddr, old(endAddr), old(layout), layout)
                && 0 < x && x % 16 == 0 && CarveOk(build, x, layout[x].size, bsize, align)
      ensures x != 0 && endAddr == old(endAddr) && !align ==>
                layout == old(layout) && old(BestFreeFit(layout, x, bsize))
      ensures x != 0 ==> Obtained(build, old(layout), old(index), old(endAddr), bsize, align, grant, x, layout[x].size)
      ensures x != 0 && endAddr == old(endAddr) ==> !old(NothingFound(bsize, align))
      ensures endAddr != old(endAddr) ==> endAddr == old(endAddr) + grant && old(NothingFound(bsize, align))
      ensures FreeOnly(startAddr, old(endAddr), old(ram.m), ram.m, old(layout))
    {
      LeftFreeNonNegative(layout, startAddr, endAddr, endAddr);
      x := Obtain(bsize, align, grant);
      if x != 0 {
        FreeBlockAt(x);
        if build.Repaired? { ObtainedFits(x, layout[x].size, bsize, align); }
      }
    }

    /** The second half of `heap_alloc`: the block is cut to size, on a page boundary if wanted. */
    method PlaceAligned(x: int, bsize: int, align: bool) returns (y: int)
      requires Steady() && Missing({x}) && Coalesced(layout) && GoodSize(bsize)
      requires 0 < x && x % 16 == 0 && CarveOk(build, x, layout[x].size, bsize, align)
      modifies ram, this`index, this`layout
      ensures Steady() && Missing({}) && Coalesced(layout)
      ensures 0 < y && y !in old(Used(layout)) && y in Used(layout)
              && Used(layout) == old(Used(layout))[y := Used(layout)[y]]
      ensures bsize <= Used(layout)[y] < bsize + HEAP_LIST_MIN && if align then PageAligned(y + 16) else y == x
      ensures PlacedIn(build, x, old(layout[x].size), bsize, align, y, Used(layout)[y])
      ensures FreeOnly(startAddr, endAddr, old(ram.m), ram.m, old(layout))
    {
      var cut := ChooseCut(x, align);
      y := Place(x, cut, bsize);
    }

    /** `heap_alloc` for a block size, under the lock. */
    method AllocBlock(bsize: int, align: bool, grant: int) returns (y: int, ghost x: int, ghost s: int)
      requires Steady() && Missing({}) && Coalesced(layout) && GoodSize(bsize)
      requires GrantOk(bsize, align, grant) && CarveSafe(bsize, align, grant)
      modifies ram, this`index, this`layout, this`endAddr
      ensures Steady() && Missing({}) && Coalesced(layout)
      ensures y == 0 ==>
                && ram.m == old(ram.m) && layout == old(layout) && endAddr == old(endAddr) && grant == 0
                && old(NothingFound(bsize, align))
      ensures y != 0 ==>
                && 0 < y && y !in old(Used(layout)) && y in Used(layout)
                && Used(layout) == old(Used(layout))[y := Used(layout)[y]]
                && bsize <= Used(layout)[y] < bsize + HEAP_LIST_MIN && (align ==> PageAligned(y + 16))
      ensures y != 0 ==>
                && Obtained(build, old(layout), old(index), old(endAddr), bsize, align, grant, x, s)
                && PlacedIn(build, x, s, bsize, align, y, Used(layout)[y])
      ensures y != 0 && !align && endAddr == old(endAddr) ==> old(BestFreeFit(layout, y, bsize))
      ensures y != 0 && endAddr == old(endAddr) ==> !old(NothingFound(bsize, align))
      ensures endAddr != old(endAddr) ==> endAddr == old(endAddr) + grant && old(NothingFound(bsize, align))
      ensures FreeOnly(startAddr, old(endAddr), old(ram.m), ram.m, old(layout))
    {
      ghost var L, m := layout, ram.m;
      y := ObtainFitting(bsize, align, grant);
      x, s := y, if y == 0 then 0 else layout[y].size;
      ghost var L1, m1 := layout, ram.m;
      if y != 0 {
        y := PlaceAligned(y, bsize, align);
        FreeOnlyThen(startAddr, old(endAddr), endAddr, m, m1, ram.m, L, L1);
      }
    }
  
    /** The requests the build serves at all: the repair refuses one whose rounding would wrap. */
    predicate Served(size: int) {
      0 < size && (build.Repaired? ==> size <= W64 - 48)
    }

    /**
     `heap_alloc`. A request is met by a block of its own, less than 48 bytes larger than its rounded size,
     page aligned if wanted; nothing but formerly free space changes. Which block that is and how much of it is used
     is determined by the heap, the request and the grant. Without alignment the block is a best fit.
     The request fails exactly if no page was granted and no free block fits, or none is eligible for alignment.
     */
    method HeapAlloc(size: int, align: bool, grant: int) returns (ptr: int)
      requires Valid() && 0 <= size < W64
      requires GrantOk(BlockSizeFor(size), align, grant) && AllocSafe(size, align, grant)
      modifies ram, this`index, this`layout, this`endAddr, this`locked
      ensures Valid()
      ensures ptr == 0 ==> ram.m == old(ram.m) && layout == old(layout) && endAddr == old(endAddr)
      ensures ptr != 0 ==>
                && 0 < size && ptr - 16 !in old(Used(layout)) && ptr - 16 in Used(layout)
                && Used(layout) == old(Used(layout))[ptr - 16 := Used(layout)[ptr - 16]]
                && size + HEAP_OVERHEAD <= BlockSizeFor(size) <= Used(layout)[ptr - 16]
                && Used(layout)[ptr - 16] < BlockSizeFor(size) + HEAP_LIST_MIN
                && (align ==> PageAligned(ptr))
      ensures Served(size) ==> (ptr == 0 <==> grant == 0 && old(NothingFound(BlockSizeFor(size), align)))
      ensures !Served(size) ==> ptr == 0
      ensures ptr != 0 ==>
                Given(build, old(layout), old(index), old(endAddr), BlockSizeFor(size), align, grant,
                      ptr - 16, Used(layout)[ptr - 16])
      ensures !align && ptr != 0 && endAddr == old(endAddr) ==> old(BestFreeFit(layout, ptr - 16, BlockSizeFor(size)))
      ensures endAddr == old(endAddr) + if ptr != 0 && old(NothingFound(BlockSizeFor(size), align)) then grant else 0
      ensures FreeOnly(startAddr, old(endAddr), old(ram.m), ram.m, old(layout))
    {
      locked := true;
      ptr := 0;
      if Served(size) {
        ptr := AllocServed(size, align, grant);
      }
      locked := false;
    }

    /** The request is rounded to a block size. */
    method AllocServed(size: int, align: bool, grant: int) returns (ptr: int)
      requires Steady() && Missing({}) && Coalesced(layout) && Served(size) && size < W64
      requires GrantOk(BlockSizeFor(size), align, grant) && AllocSafe(size, align, grant)
      modifies ram, this`index, this`layout, this`endAddr
      ensures Steady() && Missing({}) && Coalesced(layout) && size + HEAP_OVERHEAD <= BlockSizeFor(size)
      ensures ptr == 0 ==> ram.m == old(ram.m) && layout == old(layout) && endAddr == old(endAddr)
      ensures ptr != 0 ==>
                && ptr - 16 !in old(Used(layout)) && ptr - 16 in Used(layout)
                && Used(layout) == old(Used(layout))[ptr - 16 := Used(layout)[ptr - 16]]
                && BlockSizeFor(size) <= Used(layout)[ptr - 16] < BlockSizeFor(size) + HEAP_LIST_MIN
                && (align ==> PageAligned(ptr))
      ensures ptr != 0 ==>
                Given(build, old(layout), old(index), old(endAddr), BlockSizeFor(size), align, grant,
                      ptr - 16, Used(layout)[ptr - 16])
      ensures ptr == 0 <==> grant == 0 && old(NothingFound(BlockSizeFor(size), align))
      ensures !align && ptr != 0 && endAddr == old(endAddr) ==> old(BestFreeFit(layout, ptr - 16, BlockSizeFor(size)))
      ensures endAddr == old(endAddr) + if ptr != 0 && old(NothingFound(BlockSizeFor(size), align)) then grant else 0
      ensures FreeOnly(startAddr, old(endAddr), old(ram.m), ram.m, old(layout))
    {
      RequestHonoured(size);
      SafeToCarve(size, align, grant);
      ptr := AllocPayload(BlockSizeFor(size), align, grant);
    }

    method AllocPayload(bsize: int, align: bool, grant: int) returns (ptr: int)
      requires Steady() && Missing({}) && Coalesced(layout) && GoodSize(bsize)
      requires GrantOk(bsize, align, grant) && CarveSafe(bsize, align, grant)
      modifies ram, this`index, this`layout, this`endAddr
      ensures Steady() && Missing({}) && Coalesced(layout)
      ensures ptr == 0 ==> ram.m == old(ram.m) && layout == old(layout) && endAddr == old(endAddr)
      ensures ptr != 0 ==>
                && ptr - 16 !in old(Used(layout)) && ptr - 16 in Used(layout)
                && Used(layout) == old(Used(layout))[ptr - 16 := Used(layout)[ptr - 16]]
                && bsize <= Used(layout)[ptr - 16] < bsize + HEAP_LIST_MIN
                && (align ==> PageAligned(ptr))
      ensures ptr != 0 ==>
                Given(build, old(layout), old(index), old(endAddr), bsize, align, grant, ptr - 16,
                      Used(layout)[ptr - 16])
      ensures ptr == 0 <==> grant == 0 && old(NothingFound(bsize, align))
      ensures !align && ptr != 0 && endAddr == old(endAddr) ==> old(BestFreeFit(layout, ptr - 16, bsize))
      ensures endAddr == old(endAddr) + if ptr != 0 && old(NothingFound(bsize, align)) then grant else 0
      ensures FreeOnly(startAddr, old(endAddr), old(ram.m), ram.m, old(layout))
    {
      ptr := 0;
      var block;
      ghost var x, s;
      block, x, s := AllocBlock(bsize, align, grant);
      if block != 0 {
        ptr := block + 16;
      }
    }

    /**
     `heap_alloc_size`: the payload size of a live block, 0 for a null pointer or a block that fails the header
     check.
     */
    method HeapAllocSize(ptr: int) returns (size: int)
      requires Valid()
      ensures ptr - 16 in Used(layout) ==> size == Used(layout)[ptr - 16] - HEAP_OVERHEAD
      ensures ptr == 0 || !HeaderChecked(ptr) ==> size == 0
    {
      size := 0;
      if ptr - 16 in Used(layout) {
        CellParts(ram.m, layout, startAddr, endAddr, ptr - 16);
        assert Slot(build, startAddr, 0) < startAddr;
      }
      if ptr != 0 {
        var block := ptr - 16;
        if Rd(ram.m, block) == HEAP_MAGIC && Rd(ram.m, block + SizeOf(Rd(ram.m, block + 8)) - 16) == HEAP_MAGIC {
          size := SizeOf(Rd(ram.m, block + 8)) - HEAP_OVERHEAD;
        }
      }
    }
  }
}
