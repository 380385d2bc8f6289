/** How a layout lies in memory: headers and footers, and what an operation on free space may touch. */
module HeapBlocks {
  import opened Machine
  import opened HeapFormat
  import opened HeapIndex
  import opened IndexMemory
  import opened HeapTiling

  /** Header and footer of the block at a. */
  ghost predicate BlockCell(m: Memory, L: Layout, a: int)
    requires a in L
  {
    && Rd(m, a) == 0xFFFFC0CAC01AFFFF && Rd(m, a + 8) == L[a].size + (if L[a].used then 1 else 0)
    && Rd(m, a + L[a].size - 16) == 0xFFFFC0CAC01AFFFF && Rd(m, a + L[a].size - 8) == a
  }

  ghost predicate BlocksRep(m: Memory, L: Layout) {
    forall a {:trigger BlockCell(m, L, a)} | a in L :: BlockCell(m, L, a)
  }

  /** What the header and the footer of a block tell. */
  lemma CellParts(m: Memory, L: Layout, lo: int, hi: int, a: int)
    requires Tiled(L, lo, hi) && BlocksRep(m, L) && a in L
    ensures lo <= a && a % 16 == 0 && GoodSize(L[a].size) && End(L, a) <= hi && (End(L, a) == hi || End(L, a) in L)
    ensures Rd(m, a) == HEAP_MAGIC && Rd(m, End(L, a) - 16) == HEAP_MAGIC && Rd(m, End(L, a) - 8) == a
    ensures SizeOf(Rd(m, a + 8)) == L[a].size && UsedOf(Rd(m, a + 8)) == L[a].used
    ensures Rd(m, a + 8) == SizeWord(L[a].size, L[a].used) && Rd(m, a + 8) - Rd(m, a + 8) % 2 == L[a].size
  {
    assert BlockOk(L, lo, hi, a) && BlockCell(m, L, a);
    SizeWordParts(L[a].size, L[a].used);
  }

  /** Every indexed block is a free block of the layout. */
  ghost predicate Indexed(L: Layout, ix: Index) {
    forall a {:trigger a in ix.node} | a in ix.node :: a in L && !L[a].used && L[a].size == ix.node[a].size
  }

  /**
   The invariant between the steps of an operation: free blocks may still be missing from the index or uncoalesced.
   */
  ghost predicate Sound(b: Build, lo: int, hi: int, m: Memory, L: Layout, ix: Index) {
    Tiled(L, lo, hi) && BlocksRep(m, L) && Indexed(L, ix) && IndexOk(b, ix) && Rep(b, lo, m, ix)
  }

  ghost predicate InFree(L: Layout, w: int) {
    exists a :: IsFree(L, a) && a <= w < a + L[a].size
  }

  /** Below the end of the heap, only words of free blocks and of `free[]` have changed. */
  ghost predicate FreeOnly(lo: int, hi: int, m: Memory, m': Memory, L: Layout) {
    forall w {:trigger Rd(m', w)} | Guarded(lo, w) && w < hi && !InFree(L, w) :: Rd(m', w) == Rd(m, w)
  }

  /** No address becomes free. */
  ghost predicate NoMoreFree(lo: int, hi: int, L: Layout, M: Layout) {
    forall w {:trigger InFree(M, w)} | Guarded(lo, w) && w < hi && InFree(M, w) :: InFree(L, w)
  }

  lemma FreeOnlyThen(lo: int, hi: int, hi': int, m: Memory, m1: Memory, m2: Memory, L: Layout, M: Layout)
    requires FreeOnly(lo, hi, m, m1, L) && FreeOnly(lo, hi', m1, m2, M) && hi <= hi' && NoMoreFree(lo, hi, L, M)
    ensures FreeOnly(lo, hi, m, m2, L)
  {
    forall w | Guarded(lo, w) && w < hi && !InFree(L, w) ensures Rd(m2, w) == Rd(m, w) {
      assert Rd(m1, w) == Rd(m, w);
      assert !InFree(M, w);
    }
  }

  /** A change of the header of a free block stays in free space. */
  lemma HeaderInFree(lo: int, hi: int, m: Memory, m': Memory, L: Layout, a: int)
    requires IsFree(L, a) && 16 <= L[a].size
    requires forall w {:trigger Rd(m', w)} | w != a + 8 :: Rd(m', w) == Rd(m, w)
    ensures FreeOnly(lo, hi, m, m', L)
  {
    forall w | Guarded(lo, w) && w < hi && !InFree(L, w) ensures Rd(m', w) == Rd(m, w) {
      assert !(IsFree(L, a) && a <= w < a + L[a].size);
    }
  }

  lemma NoMoreFreeThen(lo: int, hi: int, L: Layout, M: Layout, N: Layout)
    requires NoMoreFree(lo, hi, L, M) && NoMoreFree(lo, hi, M, N)
    ensures NoMoreFree(lo, hi, L, N)
  {
    forall w | Guarded(lo, w) && w < hi && InFree(N, w) ensures InFree(L, w) { assert InFree(M, w); }
  }

  /** Growing and then merging makes no old address free, and touches only free space below the old end. */
  lemma GrownSpace(lo: int, hi: int, hi': int, m: Memory, m1: Memory, m2: Memory, L: Layout, L1: Layout, L2: Layout)
    requires NoMoreFree(lo, hi, L, L1) && NoMoreFree(lo, hi', L1, L2) && hi <= hi'
    requires FreeOnly(lo, hi, m, m1, L) && FreeOnly(lo, hi', m1, m2, L1)
    ensures NoMoreFree(lo, hi, L, L2) && FreeOnly(lo, hi, m, m2, L)
  {
    FreeOnlyThen(lo, hi, hi', m, m1, m2, L, L1);
    forall w | Guarded(lo, w) && w < hi && InFree(L2, w) ensures InFree(L, w) { assert InFree(L1, w); }
  }

  // ----- Index operations leave the layout alone -----

  /** Link words lie inside free blocks. */
  lemma LinksInFree(lo: int, hi: int, m: Memory, m': Memory, L: Layout, ix: Index)
    requires LinksOnly(lo, m, m', ix) && Indexed(L, ix)
    ensures FreeOnly(lo, hi, m, m', L)
  {
    forall w | Guarded(lo, w) && w < hi && !InFree(L, w) ensures Rd(m', w) == Rd(m, w) {
      forall a | a in ix.node ensures w < a + 16 || a + ix.node[a].size - 16 <= w {
        assert IsFree(L, a);
      }
      assert OutsideAll(ix, w);
    }
  }

  /** Link words are neither headers nor footers. */
  lemma LinksKeepBlocks(lo: int, hi: int, m: Memory, m': Memory, L: Layout, ix: Index)
    requires LinksOnly(lo, m, m', ix) && Indexed(L, ix) && Tiled(L, lo, hi) && BlocksRep(m, L)
    ensures BlocksRep(m', L)
  {
    forall a | a in L ensures BlockCell(m', L, a) {
      assert BlockCell(m, L, a) && BlockOk(L, lo, hi, a);
      forall w | w in {a, a + 8, End(L, a) - 16, End(L, a) - 8} ensures Rd(m', w) == Rd(m, w) {
        forall c | c in ix.node ensures w < c + 16 || c + ix.node[c].size - 16 <= w {
          assert c in L && BlockOk(L, lo, hi, c);
        }
        assert OutsideAll(ix, w);
      }
    }
  }

  /** An index operation that wrote link words only leaves a sound heap, and only free space changed. */
  lemma IndexChanged(b: Build, lo: int, hi: int, m: Memory, m': Memory, L: Layout, ix: Index, ix': Index)
    requires Tiled(L, lo, hi) && BlocksRep(m, L) && Indexed(L, ix)
    requires LinksOnly(lo, m, m', ix) && IndexOk(b, ix') && Rep(b, lo, m', ix')
    requires forall a | a in ix'.node :: a in ix.node
    ensures Sound(b, lo, hi, m', L, ix') && FreeOnly(lo, hi, m, m', L)
  {
    LinksInFree(lo, hi, m, m', L, ix);
    LinksKeepBlocks(lo, hi, m, m', L, ix);
    forall a | a in ix'.node ensures a in L && !L[a].used && L[a].size == ix'.node[a].size {
      assert a in ix.node;
      assert Cell(lo, m', ix', a) && BlockCell(m', L, a);
    }
  }

  // ----- heap_create_block -----

  function Created(m: Memory, a: int, size: int): Memory {
    m[a := HEAP_MAGIC][a + 8 := size][a + size - 8 := a][a + size - 16 := HEAP_MAGIC]
  }

  /** `heap_create_block` */
  method CreateBlock(ram: Ram, a: int, size: int)
    requires size % 16 == 0
    modifies ram
    ensures ram.m == Created(old(ram.m), a, size)
  {
    ram.m := ram.m[a := HEAP_MAGIC];
    ram.m := ram.m[a + 8 := size];
    var footer := a + SizeOf(Rd(ram.m, a + 8)) - 16;
    ram.m := ram.m[footer + 8 := a];
    ram.m := ram.m[footer := HEAP_MAGIC];
  }

  lemma CreatedCell(m: Memory, a: int, size: int)
    requires 32 <= size
    ensures var m' := Created(m, a, size);
            Rd(m', a) == HEAP_MAGIC && Rd(m', a + 8) == size && Rd(m', a + size - 16) == HEAP_MAGIC
              && Rd(m', a + size - 8) == a
  {
  }

  /** A change confined to one region that holds no indexed block keeps the index in memory. */
  lemma RepElsewhere(b: Build, lo: int, m: Memory, m': Memory, ix: Index, from: int, to: int)
    requires Rep(b, lo, m, ix) && lo <= from
    requires forall w {:trigger Rd(m', w)} | w < from || to <= w :: Rd(m', w) == Rd(m, w)
    requires forall a | a in ix.node :: a + ix.node[a].size <= from || to <= a
    ensures Rep(b, lo, m', ix)
  {
    forall a | a in ix.node ensures Cell(lo, m', ix, a) {
      assert Cell(lo, m, ix, a);
      assert a + ix.node[a].size <= from || to <= a;
    }
  }

  lemma CreatedWithin(m: Memory, a: int, size: int)
    requires 16 <= size
    ensures Within(m, Created(m, a, size), a, a + size)
  {
  }

  lemma CellElsewhere(m: Memory, m': Memory, L: Layout, M: Layout, c: int, from: int, to: int)
    requires Within(m, m', from, to) && c in L && c in M && M[c] == L[c] && BlockCell(m, L, c)
    requires GoodSize(L[c].size) && (End(L, c) <= from || to <= c)
    ensures BlockCell(m', M, c)
  {
  }

  /** M differs from L only inside the free, unindexed region [from, to) of whole blocks. */
  ghost predicate Retiled(L: Layout, M: Layout, ix: Index, from: int, to: int) {
    && (forall c | c in L :: End(L, c) <= from || to <= c || (from <= c && !L[c].used && c !in ix.node))
    && (forall c | c in M && !(from <= c < to) :: c in L && M[c] == L[c])
    && (forall c | c in L && !(from <= c < to) :: c in M && M[c] == L[c])
    && (forall w {:trigger InFree(L, w)} | from <= w < to :: InFree(L, w))
  }

  lemma SplitRetiled(L: Layout, lo: int, hi: int, ix: Index, a: int, offset: int)
    requires Tiled(L, lo, hi) && IsFree(L, a) && a !in ix.node && 0 < offset < L[a].size
    ensures Retiled(L, Split(L, a, offset), ix, a, End(L, a)) && a + offset !in L
  {
    assert BlockOk(L, lo, hi, a);
    forall w | a <= w < End(L, a) ensures InFree(L, w) {
      assert IsFree(L, a);
    }
  }

  lemma MergeRetiled(L: Layout, lo: int, hi: int, ix: Index, a: int)
    requires Tiled(L, lo, hi) && IsFree(L, a) && a !in ix.node && IsFree(L, End(L, a)) && End(L, a) !in ix.node
    ensures Retiled(L, Merge(L, a), ix, a, a + L[a].size + L[End(L, a)].size)
  {
    var e := End(L, a);
    assert BlockOk(L, lo, hi, a) && BlockOk(L, lo, hi, e);
    forall w | a <= w < a + L[a].size + L[e].size ensures InFree(L, w) {
      if w < e { assert IsFree(L, a); } else { assert IsFree(L, e); }
    }
  }

  /** A change inside the free, unindexed region [from, to) of whole blocks. */
  lemma RegionChanged(b: Build, lo: int, hi: int, m: Memory, m': Memory, L: Layout, M: Layout, ix: Index, from: int,
                      to: int)
    requires Sound(b, lo, hi, m, L, ix) && Within(m, m', from, to) && lo <= from
    requires Retiled(L, M, ix, from, to)
    requires forall c | c in M && from <= c < to :: BlockCell(m', M, c)
    ensures BlocksRep(m', M) && Indexed(M, ix) && Rep(b, lo, m', ix) && FreeOnly(lo, hi, m, m', L)
  {
    forall c | c in M ensures BlockCell(m', M, c) {
      if !(from <= c < to) {
        assert BlockCell(m, L, c) && BlockOk(L, lo, hi, c);
        CellElsewhere(m, m', L, M, c, from, to);
      }
    }
    forall a | a in ix.node
      ensures (a + ix.node[a].size <= from || to <= a) && a in M && M[a] == L[a]
    {
      assert a in L && BlockOk(L, lo, hi, a);
    }
    RepElsewhere(b, lo, m, m', ix, from, to);
  }

  /** The merged block is the only one in its range. */
  lemma MergedCell(m: Memory, L: Layout, lo: int, hi: int, a: int)
    requires Tiled(L, lo, hi) && IsFree(L, a) && IsFree(L, End(L, a))
    ensures var size := L[a].size + L[End(L, a)].size;
            forall c | c in Merge(L, a) && a <= c < a + size :: BlockCell(Created(m, a, size), Merge(L, a), c)
  {
    var size, M := L[a].size + L[End(L, a)].size, Merge(L, a);
    assert BlockOk(L, lo, hi, a) && BlockOk(L, lo, hi, End(L, a));
    CreatedCell(m, a, size);
    forall c | c in M && a < c ensures a + size <= c {
      assert c in L && BlockOk(L, lo, hi, c);
    }
  }

  lemma Merged(b: Build, lo: int, hi: int, m: Memory, L: Layout, ix: Index, a: int)
    requires Sound(b, lo, hi, m, L, ix) && IsFree(L, a) && a !in ix.node
    requires IsFree(L, End(L, a)) && End(L, a) !in ix.node
    ensures var m' := Created(m, a, L[a].size + L[End(L, a)].size);
            Sound(b, lo, hi, m', Merge(L, a), ix) && FreeOnly(lo, hi, m, m', L)
  {
    var size := L[a].size + L[End(L, a)].size;
    assert BlockOk(L, lo, hi, a) && BlockOk(L, lo, hi, End(L, a));
    CreatedWithin(m, a, size);
    MergedCell(m, L, lo, hi, a);
    MergedInto(b, lo, hi, m, Created(m, a, size), L, ix, a, size);
  }

  lemma MergedInto(b: Build, lo: int, hi: int, m: Memory, m': Memory, L: Layout, ix: Index, a: int, size: int)
    requires Sound(b, lo, hi, m, L, ix) && IsFree(L, a) && a !in ix.node
    requires IsFree(L, End(L, a)) && End(L, a) !in ix.node && size == L[a].size + L[End(L, a)].size
    requires Within(m, m', a, a + size)
    requires forall c | c in Merge(L, a) && a <= c < a + size :: BlockCell(m', Merge(L, a), c)
    ensures Sound(b, lo, hi, m', Merge(L, a), ix) && FreeOnly(lo, hi, m, m', L)
  {
    assert BlockOk(L, lo, hi, a);
    MergeTiled(L, lo, hi, a);
    MergeRetiled(L, lo, hi, ix, a);
    RegionChanged(b, lo, hi, m, m', L, Merge(L, a), ix, a, a + size);
  }

  lemma MergeSpace(L: Layout, lo: int, hi: int, a: int)
    requires IsFree(L, a) && IsFree(L, End(L, a)) && 0 < L[a].size
    ensures NoMoreFree(lo, hi, L, Merge(L, a)) && Used(Merge(L, a)) == Used(L)
  {
    var e, M := End(L, a), Merge(L, a);
    forall w | Guarded(lo, w) && w < hi && InFree(M, w) ensures InFree(L, w) {
      var c :| IsFree(M, c) && c <= w < c + M[c].size;
      if c == a {
        assert IsFree(L, a) && IsFree(L, e);
        assert w < e ==> a <= w < a + L[a].size;
        assert e <= w ==> e <= w < e + L[e].size;
      } else {
        assert IsFree(L, c);
      }
    }
  }

  /** The memory after `heap_split_block`: the right part is written first. */
  function CutAt(m: Memory, a: int, size: int, offset: int): Memory {
    Created(Created(m, a + offset, size - offset), a, offset)
  }

  lemma CutCells(m: Memory, a: int, size: int, offset: int)
    requires 32 <= offset && 32 <= size - offset
    ensures var m', x, rest := CutAt(m, a, size, offset), a + offset, size - offset;
            && Rd(m', x) == HEAP_MAGIC && Rd(m', x + 8) == rest && Rd(m', x + rest - 16) == HEAP_MAGIC
            && Rd(m', x + rest - 8) == x
            && Rd(m', a) == HEAP_MAGIC && Rd(m', a + 8) == offset && Rd(m', x - 16) == HEAP_MAGIC && Rd(m', x - 8) == a
            && Within(m, m', a, a + size)
  {
    var x, rest := a + offset, size - offset;
    var m1 := Created(m, x, rest);
    CreatedCell(m, x, rest);
    CreatedCell(m1, a, offset);
    CreatedWithin(m, x, rest);
    CreatedWithin(m1, a, offset);
    forall w | w < a || x <= w ensures Rd(CutAt(m, a, size, offset), w) == Rd(m1, w) {}
    forall w | w < a || a + size <= w ensures Rd(CutAt(m, a, size, offset), w) == Rd(m, w) {
      assert Rd(m1, w) == Rd(m, w);
    }
  }

  /** Both parts of a cut block are whole blocks in memory. */
  lemma CutBlocks(m: Memory, L: Layout, lo: int, hi: int, a: int, offset: int)
    requires Tiled(L, lo, hi) && IsFree(L, a) && GoodSize(offset) && GoodSize(L[a].size - offset)
    ensures var M, m' := Split(L, a, offset), CutAt(m, a, L[a].size, offset);
            && Within(m, m', a, End(L, a))
            && forall c | c in M && a <= c < End(L, a) :: BlockCell(m', M, c)
  {
    var M := Split(L, a, offset);
    assert BlockOk(L, lo, hi, a);
    CutCells(m, a, L[a].size, offset);
    forall c | c in M && a <= c < End(L, a) ensures c == a || c == a + offset {
      if c in L { assert BlockOk(L, lo, hi, c); }
    }
  }

  lemma Cut(b: Build, lo: int, hi: int, m: Memory, L: Layout, ix: Index, a: int, offset: int)
    requires Sound(b, lo, hi, m, L, ix) && IsFree(L, a) && a !in ix.node
    requires GoodSize(offset) && GoodSize(L[a].size - offset)
    ensures var m' := CutAt(m, a, L[a].size, offset);
            Sound(b, lo, hi, m', Split(L, a, offset), ix) && FreeOnly(lo, hi, m, m', L)
    ensures a + offset !in L
  {
    var M := Split(L, a, offset);
    var m' := CutAt(m, a, L[a].size, offset);
    assert BlockOk(L, lo, hi, a);
    SplitTiled(L, lo, hi, a, offset);
    CutBlocks(m, L, lo, hi, a, offset);
    SplitRetiled(L, lo, hi, ix, a, offset);
    RegionChanged(b, lo, hi, m, m', L, M, ix, a, End(L, a));
  }

  /** Two blocks side by side may be created in either order. */
  lemma CreatedCommute(m: Memory, a: int, size: int, offset: int)
    requires 32 <= offset && 32 <= size - offset
    ensures Created(Created(m, a, offset), a + offset, size - offset) == CutAt(m, a, size, offset)
  {
  }

  /** The same cut as `heap_alloc` makes it: the left part is written first. */
  lemma CutOther(b: Build, lo: int, hi: int, m: Memory, L: Layout, ix: Index, a: int, offset: int)
    requires Sound(b, lo, hi, m, L, ix) && IsFree(L, a) && a !in ix.node
    requires GoodSize(offset) && GoodSize(L[a].size - offset)
    ensures var m' := Created(Created(m, a, offset), a + offset, L[a].size - offset);
            Sound(b, lo, hi, m', Split(L, a, offset), ix) && FreeOnly(lo, hi, m, m', L)
    ensures a + offset !in L && a + offset !in ix.node
  {
    Cut(b, lo, hi, m, L, ix, a, offset);
    CreatedCommute(m, a, L[a].size, offset);
  }

  lemma SplitSpace(L: Layout, lo: int, hi: int, a: int, offset: int)
    requires IsFree(L, a) && 0 < offset < L[a].size && a + offset !in L
    ensures NoMoreFree(lo, hi, L, Split(L, a, offset)) && Used(Split(L, a, offset)) == Used(L)
  {
    var M := Split(L, a, offset);
    forall w | Guarded(lo, w) && w < hi && InFree(M, w) ensures InFree(L, w) {
      var c :| IsFree(M, c) && c <= w < c + M[c].size;
      if c == a || c == a + offset {
        assert IsFree(L, a) && a <= w < a + L[a].size;
      } else {
        assert IsFree(L, c);
      }
    }
  }

  lemma MarkedCells(lo: int, hi: int, m: Memory, L: Layout, a: int, used: bool)
    requires Tiled(L, lo, hi) && BlocksRep(m, L) && a in L
    ensures BlocksRep(m[a + 8 := SizeWord(L[a].size, used)], Mark(L, a, used))
  {
    var m', M := m[a + 8 := SizeWord(L[a].size, used)], Mark(L, a, used);
    assert BlockOk(L, lo, hi, a) && BlockCell(m, L, a);
    forall c | c in M ensures BlockCell(m', M, c) {
      assert BlockCell(m, L, c) && BlockOk(L, lo, hi, c);
      if c != a { CellElsewhere(m, m', L, M, c, a, a + 16); }
    }
  }

  /** HEAP_SET_USED on an unindexed block. */
  lemma Marked(b: Build, lo: int, hi: int, m: Memory, m': Memory, L: Layout, ix: Index, a: int, used: bool)
    requires Sound(b, lo, hi, m, L, ix) && a in L && a !in ix.node
    requires m' == m[a + 8 := SizeWord(L[a].size, used)]
    ensures Sound(b, lo, hi, m', Mark(L, a, used), ix)
  {
    MarkTiled(L, lo, hi, a, used);
    assert BlockOk(L, lo, hi, a);
    MarkedCells(lo, hi, m, L, a, used);
    forall c | c in ix.node ensures c + ix.node[c].size <= a || a + 16 <= c {
      assert c in L;
    }
    RepElsewhere(b, lo, m, m', ix, a, a + 16);
  }

  lemma Extended(b: Build, lo: int, hi: int, m: Memory, L: Layout, ix: Index, n: int)
    requires Sound(b, lo, hi, m, L, ix) && GoodSize(n) && hi % 16 == 0
    ensures var m' := Created(m, hi, n);
            Sound(b, lo, hi + n, m', Extend(L, hi, n), ix) && FreeOnly(lo, hi, m, m', L)
    ensures hi !in L
  {
    var M, m' := Extend(L, hi, n), Created(m, hi, n);
    ExtendTiled(L, lo, hi, n);
    CreatedWithin(m, hi, n);
    CreatedCell(m, hi, n);
    forall c | c in M ensures BlockCell(m', M, c) {
      if c != hi {
        assert BlockCell(m, L, c) && BlockOk(L, lo, hi, c);
        CellElsewhere(m, m', L, M, c, hi, hi + n);
      }
    }
    forall a | a in ix.node ensures a + ix.node[a].size <= hi {
      assert a in L && BlockOk(L, lo, hi, a);
    }
    assert BlockOk(L, lo, hi, lo);
    RepElsewhere(b, lo, m, m', ix, hi, hi + n);
  }

  /** The heap `heap_create` sets up before it indexes the first block. */
  lemma FirstBlock(b: Build, lo: int, size: int, m: Memory)
    requires Rep(b, lo, m, EmptyIndex(b)) && GoodSize(size) && 0 < lo
    ensures Sound(b, lo, lo + size, Created(m, lo, size), map[lo := Blk(size, false)], EmptyIndex(b))
  {
    var L, m' := map[lo := Blk(size, false)], Created(m, lo, size);
    CreatedWithin(m, lo, size);
    CreatedCell(m, lo, size);
    assert BlockCell(m', L, lo) && BlockOk(L, lo, lo + size, lo);
    RepElsewhere(b, lo, m, m', EmptyIndex(b), lo, lo + size);
  }

  lemma ExtendSpace(L: Layout, lo: int, hi: int, n: int)
    requires hi !in L
    ensures NoMoreFree(lo, hi, L, Extend(L, hi, n))
  {
    var M := Extend(L, hi, n);
    forall w | Guarded(lo, w) && w < hi && InFree(M, w) ensures InFree(L, w) {
      var c :| IsFree(M, c) && c <= w < c + M[c].size;
      assert IsFree(L, c);
    }
  }

  /** A write to the payload of a used block keeps the invariant. */
  lemma PayloadWritten(b: Build, lo: int, hi: int, m: Memory, L: Layout, ix: Index, a: int, w: int, v: int)
    requires Sound(b, lo, hi, m, L, ix) && a in L && L[a].used && a + 16 <= w < End(L, a) - 16
    ensures Sound(b, lo, hi, m[w := v], L, ix)
  {
    var m' := m[w := v];
    assert BlockOk(L, lo, hi, a);
    forall c | c in L ensures BlockCell(m', L, c) {
      assert BlockCell(m, L, c) && BlockOk(L, lo, hi, c);
      if c != a { CellElsewhere(m, m', L, L, c, w, w + 1); }
    }
    forall c | c in ix.node ensures c + ix.node[c].size <= w || w + 1 <= c {
      assert c in L;
    }
    RepElsewhere(b, lo, m, m', ix, w, w + 1);
  }

  /** What is written below the heap structure does not concern the heap. */
  lemma LowWritten(b: Build, lo: int, hi: int, m: Memory, m': Memory, L: Layout, ix: Index, n: int)
    requires Sound(b, lo, hi, m, L, ix) && Within(m, m', 0, n) && n <= Slot(b, lo, 0)
    ensures Sound(b, lo, hi, m', L, ix)
  {
    forall c | c in L ensures BlockCell(m', L, c) {
      assert BlockCell(m, L, c) && BlockOk(L, lo, hi, c);
      CellElsewhere(m, m', L, L, c, 0, n);
    }
    LowRep(b, lo, m, m', ix, n);
  }

  lemma LowRep(b: Build, lo: int, m: Memory, m': Memory, ix: Index, n: int)
    requires Rep(b, lo, m, ix) && Within(m, m', 0, n) && n <= Slot(b, lo, 0)
    ensures Rep(b, lo, m', ix)
  {
    forall a | a in ix.node ensures Cell(lo, m', ix, a) { assert Cell(lo, m, ix, a); }
    forall i | 0 <= i <= ListCount(b) ensures Rd(m', Slot(b, lo, i)) == ix.slot[i] {
      assert Rd(m, Slot(b, lo, i)) == ix.slot[i];
    }
  }
}
