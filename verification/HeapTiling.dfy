/**
 The physical layout of a heap: blocks that tile the range from the first block to `end_addr`, and the
 fact that a fully coalesced layout is determined by its used blocks alone.
 */
module HeapTiling {
  import opened HeapFormat

  datatype Blk = Blk(size: int, used: bool)

  /** Blocks by address. */
  type Layout = map<int, Blk>

  function End(L: Layout, a: int): int
    requires a in L
  {
    a + L[a].size
  }

  predicate IsFree(L: Layout, a: int) {
    a in L && !L[a].used
  }

  predicate BlockOk(L: Layout, lo: int, hi: int, a: int)
    requires a in L
  {
    lo <= a && a % 16 == 0 && GoodSize(L[a].size) && End(L, a) <= hi && (End(L, a) == hi || End(L, a) in L)
  }

  ghost predicate Disjoint(L: Layout) {
    forall a, c | a in L && c in L && a < c :: a + L[a].size <= c
  }

  /** The blocks cover [lo, hi) without gap or overlap. */
  ghost predicate Tiled(L: Layout, lo: int, hi: int) {
    && lo in L
    && (forall a {:trigger BlockOk(L, lo, hi, a)} | a in L :: BlockOk(L, lo, hi, a))
    && Disjoint(L)
  }

  lemma BlockBounds(L: Layout, lo: int, hi: int, a: int)
    requires Tiled(L, lo, hi) && a in L
    ensures lo <= a && a + L[a].size <= hi
  {
    assert BlockOk(L, lo, hi, a);
  }

  /** No free block is followed by a free block. */
  predicate CoalescedAt(L: Layout, a: int)
    requires a in L
  {
    !L[a].used && End(L, a) in L ==> L[End(L, a)].used
  }

  ghost predicate Coalesced(L: Layout) {
    forall a {:trigger CoalescedAt(L, a)} | a in L :: CoalescedAt(L, a)
  }

  /** The used blocks and their sizes: all that callers of the heap can see. */
  function Used(L: Layout): map<int, int> {
    map a | a in L && L[a].used :: L[a].size
  }

  /** The free blocks and their sizes. */
  function Free(L: Layout): map<int, int> {
    map a | a in L && !L[a].used :: L[a].size
  }

  /** No free block holds bsize bytes. */
  ghost predicate NoFreeFit(L: Layout, bsize: int) {
    forall a | IsFree(L, a) :: L[a].size < bsize
  }

  /** a is a free block of at least bsize bytes, and no such block is smaller. */
  ghost predicate BestFreeFit(L: Layout, a: int, bsize: int) {
    IsFree(L, a) && bsize <= L[a].size && forall c | IsFree(L, c) && bsize <= L[c].size :: L[a].size <= L[c].size
  }

  /** The block that contains w: every address of the range lies in a block, and only one by disjointness. */
  lemma {:induction false} Covering(L: Layout, lo: int, hi: int, from: int, w: int) returns (a: int)
    requires Tiled(L, lo, hi) && from in L && from <= w < hi
    ensures a in L && a <= w < End(L, a)
    decreases hi - from
  {
    assert BlockOk(L, lo, hi, from);
    if w < End(L, from) {
      a := from;
    } else {
      assert BlockOk(L, lo, hi, End(L, from));
      a := Covering(L, lo, hi, End(L, from), w);
    }
  }

  /** A block other than the first has a left neighbour. */
  lemma LeftNeighbour(L: Layout, lo: int, hi: int, a: int) returns (l: int)
    requires Tiled(L, lo, hi) && a in L && lo < a
    ensures l in L && End(L, l) == a
  {
    assert BlockOk(L, lo, hi, a);
    l := Covering(L, lo, hi, lo, a - 1);
    assert BlockOk(L, lo, hi, l);
  }

  lemma EndNotBlock(L: Layout, lo: int, hi: int)
    requires Tiled(L, lo, hi)
    ensures hi !in L
  {
    assert hi in L ==> BlockOk(L, lo, hi, hi);
  }

  lemma OneLeftNeighbour(L: Layout, lo: int, hi: int, k: int, l: int)
    requires Tiled(L, lo, hi) && k in L && l in L && End(L, k) == End(L, l)
    ensures k == l
  {
    assert BlockOk(L, lo, hi, k) && BlockOk(L, lo, hi, l);
  }

  /** A block of one coalesced layout is a block of any other with the same used blocks. */
  lemma {:induction false} SameBlock(L: Layout, M: Layout, lo: int, hi: int, a: int)
    requires Tiled(L, lo, hi) && Coalesced(L) && Tiled(M, lo, hi) && Coalesced(M)
    requires Used(L) == Used(M)
    requires a in L
    ensures a in M && M[a] == L[a]
    decreases a - lo
  {
    assert BlockOk(L, lo, hi, a);
    if a != lo {
      var l := LeftNeighbour(L, lo, hi, a);
      assert BlockOk(L, lo, hi, l);
      SameBlock(L, M, lo, hi, l);
      assert BlockOk(M, lo, hi, l);
    }
    assert BlockOk(M, lo, hi, a);
    if L[a].used {
      assert a in Used(L);
    } else {
      assert a !in Used(M);
      SameFreeEnd(L, M, lo, hi, a);
      SameFreeEnd(M, L, lo, hi, a);
    }
  }

  lemma SameFreeEnd(L: Layout, M: Layout, lo: int, hi: int, a: int)
    requires Tiled(L, lo, hi) && Coalesced(L) && Tiled(M, lo, hi)
    requires Used(L) == Used(M)
    requires IsFree(L, a) && IsFree(M, a)
    ensures M[a].size <= L[a].size
  {
    assert BlockOk(L, lo, hi, a) && BlockOk(M, lo, hi, a) && CoalescedAt(L, a);
    var e := End(L, a);
    if e != hi {
      assert e in Used(L);
      assert e in M;
    }
  }

  /** A coalesced layout is determined by its range and its used blocks. */
  lemma LayoutUnique(L: Layout, M: Layout, lo: int, hi: int)
    requires Tiled(L, lo, hi) && Coalesced(L) && Tiled(M, lo, hi) && Coalesced(M)
    requires Used(L) == Used(M)
    ensures L == M
  {
    forall a | a in L ensures a in M && M[a] == L[a] { SameBlock(L, M, lo, hi, a); }
    forall a | a in M ensures a in L && L[a] == M[a] { SameBlock(M, L, lo, hi, a); }
  }

  /** With nothing in use, the whole range is one free block. */
  lemma AllFree(L: Layout, lo: int, hi: int)
    requires Tiled(L, lo, hi) && Coalesced(L) && Used(L) == map[]
    ensures L == map[lo := Blk(hi - lo, false)]
  {
    assert BlockOk(L, lo, hi, lo) && CoalescedAt(L, lo);
    forall a | a in L ensures !L[a].used { assert L[a].used ==> a in Used(L); }
    forall a | a in L ensures a == lo { assert BlockOk(L, lo, hi, a); }
  }

  // ----- Changes of the layout -----

  function Mark(L: Layout, a: int, used: bool): Layout
    requires a in L
  {
    L[a := Blk(L[a].size, used)]
  }

  /** a and its right neighbour become one free block. */
  function Merge(L: Layout, a: int): Layout
    requires a in L && End(L, a) in L
  {
    (L - {End(L, a)})[a := Blk(L[a].size + L[End(L, a)].size, false)]
  }

  /** The free block a is cut at the given offset. */
  function Split(L: Layout, a: int, offset: int): Layout
    requires a in L
  {
    L[a + offset := Blk(L[a].size - offset, false)][a := Blk(offset, false)]
  }

  /** A free block of n bytes beyond the end. */
  function Extend(L: Layout, hi: int, n: int): Layout {
    L[hi := Blk(n, false)]
  }

  lemma MarkTiled(L: Layout, lo: int, hi: int, a: int, used: bool)
    requires Tiled(L, lo, hi) && a in L
    ensures Tiled(Mark(L, a, used), lo, hi)
  {
    var M := Mark(L, a, used);
    forall c | c in M ensures BlockOk(M, lo, hi, c) { assert BlockOk(L, lo, hi, c); }
  }

  lemma MergeTiled(L: Layout, lo: int, hi: int, a: int)
    requires Tiled(L, lo, hi) && a in L && End(L, a) in L
    ensures Tiled(Merge(L, a), lo, hi)
  {
    var M, e := Merge(L, a), End(L, a);
    assert BlockOk(L, lo, hi, a) && BlockOk(L, lo, hi, e);
    Sixteenths(L[a].size, L[e].size);
    forall c | c in M ensures BlockOk(M, lo, hi, c) {
      assert BlockOk(L, lo, hi, c);
    }
    MergeDisjoint(L, lo, hi, a);
  }

  lemma MergeDisjoint(L: Layout, lo: int, hi: int, a: int)
    requires Tiled(L, lo, hi) && a in L && End(L, a) in L
    ensures Disjoint(Merge(L, a))
  {
    var M, e := Merge(L, a), End(L, a);
    forall c, d | c in M && d in M && c < d ensures c + M[c].size <= d {
      PositiveSize(L, lo, hi, a);
      PositiveSize(L, lo, hi, d);
    }
  }

  lemma PositiveSize(L: Layout, lo: int, hi: int, a: int)
    requires Tiled(L, lo, hi) && a in L
    ensures 0 < L[a].size
  {
    assert BlockOk(L, lo, hi, a);
  }

  lemma SplitTiled(L: Layout, lo: int, hi: int, a: int, offset: int)
    requires Tiled(L, lo, hi) && a in L && GoodSize(offset) && GoodSize(L[a].size - offset)
    ensures Tiled(Split(L, a, offset), lo, hi)
  {
    var M := Split(L, a, offset);
    assert BlockOk(L, lo, hi, a);
    forall c | c in M ensures BlockOk(M, lo, hi, c) {
      if c != a + offset { assert BlockOk(L, lo, hi, c); }
    }
    forall c, d | c in M && d in M && c < d ensures c + M[c].size <= d {
    }
  }

  lemma ExtendDisjoint(L: Layout, lo: int, hi: int, n: int)
    requires Tiled(L, lo, hi)
    ensures Disjoint(Extend(L, hi, n))
  {
    var M := Extend(L, hi, n);
    forall c, d | c in M && d in M && c < d ensures c + M[c].size <= d {
      if c != hi { assert BlockOk(L, lo, hi, c); }
      if d != hi { assert BlockOk(L, lo, hi, d); }
    }
  }

  lemma ExtendTiled(L: Layout, lo: int, hi: int, n: int)
    requires Tiled(L, lo, hi) && GoodSize(n) && hi % 16 == 0
    ensures Tiled(Extend(L, hi, n), lo, hi + n) && hi !in L
  {
    var M := Extend(L, hi, n);
    EndNotBlock(L, lo, hi);
    ExtendDisjoint(L, lo, hi, n);
    assert BlockOk(L, lo, hi, lo);
    forall c | c in M ensures BlockOk(M, lo, hi + n, c) {
      if c != hi { assert BlockOk(L, lo, hi, c); }
    }
  }

  lemma UsedMarked(L: Layout, a: int)
    requires a in L
    ensures Used(Mark(L, a, true)) == Used(L)[a := L[a].size]
    ensures Used(Mark(L, a, false)) == Used(L) - {a}
  {
  }

  // ----- Coalescing -----

  /** Every pair of neighbours that does not involve a is coalesced. */
  ghost predicate CoalescedAwayFrom(L: Layout, a: int) {
    forall c {:trigger CoalescedAt(L, c)} | c in L && c != a && End(L, c) != a :: CoalescedAt(L, c)
  }

  ghost predicate LeftSettled(L: Layout, a: int) {
    forall l | IsFree(L, l) :: End(L, l) != a
  }

  ghost predicate RightSettled(L: Layout, a: int)
    requires a in L
  {
    !IsFree(L, End(L, a))
  }

  lemma Settled(L: Layout, a: int)
    requires a in L && CoalescedAwayFrom(L, a) && LeftSettled(L, a) && RightSettled(L, a)
    ensures Coalesced(L)
  {
    forall c | c in L ensures CoalescedAt(L, c) {
      assert IsFree(L, c) ==> End(L, c) != a;
    }
  }

  lemma UsedSettles(L: Layout, a: int)
    requires a in L && CoalescedAwayFrom(L, a)
    ensures Coalesced(Mark(L, a, true))
  {
    var M := Mark(L, a, true);
    forall c | c in M ensures CoalescedAt(M, c) {
      assert c != a && End(L, c) != a ==> CoalescedAt(L, c);
    }
  }

  /** Cutting a free block whose right neighbour is not free disturbs only the pairs of the cut's two sides. */
  lemma SplitAwayFrom(L: Layout, lo: int, hi: int, a: int, offset: int)
    requires Tiled(L, lo, hi) && IsFree(L, a) && 0 < offset < L[a].size && a + offset !in L
    requires CoalescedAwayFrom(L, a) && RightSettled(L, a)
    ensures var M := Split(L, a, offset);
            && (CoalescedAt(M, a + offset) && CoalescedAwayFrom(M, a))
            && (LeftSettled(L, a) ==> CoalescedAwayFrom(M, a + offset) && RightSettled(M, a + offset))
  {
    var M := Split(L, a, offset);
    assert BlockOk(L, lo, hi, a);
    forall c | c in M && c != a && End(M, c) != a ensures CoalescedAt(M, c) {
      if c != a + offset { assert CoalescedAt(L, c) && BlockOk(L, lo, hi, c); }
    }
    if LeftSettled(L, a) {
      forall c | c in M && c != a + offset && End(M, c) != a + offset ensures CoalescedAt(M, c) {
        if c != a {
          assert BlockOk(L, lo, hi, c);
          assert IsFree(L, c) ==> End(L, c) != a;
          assert End(L, c) != a ==> CoalescedAt(L, c);
        }
      }
    }
  }

  lemma CoalescedSettled(L: Layout, a: int)
    requires Coalesced(L) && IsFree(L, a)
    ensures CoalescedAwayFrom(L, a) && LeftSettled(L, a) && RightSettled(L, a)
  {
    assert CoalescedAt(L, a);
    forall l | IsFree(L, l) ensures End(L, l) != a { assert CoalescedAt(L, l); }
  }

  lemma ReleasedAwayFrom(L: Layout, a: int)
    requires Coalesced(L) && a in L
    ensures CoalescedAwayFrom(Mark(L, a, false), a)
  {
    var M := Mark(L, a, false);
    forall c | c in M && c != a && End(M, c) != a ensures CoalescedAt(M, c) { assert CoalescedAt(L, c); }
  }

  lemma MergeLeftSettles(L: Layout, lo: int, hi: int, l: int)
    requires Tiled(L, lo, hi) && IsFree(L, l) && End(L, l) in L && CoalescedAwayFrom(L, End(L, l))
    ensures CoalescedAwayFrom(Merge(L, l), l) && LeftSettled(Merge(L, l), l)
  {
    var a, M := End(L, l), Merge(L, l);
    assert BlockOk(L, lo, hi, l) && BlockOk(L, lo, hi, a);
    forall c | c in M && c != l && End(M, c) != l ensures CoalescedAt(M, c) {
      assert BlockOk(L, lo, hi, c);
      if End(L, c) == a { OneLeftNeighbour(L, lo, hi, c, l); }
      assert CoalescedAt(L, c);
    }
    forall k | IsFree(M, k) ensures End(M, k) != l {
      if k != l {
        assert BlockOk(L, lo, hi, k);
        assert k != a && End(L, k) != a ==> CoalescedAt(L, k);
      }
    }
  }

  lemma MergeRightSettles(L: Layout, lo: int, hi: int, a: int)
    requires Tiled(L, lo, hi) && IsFree(L, a) && IsFree(L, End(L, a))
    requires CoalescedAwayFrom(L, a) && LeftSettled(L, a)
    ensures CoalescedAwayFrom(Merge(L, a), a) && LeftSettled(Merge(L, a), a) && RightSettled(Merge(L, a), a)
  {
    var e, M := End(L, a), Merge(L, a);
    assert BlockOk(L, lo, hi, a) && BlockOk(L, lo, hi, e);
    assert CoalescedAt(L, e);
    forall c | c in M && c != a && End(M, c) != a ensures CoalescedAt(M, c) {
      if End(L, c) == e { OneLeftNeighbour(L, lo, hi, c, a); }
      assert CoalescedAt(L, c);
    }
    forall k | IsFree(M, k) ensures End(M, k) != a {
      if k != a { assert IsFree(L, k); }
    }
  }

  ghost predicate FreeLeftOf(L: Layout, l: int, a: int) {
    IsFree(L, l) && End(L, l) == a
  }

  /** Size of the free left neighbour, or 0. */
  ghost function LeftFreeSize(L: Layout, a: int): int {
    if exists l :: FreeLeftOf(L, l, a) then
      var l :| FreeLeftOf(L, l, a);
      L[l].size
    else 0
  }

  lemma LeftFreeNonNegative(L: Layout, lo: int, hi: int, a: int)
    requires Tiled(L, lo, hi)
    ensures 0 <= LeftFreeSize(L, a)
  {
    forall l | FreeLeftOf(L, l, a) ensures 0 <= L[l].size { assert BlockOk(L, lo, hi, l); }
  }

  /** Size of the block that a becomes part of when it is freed. */
  ghost function FreedSize(L: Layout, a: int): int
    requires a in L
  {
    LeftFreeSize(L, a) + L[a].size + if IsFree(L, End(L, a)) then L[End(L, a)].size else 0
  }

  lemma FreedSizeMarked(L: Layout, lo: int, hi: int, a: int)
    requires Tiled(L, lo, hi) && a in L
    ensures FreedSize(Mark(L, a, false), a) == FreedSize(L, a)
  {
    var M := Mark(L, a, false);
    assert BlockOk(L, lo, hi, a);
    forall l ensures FreeLeftOf(L, l, a) <==> FreeLeftOf(M, l, a) {
      if l == a { assert End(L, a) != a; }
    }
    forall k, l | FreeLeftOf(L, k, a) && FreeLeftOf(L, l, a) ensures k == l { OneLeftNeighbour(L, lo, hi, k, l); }
  }

  lemma ExtendAwayFrom(L: Layout, lo: int, hi: int, n: int)
    requires Tiled(L, lo, hi) && Coalesced(L) && hi !in L && 0 < n
    ensures var M := Extend(L, hi, n);
            && CoalescedAwayFrom(M, hi) && Used(M) == Used(L)
            && (forall l :: FreeLeftOf(M, l, hi) <==> FreeLeftOf(L, l, hi))
            && LeftFreeSize(M, hi) == LeftFreeSize(L, hi)
  {
    var M := Extend(L, hi, n);
    forall c | c in M && c != hi && End(M, c) != hi ensures CoalescedAt(M, c) { assert CoalescedAt(L, c); }
    forall l ensures FreeLeftOf(M, l, hi) <==> FreeLeftOf(L, l, hi) {}
    forall k, l | FreeLeftOf(L, k, hi) && FreeLeftOf(L, l, hi) ensures k == l { OneLeftNeighbour(L, lo, hi, k, l); }
  }
}
