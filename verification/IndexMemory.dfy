/** How the index lies in memory: link words inside the free blocks, the `free` array below the first block. */
module IndexMemory {
  import opened Machine
  import opened HeapFormat
  import opened HeapIndex

  function NodeAt(m: Memory, a: int): Node {
    Node(Rd(m, a + 8), Rd(m, a + 16), Rd(m, a + 24), Rd(m, a + 32), Rd(m, a + 40))
  }

  function Offset(f: Link): int {
    match f
    case PrevLink => 16
    case NextLink => 24
    case ChildLink => 32
    case ParentLink => 40
  }

  ghost predicate Cell(lo: int, m: Memory, ix: Index, a: int)
    requires a in ix.node
  {
    lo <= a && a % 16 == 0 && GoodSize(ix.node[a].size) && NodeAt(m, a) == ix.node[a]
  }

  /** Blocks do not overlap. */
  ghost predicate Spaced(node: map<int, Node>) {
    forall a, c | a in node && c in node && a < c :: a + node[a].size <= c
  }

  ghost predicate Rep(b: Build, lo: int, m: Memory, ix: Index) {
    && lo % 16 == 0 && Slot(b, lo, 0) > 0 && |ix.slot| == ListCount(b) + 1
    && Spaced(ix.node)
    && (forall a {:trigger Cell(lo, m, ix, a)} | a in ix.node :: Cell(lo, m, ix, a))
    && (forall i {:trigger ix.slot[i]} | 0 <= i <= ListCount(b) :: Rd(m, Slot(b, lo, i)) == ix.slot[i])
  }

  ghost predicate OutsideAll(ix: Index, w: int) {
    forall a | a in ix.node :: w < a + 16 || a + ix.node[a].size - 16 <= w
  }

  /** Apart from `free[]`, the two memories differ only between the headers and the footers of the indexed blocks. */
  ghost predicate LinksOnly(lo: int, m: Memory, m': Memory, ix: Index) {
    forall w {:trigger Rd(m', w)} | Guarded(lo, w) && OutsideAll(ix, w) :: Rd(m', w) == Rd(m, w)
  }

  /** A memory and the index it held at that time. */
  datatype Origin = Origin(m: Memory, ix: Index)

  /** m holds ix, and nothing but links of the blocks indexed at the origin has changed since. */
  ghost predicate Holds(b: Build, lo: int, m: Memory, ix: Index, o: Origin) {
    Rep(b, lo, m, ix) && LinksOnly(lo, o.m, m, o.ix)
  }

  /** x is one of the blocks of ix, large enough for its link word f to lie before its footer. */
  ghost predicate Inside(ix: Index, x: int, f: Link) {
    x in ix.node && Offset(f) <= ix.node[x].size - 24
  }

  lemma LinkInRep(b: Build, lo: int, m: Memory, ix: Index, x: int, f: Link, v: int)
    requires Rep(b, lo, m, ix) && x in ix.node
    ensures Rep(b, lo, m[x + Offset(f) := v], SetLink(ix, x, f, v))
  {
    var m', ix' := m[x + Offset(f) := v], SetLink(ix, x, f, v);
    assert Cell(lo, m, ix, x);
    forall a | a in ix'.node ensures Cell(lo, m', ix', a) {
      assert Cell(lo, m, ix, a);
    }
  }

  lemma LinkWritten(b: Build, lo: int, m: Memory, m': Memory, ix: Index, x: int, f: Link, v: int, o: Origin)
    requires Holds(b, lo, m, ix, o) && x in ix.node && Inside(o.ix, x, f)
    requires m' == m[x + Offset(f) := v]
    ensures Holds(b, lo, m', SetLink(ix, x, f, v), o)
  {
    LinkInRep(b, lo, m, ix, x, f, v);
    forall w | Guarded(lo, w) && OutsideAll(o.ix, w) ensures Rd(m', w) == Rd(o.m, w) {
      assert w < x + 16 || x + o.ix.node[x].size - 16 <= w;
      assert Rd(m, w) == Rd(o.m, w);
    }
  }

  /** `block->f = v` */
  method WriteLink(b: Build, ram: Ram, lo: int, x: int, f: Link, v: int, ghost ix: Index, ghost o: Origin)
    returns (ghost ix': Index)
    requires Holds(b, lo, ram.m, ix, o) && x in ix.node && Inside(o.ix, x, f)
    modifies ram
    ensures ix' == SetLink(ix, x, f, v)
    ensures Holds(b, lo, ram.m, ix', o)
  {
    LinkWritten(b, lo, ram.m, ram.m[x + Offset(f) := v], ix, x, f, v, o);
    ram.m := ram.m[x + Offset(f) := v];
    ix' := SetLink(ix, x, f, v);
  }

  /** `heap->free[i] = v` */
  method WriteSlot(b: Build, ram: Ram, lo: int, i: int, v: int, ghost ix: Index, ghost o: Origin)
    returns (ghost ix': Index)
    requires Holds(b, lo, ram.m, ix, o) && 0 <= i <= ListCount(b)
    modifies ram
    ensures ix' == SetSlot(ix, i, v)
    ensures Holds(b, lo, ram.m, ix', o)
  {
    ghost var m := ram.m;
    ram.m := ram.m[Slot(b, lo, i) := v];
    ix' := SetSlot(ix, i, v);
    forall a | a in ix'.node ensures Cell(lo, ram.m, ix', a) {
      assert Cell(lo, m, ix, a);
    }
    forall w | Guarded(lo, w) && OutsideAll(o.ix, w) ensures Rd(ram.m, w) == Rd(o.m, w) {
      assert Rd(m, w) == Rd(o.m, w);
    }
  }

  /** Forgetting a block leaves the representation of the others. */
  lemma RepDrop(b: Build, lo: int, m: Memory, ix: Index, x: int)
    requires Rep(b, lo, m, ix)
    ensures Rep(b, lo, m, Drop(ix, x))
  {
    var ix' := Drop(ix, x);
    forall a | a in ix'.node ensures Cell(lo, m, ix', a) {
      assert Cell(lo, m, ix, a);
    }
  }

  /** A block that overlaps no indexed block may join the index with the links it happens to hold. */
  lemma RepEnter(b: Build, lo: int, m: Memory, ix: Index, x: int)
    requires Rep(b, lo, m, ix) && x !in ix.node
    requires lo <= x && x % 16 == 0 && GoodSize(Rd(m, x + 8))
    requires Spaced(ix.node[x := NodeAt(m, x)])
    ensures Rep(b, lo, m, Enter(ix, x, NodeAt(m, x)))
  {
    var ix' := Enter(ix, x, NodeAt(m, x));
    forall a | a in ix'.node ensures Cell(lo, m, ix', a) {
      if a != x { assert Cell(lo, m, ix, a); }
    }
  }

  /** A large block's four links are cleared, as at the end of `heap_tree_delete`. */
  function Cleared(m: Memory, x: int): Memory {
    m[x + 32 := 0][x + 40 := 0][x + 24 := 0][x + 16 := 0]
  }

  function ClearNode(ix: Index, x: int): Index
    requires x in ix.node
  {
    ix.(node := ix.node[x := Node(ix.node[x].size, 0, 0, 0, 0)])
  }

  /** x is large, so that all four of its link words lie before its footer. */
  ghost predicate Roomy(ix: Index, x: int) {
    x in ix.node && ix.node[x].size > HEAP_LIST_MAX
  }

  lemma ClearedRep(b: Build, lo: int, m: Memory, ix: Index, x: int)
    requires Rep(b, lo, m, ix) && x in ix.node
    ensures Rep(b, lo, Cleared(m, x), ClearNode(ix, x))
  {
    var m', ix' := Cleared(m, x), ClearNode(ix, x);
    assert Cell(lo, m, ix, x);
    forall a | a in ix'.node ensures Cell(lo, m', ix', a) {
      assert Cell(lo, m, ix, a);
    }
  }

  lemma ClearedHolds(b: Build, lo: int, m: Memory, ix: Index, x: int, o: Origin)
    requires Holds(b, lo, m, ix, o) && x in ix.node && Roomy(o.ix, x)
    ensures Holds(b, lo, Cleared(m, x), ClearNode(ix, x), o)
  {
    var m' := Cleared(m, x);
    ClearedRep(b, lo, m, ix, x);
    forall w | Guarded(lo, w) && OutsideAll(o.ix, w) ensures Rd(m', w) == Rd(o.m, w) {
      assert w < x + 16 || x + o.ix.node[x].size - 16 <= w;
      assert Rd(m, w) == Rd(o.m, w);
    }
  }

  /** All four links of a block are cleared. */
  method ClearLinks(b: Build, ram: Ram, lo: int, block: int, ghost ix: Index, ghost o: Origin)
    returns (ghost ix': Index)
    requires Holds(b, lo, ram.m, ix, o) && block in ix.node && Roomy(o.ix, block)
    modifies ram
    ensures Holds(b, lo, ram.m, ix', o) && ix' == ClearNode(ix, block)
  {
    ClearedHolds(b, lo, ram.m, ix, block, o);
    ram.m := ram.m[block + 32 := 0];
    ram.m := ram.m[block + 40 := 0];
    ram.m := ram.m[block + 24 := 0];
    ram.m := ram.m[block + 16 := 0];
    ix' := ClearNode(ix, block);
  }

  /** A removed block's links are cleared and the block is forgotten. */
  method Retire(b: Build, ram: Ram, lo: int, block: int, ghost ix: Index, ghost o: Origin) returns (ghost ix': Index)
    requires Holds(b, lo, ram.m, ix, o) && block in ix.node && Roomy(o.ix, block)
    modifies ram
    ensures Holds(b, lo, ram.m, ix', o) && ix' == Drop(ix, block)
  {
    ix' := ClearLinks(b, ram, lo, block, ix, o);
    RepDrop(b, lo, ram.m, ix', block);
    ix' := Drop(ix', block);
    assert ix'.node == ix.node - {block};
  }

  /** The index of a heap without free blocks. */
  function EmptyIndex(b: Build): Index {
    Index(map[], seq(ListCount(b) + 1, _ => 0), map[], 0, map[])
  }

  /** `heap_create` clears every slot of `free[]`. */
  method ClearSlots(b: Build, ram: Ram, lo: int)
    requires lo % 16 == 0 && Slot(b, lo, 0) > 0
    modifies ram
    ensures Rep(b, lo, ram.m, EmptyIndex(b))
    ensures forall w {:trigger Rd(ram.m, w)} | Guarded(lo, w) :: Rd(ram.m, w) == Rd(old(ram.m), w)
  {
    var i := 0;
    while i <= ListCount(b)
      invariant 0 <= i <= ListCount(b) + 1
      invariant forall w {:trigger Rd(ram.m, w)} | Guarded(lo, w) :: Rd(ram.m, w) == Rd(old(ram.m), w)
      invariant forall k {:trigger Slot(b, lo, k)} | 0 <= k < i :: Rd(ram.m, Slot(b, lo, k)) == 0
    {
      ghost var m := ram.m;
      ram.m := ram.m[Slot(b, lo, i) := 0];
      forall w | Guarded(lo, w) ensures Rd(ram.m, w) == Rd(old(ram.m), w) { assert Rd(m, w) == Rd(old(ram.m), w); }
      i := i + 1;
    }
  }
}
