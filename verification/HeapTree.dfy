/** `heap_tree_insert`, `heap_tree_delete` and the two tree searches, run on memory. */
module HeapTree {
  import opened Machine
  import opened HeapFormat
  import opened HeapIndex
  import opened IndexMemory
  import opened FreeTree
  import opened FreeLists
  import opened IndexReach

  /** A block about to join the tree: its header is written, its links are cleared, it is ranked above all others. */
  ghost predicate Joining(ix: Index, ix1: Index, block: int, s: int) {
    && block !in ix.node && block != 0 && 0 !in ix.node && |ix.slot| > 0
    && ix1 == Enter(ix, block, Node(s, 0, 0, 0, 0))
  }

  /**
   What a large block that joins makes of the index: it becomes the first child of the spine block of its size, or, if
   there is none, it goes on the spine where its size falls.
   */
  ghost predicate Joined(ix: Index, ix': Index, x: int, s: int) {
    if s in ix.spine then ChildInserted(ix, ix', x, ix.spine[s])
    else exists sm, lg {:trigger Gap(ix, s, sm, lg)} :: Gap(ix, s, sm, lg) && SpineInserted(ix, ix', x, s, sm, lg)
  }

  /** What a block that joins makes of the index: a small one becomes the head of its list. */
  ghost predicate Added(ix: Index, ix': Index, x: int, s: int) {
    if s <= HEAP_LIST_MAX then 0 <= SizeIdx(s) < |ix.slot| && Pushed(ix, ix', x, s) else Joined(ix, ix', x, s)
  }

  /** There is one place where a size falls. */
  lemma GapUnique(b: Build, ix: Index, s: int, sm: int, lg: int, sm': int, lg': int)
    requires TreeOk(b, ix) && Gap(ix, s, sm, lg) && Gap(ix, s, sm', lg')
    ensures sm == sm' && lg == lg'
  {
    if sm != 0 && sm' != 0 {
      var t, u := ix.node[sm].size, ix.node[sm'].size;
      assert SpinePair(ix, t, u) && SpinePair(ix, u, t);
    }
    if lg != 0 && lg' != 0 {
      var t, u := ix.node[lg].size, ix.node[lg'].size;
      assert SpinePair(ix, t, u) && SpinePair(ix, u, t);
    }
  }

  /** So there is one index after a large block has joined. */
  lemma JoinedUnique(b: Build, ix: Index, u: Index, v: Index, x: int, s: int)
    requires TreeOk(b, ix) && Joined(ix, u, x, s) && Joined(ix, v, x, s)
    ensures u == v
  {
    if s !in ix.spine {
      var sm, lg :| Gap(ix, s, sm, lg) && SpineInserted(ix, u, x, s, sm, lg);
      var sm', lg' :| Gap(ix, s, sm', lg') && SpineInserted(ix, v, x, s, sm', lg');
      GapUnique(b, ix, s, sm, lg, sm', lg');
    }
    forall a | a in u.node ensures a in v.node && u.node[a] == v.node[a] { assert a in ix.node || a == x; }
  }

  /**
   What a block that leaves makes of the index. A list block and a child are bypassed. The first child of a spine block
   takes its place; without a child its neighbours close up, and if it was the root then the smaller one, or else the
   larger one, is the new root.
   */
  ghost predicate Removed(b: Build, ix: Index, ix': Index, x: int)
    requires x in ix.node
  {
    if Small(ix, x) then 0 <= SizeIdx(ix.node[x].size) < |ix.slot| && Unlinked(ix, ix', x)
    else if !OnSpine(ix, x) then ChildRemoved(ix, ix', x)
    else if ix.node[x].child != 0 then Promoted(b, ix, ix', x)
    else SpineRemoved(ix, ix', x)
  }

  /** There is one index after a block has left. */
  lemma RemovedUnique(b: Build, ix: Index, u: Index, v: Index, x: int)
    requires x in ix.node && Removed(b, ix, u, x) && Removed(b, ix, v, x)
    ensures u == v
  {
    forall a | a in u.node ensures a in v.node && u.node[a] == v.node[a] { assert a in ix.node; }
    assert u.node == v.node;
  }

  function WithSpine(ix: Index, s: int, x: int): Index {
    ix.(spine := ix.spine[s := x])
  }

  lemma RepSpine(b: Build, lo: int, m: Memory, ix: Index, spine: map<int, int>)
    requires Rep(b, lo, m, ix)
    ensures Rep(b, lo, m, ix.(spine := spine))
  {
    var ix' := ix.(spine := spine);
    forall a | a in ix'.node ensures Cell(lo, m, ix', a) {
      assert Cell(lo, m, ix, a);
    }
  }

  /** Two blocks are linked to each other: `p->f = block`, `block->g = p`. */
  method WriteTwo(b: Build, ram: Ram, lo: int, p: int, f: Link, block: int, g: Link, ghost ix: Index, ghost o: Origin)
    returns (ghost ix': Index)
    requires Holds(b, lo, ram.m, ix, o) && p in ix.node && block in ix.node && Roomy(o.ix, p) && Roomy(o.ix, block)
    modifies ram
    ensures ix' == SetLink(SetLink(ix, p, f, block), block, g, p)
    ensures Holds(b, lo, ram.m, ix', o)
  {
    ix' := WriteLink(b, ram, lo, p, f, block, ix, o);
    ix' := WriteLink(b, ram, lo, block, g, p, ix', o);
  }

  /** The block goes right below p on the spine. */
  method LinkBelow(b: Build, ram: Ram, lo: int, block: int, p: int, ghost s: int, ghost ix: Index, ghost ix1: Index,
                   ghost o: Origin)
    returns (ghost ix': Index)
    requires Joining(ix, ix1, block, s) && Holds(b, lo, ram.m, ix1, o)
    requires OnSpine(ix, p) && SmallerOk(ix, p)
    requires Roomy(o.ix, p) && Roomy(o.ix, block) && (ix.node[p].Smaller() != 0 ==> Roomy(o.ix, ix.node[p].Smaller()))
    modifies ram
    ensures Holds(b, lo, ram.m, ix', o)
    ensures SpineInserted(ix, ix', block, s, ix.node[p].Smaller(), p)
  {
    assert Cell(lo, ram.m, ix1, p);
    var smaller := Rd(ram.m, p + 16);
    if smaller == 0 {
      ix' := WriteTwo(b, ram, lo, p, PrevLink, block, NextLink, ix1, o);
    } else {
      ix' := WriteLink(b, ram, lo, block, PrevLink, smaller, ix1, o);
      ix' := WriteLink(b, ram, lo, smaller, NextLink, block, ix', o);
      ix' := WriteTwo(b, ram, lo, p, PrevLink, block, NextLink, ix', o);
    }
    RepSpine(b, lo, ram.m, ix', ix'.spine[s := block]);
    ix' := WithSpine(ix', s, block);
  }

  /** The block goes right above p on the spine. */
  method LinkAbove(b: Build, ram: Ram, lo: int, block: int, p: int, ghost s: int, ghost ix: Index, ghost ix1: Index,
                   ghost o: Origin)
    returns (ghost ix': Index)
    requires Joining(ix, ix1, block, s) && Holds(b, lo, ram.m, ix1, o)
    requires OnSpine(ix, p) && LargerOk(ix, p)
    requires Roomy(o.ix, p) && Roomy(o.ix, block) && (ix.node[p].Larger() != 0 ==> Roomy(o.ix, ix.node[p].Larger()))
    modifies ram
    ensures Holds(b, lo, ram.m, ix', o)
    ensures SpineInserted(ix, ix', block, s, p, ix.node[p].Larger())
  {
    assert Cell(lo, ram.m, ix1, p);
    var larger := Rd(ram.m, p + 24);
    if larger == 0 {
      ix' := WriteTwo(b, ram, lo, p, NextLink, block, PrevLink, ix1, o);
    } else {
      ix' := WriteLink(b, ram, lo, block, NextLink, larger, ix1, o);
      ix' := WriteLink(b, ram, lo, larger, PrevLink, block, ix', o);
      ix' := WriteTwo(b, ram, lo, p, NextLink, block, PrevLink, ix', o);
    }
    RepSpine(b, lo, ram.m, ix', ix'.spine[s := block]);
    ix' := WithSpine(ix', s, block);
  }

  /** The block becomes the first child of p. */
  method LinkChild(b: Build, ram: Ram, lo: int, block: int, p: int, ghost s: int, ghost ix: Index, ghost ix1: Index,
                   ghost o: Origin)
    returns (ghost ix': Index)
    requires Joining(ix, ix1, block, s) && Holds(b, lo, ram.m, ix1, o)
    requires OnSpine(ix, p) && ChildOk(ix, p) && ix.node[p].size == s && ix.node[p].child != p
    requires Roomy(o.ix, p) && Roomy(o.ix, block) && (ix.node[p].child != 0 ==> Roomy(o.ix, ix.node[p].child))
    modifies ram
    ensures Holds(b, lo, ram.m, ix', o)
    ensures ChildInserted(ix, ix', block, p)
  {
    assert Cell(lo, ram.m, ix1, p);
    var child := Rd(ram.m, p + 32);
    ix' := ix1;
    if child != 0 {
      ix' := WriteLink(b, ram, lo, child, ParentLink, block, ix', o);
      ix' := WriteLink(b, ram, lo, block, ChildLink, child, ix', o);
    }
    ix' := WriteLink(b, ram, lo, p, ChildLink, block, ix', o);
    ix' := WriteLink(b, ram, lo, block, ParentLink, p, ix', o);
  }

  lemma GapBelow(b: Build, ix: Index, s: int, p: int)
    requires TreeOk(b, ix) && OnSpine(ix, p) && s < ix.node[p].size
    requires var sm := ix.node[p].Smaller(); sm != 0 ==> sm in ix.node && ix.node[sm].size < s
    ensures Gap(ix, s, ix.node[p].Smaller(), p)
  {
    var sp := ix.node[p].size;
    SpineFacts(b, ix, p);
    if ix.node[p].Smaller() != 0 { SpineFacts(b, ix, ix.node[p].Smaller()); }
    forall t | t in ix.spine && t < sp ensures ix.node[p].Smaller() != 0 && t <= ix.node[ix.node[p].Smaller()].size {
      assert SpineEntry(ix, t) && SpinePair(ix, t, sp);
    }
  }

  lemma GapAbove(b: Build, ix: Index, s: int, p: int)
    requires TreeOk(b, ix) && OnSpine(ix, p) && ix.node[p].size < s
    requires var lg := ix.node[p].Larger(); lg != 0 ==> lg in ix.node && s < ix.node[lg].size
    ensures Gap(ix, s, p, ix.node[p].Larger())
  {
    var sp := ix.node[p].size;
    SpineFacts(b, ix, p);
    if ix.node[p].Larger() != 0 { SpineFacts(b, ix, ix.node[p].Larger()); }
    forall t | t in ix.spine && sp < t ensures ix.node[p].Larger() != 0 && ix.node[ix.node[p].Larger()].size <= t {
      assert SpineEntry(ix, t) && SpinePair(ix, sp, t);
    }
  }

  /** Everything indexed before or joining now was indexed, with the same size, at the origin. */
  ghost predicate Since(ix: Index, ix1: Index, block: int, s: int, o: Origin) {
    Joining(ix, ix1, block, s) && s > HEAP_LIST_MAX && Roomy(o.ix, block) && forall x | Large(ix, x) :: Roomy(o.ix, x)
  }

  method InsertBelow(b: Build, ram: Ram, lo: int, block: int, p: int, ghost s: int, ghost ix: Index, ghost ix1: Index,
                     ghost o: Origin)
    returns (ghost ix': Index)
    requires IndexOk(b, ix) && Since(ix, ix1, block, s, o) && Holds(b, lo, ram.m, ix1, o)
    requires OnSpine(ix, p) && s < ix.node[p].size
    requires var sm := ix.node[p].Smaller(); sm != 0 ==> sm in ix.node && ix.node[sm].size < s
    modifies ram
    ensures IndexOk(b, ix') && Holds(b, lo, ram.m, ix', o) && ix'.node.Keys == ix.node.Keys + {block}
    ensures Joined(ix, ix', block, s)
  {
    SpineFacts(b, ix, p);
    if ix.node[p].Smaller() != 0 { SpineFacts(b, ix, ix.node[p].Smaller()); }
    GapBelow(b, ix, s, p);
    ix' := LinkBelow(b, ram, lo, block, p, s, ix, ix1, o);
    SpineInsertedOk(b, ix, ix', block, s, ix.node[p].Smaller(), p);
  }

  method InsertAbove(b: Build, ram: Ram, lo: int, block: int, p: int, ghost s: int, ghost ix: Index, ghost ix1: Index,
                     ghost o: Origin)
    returns (ghost ix': Index)
    requires IndexOk(b, ix) && Since(ix, ix1, block, s, o) && Holds(b, lo, ram.m, ix1, o)
    requires OnSpine(ix, p) && ix.node[p].size < s
    requires var lg := ix.node[p].Larger(); lg != 0 ==> lg in ix.node && s < ix.node[lg].size
    modifies ram
    ensures IndexOk(b, ix') && Holds(b, lo, ram.m, ix', o) && ix'.node.Keys == ix.node.Keys + {block}
    ensures Joined(ix, ix', block, s)
  {
    SpineFacts(b, ix, p);
    if ix.node[p].Larger() != 0 { SpineFacts(b, ix, ix.node[p].Larger()); }
    GapAbove(b, ix, s, p);
    ix' := LinkAbove(b, ram, lo, block, p, s, ix, ix1, o);
    SpineInsertedOk(b, ix, ix', block, s, p, ix.node[p].Larger());
  }

  method InsertChild(b: Build, ram: Ram, lo: int, block: int, p: int, ghost s: int, ghost ix: Index, ghost ix1: Index,
                     ghost o: Origin)
    returns (ghost ix': Index)
    requires IndexOk(b, ix) && Since(ix, ix1, block, s, o) && Holds(b, lo, ram.m, ix1, o)
    requires OnSpine(ix, p) && ix.node[p].size == s
    modifies ram
    ensures IndexOk(b, ix') && Holds(b, lo, ram.m, ix', o) && ix'.node.Keys == ix.node.Keys + {block}
    ensures Joined(ix, ix', block, s)
  {
    SpineFacts(b, ix, p);
    if ix.node[p].child != 0 { ChildFacts(b, ix, ix.node[p].child); }
    ix' := LinkChild(b, ram, lo, block, p, s, ix, ix1, o);
    ChildInsertedOk(b, ix, ix', block, p);
  }

  /** The descent of `heap_tree_insert` from a non-empty root. */
  method Descend(b: Build, ram: Ram, lo: int, block: int, root: int, s: int, ghost ix: Index, ghost ix1: Index,
                 ghost o: Origin)
    returns (done: bool, ghost ix': Index)
    requires IndexOk(b, ix) && Since(ix, ix1, block, s, o) && Holds(b, lo, ram.m, ix1, o)
    requires OnSpine(ix, root)
    modifies ram
    ensures done
    ensures IndexOk(b, ix') && Holds(b, lo, ram.m, ix', o) && ix'.node.Keys == ix.node.Keys + {block}
    ensures Joined(ix, ix', block, s)
  {
    var p := root;
    ghost var m1 := ram.m;
    while true
      invariant ram.m == m1 && OnSpine(ix, p)
      decreases if ix.node[p].size > s then ix.node[p].size - s else s - ix.node[p].size
    {
      SpineFacts(b, ix, p);
      assert Cell(lo, ram.m, ix1, p);
      var psize := SizeOf(Rd(ram.m, p + 8));
      if psize > s {
        var smaller := Rd(ram.m, p + 16);
        if smaller != 0 { assert OnSpine(ix, smaller) && Cell(lo, ram.m, ix1, smaller); }
        if smaller == 0 || SizeOf(Rd(ram.m, smaller + 8)) < s {
          ix' := InsertBelow(b, ram, lo, block, p, s, ix, ix1, o);
          return true, ix';
        }
        p := smaller;
      } else if psize < s {
        var larger := Rd(ram.m, p + 24);
        if larger != 0 { assert OnSpine(ix, larger) && Cell(lo, ram.m, ix1, larger); }
        if larger == 0 || SizeOf(Rd(ram.m, larger + 8)) > s {
          ix' := InsertAbove(b, ram, lo, block, p, s, ix, ix1, o);
          return true, ix';
        }
        p := larger;
      } else {
        ix' := InsertChild(b, ram, lo, block, p, s, ix, ix1, o);
        return true, ix';
      }
    }
  }

  /** The first block of the tree. */
  method InsertRoot(b: Build, ram: Ram, lo: int, block: int, ghost s: int, ghost ix: Index, ghost ix1: Index,
                    ghost o: Origin)
    returns (ghost ix': Index)
    requires IndexOk(b, ix) && Since(ix, ix1, block, s, o) && Holds(b, lo, ram.m, ix1, o)
    requires ix.slot[ListCount(b)] == 0
    modifies ram
    ensures IndexOk(b, ix') && Holds(b, lo, ram.m, ix', o) && ix'.node.Keys == ix.node.Keys + {block}
    ensures Joined(ix, ix', block, s)
  {
    ix' := WriteSlot(b, ram, lo, ListCount(b), block, ix1, o);
    RepSpine(b, lo, ram.m, ix', ix'.spine[s := block]);
    ix' := WithSpine(ix', s, block);
    assert Gap(ix, s, 0, 0);
    SpineInsertedOk(b, ix, ix', block, s, 0, 0);
  }

  /** `heap_tree_insert`; HEAP_TREE_DATA_SIZE is 48. */
  method TreeInsert(b: Build, ram: Ram, lo: int, block: int, ghost ix: Index) returns (done: bool, ghost ix': Index)
    requires IndexOk(b, ix) && Rep(b, lo, ram.m, ix) && block !in ix.node
    requires lo <= block && block % 16 == 0 && GoodSize(Rd(ram.m, block + 8)) && Rd(ram.m, block + 8) > HEAP_LIST_MAX
    requires Spaced(ix.node[block := NodeAt(ram.m, block)])
    modifies ram
    ensures done
    ensures IndexOk(b, ix') && Rep(b, lo, ram.m, ix')
    ensures LinksOnly(lo, old(ram.m), ram.m, Enter(ix, block, NodeAt(old(ram.m), block)))
    ensures ix'.node.Keys == ix.node.Keys + {block} && Joined(ix, ix', block, old(Rd(ram.m, block + 8)))
  {
    var s := SizeOf(Rd(ram.m, block + 8));
    done, ix' := false, ix;
    if s >= 48 {
      ghost var ix0 := Enter(ix, block, NodeAt(ram.m, block));
      RepEnter(b, lo, ram.m, ix, block);
      ghost var o := Origin(ram.m, ix0);
      ghost var ix1 := ClearLinks(b, ram, lo, block, ix0, o);
      assert ix1.node == Enter(ix, block, Node(s, 0, 0, 0, 0)).node;
      var root := Rd(ram.m, Slot(b, lo, ListCount(b)));
      assert root == ix1.slot[ListCount(b)];
      if root == 0 {
        ix' := InsertRoot(b, ram, lo, block, s, ix, ix1, o);
        done := true;
      } else {
        done, ix' := Descend(b, ram, lo, block, root, s, ix, ix1, o);
      }
    }
  }

  // ----- Deletion -----

  /** The child branch of `heap_tree_delete`, with the clearing of the links at its end. */
  function Detached(m: Memory, block: int): Memory {
    var parent, child := Rd(m, block + 40), Rd(m, block + 32);
    var m1 := m[parent + 32 := child];
    Cleared(if child != 0 then m1[child + 40 := parent] else m1, block)
  }

  /** The same assignments on the index, for a block that is a child. */
  function DetachChild(ix: Index, block: int): Index
    requires block in ix.node && ix.node[block].parent in ix.node
    requires ix.node[block].child != 0 ==> ix.node[block].child in ix.node
  {
    var parent, child := ix.node[block].parent, ix.node[block].child;
    var ix1 := SetLink(ix, parent, ChildLink, child);
    Drop(ClearNode(if child != 0 then SetLink(ix1, child, ParentLink, parent) else ix1, block), block)
  }

  lemma DetachedHolds(b: Build, lo: int, m: Memory, ix: Index, block: int)
    requires Rep(b, lo, m, ix) && 0 !in ix.node
    requires Large(ix, block) && ChildNode(ix, block)
    ensures Holds(b, lo, Detached(m, block), DetachChild(ix, block), Origin(m, ix))
  {
    var parent, child, o := ix.node[block].parent, ix.node[block].child, Origin(m, ix);
    assert Cell(lo, m, ix, block);
    var m1, ix1 := m[parent + 32 := child], SetLink(ix, parent, ChildLink, child);
    LinkWritten(b, lo, m, m1, ix, parent, ChildLink, child, o);
    var m2 := if child != 0 then m1[child + 40 := parent] else m1;
    var ix2 := if child != 0 then SetLink(ix1, child, ParentLink, parent) else ix1;
    if child != 0 { LinkWritten(b, lo, m1, m2, ix1, child, ParentLink, parent, o); }
    ClearedHolds(b, lo, m2, ix2, block, o);
    RepDrop(b, lo, Cleared(m2, block), ClearNode(ix2, block), block);
  }

  lemma DetachChildOk(b: Build, ix: Index, block: int)
    requires IndexOk(b, ix) && Large(ix, block) && !OnSpine(ix, block)
    ensures ChildNode(ix, block) && IndexOk(b, DetachChild(ix, block))
    ensures DetachChild(ix, block).node.Keys == ix.node.Keys - {block}
    ensures StaleAfter(ix, DetachChild(ix, block), block) && Removed(b, ix, DetachChild(ix, block), block)
  {
    ChildFacts(b, ix, block);
    var parent, child := ix.node[block].parent, ix.node[block].child;
    if child != 0 { ChildFacts(b, ix, child); }
    if OnSpine(ix, parent) { SpineFacts(b, ix, parent); } else { ChildFacts(b, ix, parent); }
    ChildRemovedOk(b, ix, DetachChild(ix, block), block);
  }

  /** The neighbours a spine node names are indexed. */
  predicate Neighbours(ix: Index, x: int) {
    x in ix.node && var n := ix.node[x];
    (n.prev != 0 ==> n.prev in ix.node) && (n.next != 0 ==> n.next in ix.node) && (n.child != 0 ==> n.child in ix.node)
  }

  /**
   A spine block with a child: the assignments that put the child in its place. The repair clears the child's parent
   link.
   */
  function Promote(b: Build, ix: Index, x: int): Index
    requires Neighbours(ix, x) && ix.node[x].child != 0
  {
    var n := ix.node[x];
    var ix1 := if n.Larger() != 0 then SetLink(ix, n.Larger(), PrevLink, n.child) else ix;
    var ix2 := SetLink(ix1, n.child, NextLink, n.Larger());
    var ix3 := if n.Smaller() != 0 then SetLink(ix2, n.Smaller(), NextLink, n.child) else ix2;
    var ix4 := SetLink(ix3, n.child, PrevLink, n.Smaller());
    if b.Repaired? then SetLink(ix4, n.child, ParentLink, 0) else ix4
  }

  method PromoteChild(b: Build, ram: Ram, lo: int, block: int, ghost ix: Index, ghost o: Origin)
    returns (replacement: int, ghost ix': Index)
    requires Holds(b, lo, ram.m, ix, o) && Neighbours(ix, block) && ix.node[block].child != 0
    requires var n := ix.node[block];
             Roomy(o.ix, n.child) && (n.prev != 0 ==> Roomy(o.ix, n.prev)) && (n.next != 0 ==> Roomy(o.ix, n.next))
    modifies ram
    ensures Holds(b, lo, ram.m, ix', o) && ix' == Promote(b, ix, block)
    ensures replacement == ix.node[block].child
  {
    assert Cell(lo, ram.m, ix, block);
    var smaller, larger, child := Rd(ram.m, block + 16), Rd(ram.m, block + 24), Rd(ram.m, block + 32);
    ix' := ix;
    if larger != 0 {
      ix' := WriteLink(b, ram, lo, larger, PrevLink, child, ix', o);
    }
    ix' := WriteLink(b, ram, lo, child, NextLink, larger, ix', o);
    if smaller != 0 {
      ix' := WriteLink(b, ram, lo, smaller, NextLink, child, ix', o);
    }
    ix' := WriteLink(b, ram, lo, child, PrevLink, smaller, ix', o);
    if b.Repaired? {
      ix' := WriteLink(b, ram, lo, child, ParentLink, 0, ix', o);
    }
    replacement := child;
  }

  /** A childless spine block: the assignments that make its neighbours bypass it. */
  function Bypass(ix: Index, x: int): Index
    requires Neighbours(ix, x)
  {
    var n := ix.node[x];
    var ix1 := if n.Larger() != 0 then SetLink(ix, n.Larger(), PrevLink, n.Smaller()) else ix;
    if n.Smaller() != 0 then SetLink(ix1, n.Smaller(), NextLink, n.Larger()) else ix1
  }

  method BypassNode(b: Build, ram: Ram, lo: int, block: int, ghost ix: Index, ghost o: Origin)
    returns (replacement: int, ghost ix': Index)
    requires Holds(b, lo, ram.m, ix, o) && Neighbours(ix, block)
    requires var n := ix.node[block];
             (n.prev != 0 ==> Roomy(o.ix, n.prev)) && (n.next != 0 ==> Roomy(o.ix, n.next))
    modifies ram
    ensures Holds(b, lo, ram.m, ix', o) && ix' == Bypass(ix, block)
    ensures replacement == var n := ix.node[block]; if n.Smaller() != 0 then n.Smaller() else n.Larger()
  {
    assert Cell(lo, ram.m, ix, block);
    var smaller, larger := Rd(ram.m, block + 16), Rd(ram.m, block + 24);
    ix' := ix;
    replacement := 0;
    if larger != 0 {
      ix' := WriteLink(b, ram, lo, larger, PrevLink, smaller, ix', o);
      replacement := larger;
    }
    if smaller != 0 {
      ix' := WriteLink(b, ram, lo, smaller, NextLink, larger, ix', o);
      replacement := smaller;
    }
  }

  /** The neighbours relinked and the root moved off x. */
  function Unspined(b: Build, ix: Index, x: int): Index
    requires Neighbours(ix, x) && |ix.slot| > 0
  {
    var n := ix.node[x];
    var ix1 := if n.child != 0 then Promote(b, ix, x) else Bypass(ix, x);
    var r := if n.child != 0 then n.child else if n.Smaller() != 0 then n.Smaller() else n.Larger();
    if ix.slot[|ix.slot| - 1] == x then SetSlot(ix1, |ix.slot| - 1, r) else ix1
  }

  function SpineWithout(ix: Index, x: int): map<int, int>
    requires x in ix.node
  {
    var n := ix.node[x];
    if n.child != 0 then ix.spine[n.size := n.child] else ix.spine - {n.size}
  }

  /** The spine branch of `heap_tree_delete` on the index. */
  function DetachSpine(b: Build, ix: Index, x: int): Index
    requires Neighbours(ix, x) && |ix.slot| > 0
  {
    Drop(Unspined(b, ix, x), x).(spine := SpineWithout(ix, x))
  }

  lemma PromoteFits(b: Build, ix: Index, x: int)
    requires OnSpine(ix, x) && Neighbours(ix, x) && |ix.slot| > 0 && 0 !in ix.node && ix.node[x].child != 0
    requires var n := ix.node[x];
             n.child != x && n.child != n.Smaller() && n.child != n.Larger() && n.Smaller() != x && n.Larger() != x
    requires var n := ix.node[x]; n.Smaller() == n.Larger() ==> n.Smaller() == 0
    ensures Promoted(b, ix, DetachSpine(b, ix, x), x)
  {
  }

  lemma BypassFits(b: Build, ix: Index, x: int)
    requires OnSpine(ix, x) && Neighbours(ix, x) && |ix.slot| > 0 && 0 !in ix.node && ix.node[x].child == 0
    requires var n := ix.node[x];
             n.Smaller() != x && n.Larger() != x && (n.Smaller() == n.Larger() ==> n.Smaller() == 0)
    ensures SpineRemoved(ix, DetachSpine(b, ix, x), x)
  {
  }

  lemma DetachSpineOk(b: Build, ix: Index, x: int)
    requires IndexOk(b, ix) && OnSpine(ix, x)
    ensures Neighbours(ix, x) && IndexOk(b, DetachSpine(b, ix, x))
    ensures DetachSpine(b, ix, x).node.Keys == ix.node.Keys - {x}
    ensures StaleAfter(ix, DetachSpine(b, ix, x), x) && Removed(b, ix, DetachSpine(b, ix, x), x)
  {
    SpineFacts(b, ix, x);
    if ix.node[x].child != 0 {
      PromoteFits(b, ix, x);
      PromotedOk(b, ix, DetachSpine(b, ix, x), x);
    } else {
      BypassFits(b, ix, x);
      SpineRemovedOk(b, ix, DetachSpine(b, ix, x), x);
    }
  }

  ghost predicate SpineRoomy(ix: Index, x: int) {
    Roomy(ix, x) && Neighbours(ix, x) && var n := ix.node[x];
    (n.child != 0 ==> Roomy(ix, n.child)) && (n.prev != 0 ==> Roomy(ix, n.prev)) && (n.next != 0 ==> Roomy(ix, n.next))
  }

  /** Whatever the spine branch writes are links of blocks in the tree. */
  lemma NeighboursRoomy(b: Build, ix: Index, x: int)
    requires TreeOk(b, ix) && OnSpine(ix, x)
    ensures SpineRoomy(ix, x)
  {
    SpineFacts(b, ix, x);
    if ix.node[x].prev != 0 { SpineFacts(b, ix, ix.node[x].prev); }
    if ix.node[x].next != 0 { SpineFacts(b, ix, ix.node[x].next); }
  }

  method Unspine(b: Build, ram: Ram, lo: int, block: int, ghost ix: Index, ghost o: Origin) returns (ghost ix': Index)
    requires Holds(b, lo, ram.m, ix, o) && o.ix == ix && SpineRoomy(ix, block)
    modifies ram
    ensures Holds(b, lo, ram.m, ix', o) && ix' == Unspined(b, ix, block)
    ensures block in ix'.node
  {
    assert Cell(lo, ram.m, ix, block);
    var replacement: int;
    if Rd(ram.m, block + 32) != 0 {
      replacement, ix' := PromoteChild(b, ram, lo, block, ix, o);
    } else {
      replacement, ix' := BypassNode(b, ram, lo, block, ix, o);
    }
    ix' := MoveRoot(b, ram, lo, block, replacement, ix', o);
  }

  /** The replacement takes the place of a root that leaves. */
  method MoveRoot(b: Build, ram: Ram, lo: int, block: int, replacement: int, ghost ix: Index, ghost o: Origin)
    returns (ghost ix': Index)
    requires Holds(b, lo, ram.m, ix, o)
    modifies ram
    ensures Holds(b, lo, ram.m, ix', o)
    ensures ix' == if ix.slot[|ix.slot| - 1] == block then SetSlot(ix, |ix.slot| - 1, replacement) else ix
  {
    ix' := ix;
    var root := Rd(ram.m, Slot(b, lo, ListCount(b)));
    assert root == ix.slot[ListCount(b)];
    if root == block {
      ix' := WriteSlot(b, ram, lo, ListCount(b), replacement, ix, o);
    }
  }

  /** The spine branch of `heap_tree_delete`, with the clearing of the links at its end. */
  method RemoveFromSpine(b: Build, ram: Ram, lo: int, block: int, ghost ix: Index) returns (ghost ix': Index)
    requires Rep(b, lo, ram.m, ix) && SpineRoomy(ix, block)
    modifies ram
    ensures ix' == DetachSpine(b, ix, block)
    ensures Holds(b, lo, ram.m, ix', Origin(old(ram.m), ix))
  {
    ghost var o := Origin(ram.m, ix);
    ix' := Unspine(b, ram, lo, block, ix, o);
    ix' := Retire(b, ram, lo, block, ix', o);
    RepSpine(b, lo, ram.m, ix', SpineWithout(ix, block));
    ix' := ix'.(spine := SpineWithout(ix, block));
  }

  /** The child branch of `heap_tree_delete`, with the clearing of the links at its end, whatever the parent link is. */
  method RemoveFromParent(b: Build, ram: Ram, block: int, parent: int)
    requires parent == Rd(ram.m, block + 40)
    modifies ram
    ensures ram.m == Detached(old(ram.m), block)
  {
    var child := Rd(ram.m, block + 32);
    ram.m := ram.m[parent + 32 := child];
    if child != 0 {
      ram.m := ram.m[child + 40 := parent];
    }
    ram.m := ram.m[block + 32 := 0];
    ram.m := ram.m[block + 40 := 0];
    ram.m := ram.m[block + 24 := 0];
    ram.m := ram.m[block + 16 := 0];
  }

  /** `heap_tree_delete`. A stale parent link sends a spine block down the child branch. */
  method TreeDelete(b: Build, ram: Ram, lo: int, block: int, ghost ix: Index) returns (ghost ix': Index)
    requires IndexOk(b, ix) && Rep(b, lo, ram.m, ix) && Large(ix, block)
    modifies ram
    ensures !Stale(ix, block) ==>
              && IndexOk(b, ix') && Holds(b, lo, ram.m, ix', Origin(old(ram.m), ix))
              && ix'.node.Keys == ix.node.Keys - {block} && StaleAfter(ix, ix', block) && Removed(b, ix, ix', block)
    ensures Stale(ix, block) ==> ram.m == Detached(old(ram.m), block)
  {
    assert Cell(lo, ram.m, ix, block);
    var parent := Rd(ram.m, block + 40);
    ix' := ix;
    if parent != 0 {
      if !OnSpine(ix, block) {
        DetachChildOk(b, ix, block);
        DetachedHolds(b, lo, ram.m, ix, block);
        ix' := DetachChild(ix, block);
      }
      RemoveFromParent(b, ram, block, parent);
    } else {
      if !OnSpine(ix, block) { ChildFacts(b, ix, block); }
      NeighboursRoomy(b, ix, block);
      ix' := RemoveFromSpine(b, ram, lo, block, ix);
      DetachSpineOk(b, ix, block);
    }
  }

  lemma DetachedWord(m: Memory, x: int, w: int)
    requires w != Rd(m, x + 40) + 32 && w != Rd(m, x + 32) + 40
    requires w < x + 16 || x + 48 <= w
    ensures Rd(Detached(m, x), w) == Rd(m, w)
  {
  }

  /** The header of another block, and the link words at +16 and +24, survive the wrong branch. */
  lemma DetachedNeighbour(b: Build, lo: int, m: Memory, ix: Index, x: int, a: int, ix': Index)
    requires Rep(b, lo, m, ix) && Large(ix, x) && Large(ix, a) && a != x && 0 !in ix.node
    requires var c := ix.node[x].child; c != 0 ==> Large(ix, c) && c != a
    requires ix.node[x].parent % 16 == 0 && 0 <= ix.node[x].parent
    requires Rep(b, lo, Detached(m, x), ix') && a in ix'.node
    ensures ix'.node[a].size == ix.node[a].size && ix'.node[a].next == ix.node[a].next
    ensures ix.node[x].parent + 16 != a ==> ix'.node[a].prev == ix.node[a].prev
  {
    var c := ix.node[x].child;
    assert Cell(lo, m, ix, x) && Cell(lo, m, ix, a) && (c != 0 ==> Cell(lo, m, ix, c));
    assert Cell(lo, Detached(m, x), ix', a);
    DetachedWord(m, x, a + 8);
    DetachedWord(m, x, a + 24);
    if ix.node[x].parent + 16 != a { DetachedWord(m, x, a + 16); }
  }

  /**
   Deleting a spine block that still carries an old parent link leaves it linked: any index that memory then holds,
   with the other blocks in it, has the block too. The last condition shuts out the one case in which the stray write
   hits the very link that the deletion has to change, and with the right value.
   */
  lemma StaleLinkRemains(b: Build, lo: int, m: Memory, ix: Index, x: int, ix': Index)
    requires IndexOk(b, ix) && Rep(b, lo, m, ix) && Stale(ix, x)
    requires var n := ix.node[x];
             && lo <= n.parent && n.parent % 16 == 0
             && !(StrayIsRight(ix, x) && x != ix.slot[ListCount(b)])
    requires ix.node.Keys - {x} <= ix'.node.Keys && IndexOk(b, ix') && Rep(b, lo, Detached(m, x), ix')
    ensures x in ix'.node
  {
    var n, r := ix.node[x], ix.slot[ListCount(b)];
    SpineFacts(b, ix, x);
    assert Cell(lo, m, ix, x);
    if r == x {
      assert n.child != 0 ==> Cell(lo, m, ix, n.child);
      DetachedWord(m, x, Slot(b, lo, ListCount(b)));
      assert ix'.slot[ListCount(b)] == x;
    } else if n.Smaller() != 0 {
      SpineFacts(b, ix, n.Smaller());
      DetachedNeighbour(b, lo, m, ix, x, n.Smaller(), ix');
      LinkedToSpine(b, ix', n.Smaller());
    } else {
      SpineFacts(b, ix, r);
      assert SpinePair(ix, ix.node[r].size, n.size) && SpinePair(ix, n.size, ix.node[r].size);
      SpineFacts(b, ix, n.Larger());
      DetachedNeighbour(b, lo, m, ix, x, n.Larger(), ix');
      LinkedToSpine(b, ix', n.Larger());
      if n.parent + 16 == n.Larger() { StrayToChild(b, lo, m, ix, x, ix'); }
    }
  }

  /**
   The stale parent lies 16 bytes before the larger neighbour of a block that has neither a smaller one nor a child.
   */
  predicate StrayIsRight(ix: Index, x: int)
    requires x in ix.node
  {
    ix.node[x].Smaller() == 0 && ix.node[x].child == 0 && ix.node[x].parent + 16 == ix.node[x].Larger()
  }

  /** If the stray write makes the child the larger neighbour's smaller one, no index fits the links of the two. */
  lemma StrayToChild(b: Build, lo: int, m: Memory, ix: Index, x: int, ix': Index)
    requires IndexOk(b, ix) && Rep(b, lo, m, ix) && Stale(ix, x)
    requires ix.node[x].Smaller() == 0 && ix.node[x].child != 0 && ix.node[x].parent + 16 == ix.node[x].Larger()
             && ix.node[x].Larger() in ix.node
    requires ix.node.Keys - {x} <= ix'.node.Keys && IndexOk(b, ix') && Rep(b, lo, Detached(m, x), ix')
    ensures x in ix'.node
  {
    var n := ix.node[x];
    var l, c := n.Larger(), n.child;
    SpineFacts(b, ix, x);
    SpineFacts(b, ix, l);
    assert Cell(lo, m, ix, x) && Cell(lo, m, ix, l) && Cell(lo, m, ix, c);
    assert TreeNode(b, ix, c) && ChildNode(ix, c);
    assert Cell(lo, Detached(m, x), ix', l) && Cell(lo, Detached(m, x), ix', c);
    assert TreeNode(b, ix', l);
  }

  /** In that one case the deletion is done as it should be. */
  lemma StrayWriteIsRight(b: Build, lo: int, m: Memory, ix: Index, x: int)
    requires IndexOk(b, ix) && Rep(b, lo, m, ix) && Stale(ix, x) && x != ix.slot[ListCount(b)] && StrayIsRight(ix, x)
    requires ix.node[x].Larger() != 0
    ensures Neighbours(ix, x) && IndexOk(b, DetachSpine(b, ix, x))
            && DetachSpine(b, ix, x).node.Keys == ix.node.Keys - {x}
    ensures Rep(b, lo, Detached(m, x), DetachSpine(b, ix, x))
  {
    DetachSpineOk(b, ix, x);
    SpineFacts(b, ix, x);
    StrayRep(b, lo, m, ix, x);
  }

  lemma StrayRep(b: Build, lo: int, m: Memory, ix: Index, x: int)
    requires Rep(b, lo, m, ix) && x in ix.node && x != ix.slot[ListCount(b)] && StrayIsRight(ix, x) && 0 !in ix.node
    requires Neighbours(ix, x) && ix.node[x].Larger() in ix.node && ix.node[x].Larger() != x
    ensures Rep(b, lo, Detached(m, x), DetachSpine(b, ix, x))
  {
    var l := ix.node[x].Larger();
    var ix1 := SetLink(ix, l, PrevLink, 0);
    assert Cell(lo, m, ix, x);
    LinkInRep(b, lo, m, ix, l, PrevLink, 0);
    ClearedRep(b, lo, m[l + 16 := 0], ix1, x);
    RepDrop(b, lo, Detached(m, x), ClearNode(ix1, x), x);
    RepSpine(b, lo, Detached(m, x), Drop(ClearNode(ix1, x), x), SpineWithout(ix, x));
    assert Drop(ClearNode(ix1, x), x).node == Drop(ix1, x).node;
  }

  /** The spine links of a large block lead to indexed blocks. */
  lemma LinkedToSpine(b: Build, ix: Index, a: int)
    requires IndexOk(b, ix) && a in ix.node && ix.node[a].size > HEAP_LIST_MAX
    ensures ix.node[a].Smaller() != 0 ==> ix.node[a].Smaller() in ix.node
    ensures ix.node[a].Larger() != 0 ==> ix.node[a].Larger() in ix.node
  {
    assert TreeNode(b, ix, a);
  }

  lemma SameTreeStale(b: Build, ix: Index, ix': Index, block: int)
    requires TreeOk(b, ix) && SameTree(ix, ix') && TreeOk(b, ix')
    ensures StaleAfter(ix, ix', block)
  {
    forall a | Stale(ix', a) ensures Stale(ix, a) {
      SpineIsLarge(b, ix', a);
      assert Large(ix, a);
    }
  }

  /** `heap_remove` on the index: the block leaves its list, or the tree. */
  method IndexRemove(b: Build, ram: Ram, lo: int, block: int, ghost ix: Index) returns (ghost ix': Index)
    requires IndexOk(b, ix) && Rep(b, lo, ram.m, ix) && block in ix.node && !Stale(ix, block)
    modifies ram
    ensures IndexOk(b, ix') && Holds(b, lo, ram.m, ix', Origin(old(ram.m), ix))
    ensures ix'.node.Keys == ix.node.Keys - {block} && StaleAfter(ix, ix', block) && Removed(b, ix, ix', block)
  {
    assert Cell(lo, ram.m, ix, block);
    var bsize := SizeOf(Rd(ram.m, block + 8));
    var listIdx := if bsize <= HEAP_LIST_MAX then SizeIdx(bsize) else -1;
    assert bsize == ix.node[block].size && (Small(ix, block) ==> ListNode(ix, block));
    if listIdx >= 0 {
      UnlinkOk(b, ix, block);
      UnlinkBypasses(b, ix, block);
      ix' := ListRemove(b, ram, lo, block, ix);
      SameTreeStale(b, ix, ix', block);
    } else {
      ix' := TreeDelete(b, ram, lo, block, ix);
    }
  }

  // ----- Search -----

  /** The spine sizes beyond s: what is left of a walk along `larger_block`. */
  function Above(ix: Index, s: int): set<int> {
    set t | t in ix.spine && s < t
  }

  lemma AboveShrinks(ix: Index, s: int, t: int)
    requires t in ix.spine && s < t
    ensures Above(ix, t) < Above(ix, s)
  {
    assert t in Above(ix, s);
  }

  lemma SizesOnSpine(b: Build, ix: Index)
    requires TreeOk(b, ix)
    ensures forall a | Large(ix, a) :: ix.node[a].size in ix.spine
  {
    forall a | Large(ix, a) ensures ix.node[a].size in ix.spine {
      assert TreeNode(b, ix, a);
    }
  }

  /** `heap_tree_search`: the smallest tree block that is large enough, if there is one. */
  method TreeSearch(b: Build, ram: Ram, lo: int, bsize: int, ghost ix: Index) returns (x: int)
    requires IndexOk(b, ix) && Rep(b, lo, ram.m, ix)
    ensures x == 0 ==> forall a | Large(ix, a) :: ix.node[a].size < bsize
    ensures x != 0 ==> OnSpine(ix, x) && Large(ix, x) && bsize <= ix.node[x].size
    ensures x != 0 ==> forall a | Large(ix, a) && bsize <= ix.node[a].size :: ix.node[x].size <= ix.node[a].size
  {
    x := Rd(ram.m, Slot(b, lo, ListCount(b)));
    assert x == ix.slot[ListCount(b)];
    if x == 0 {
      SizesOnSpine(b, ix);
      return 0;
    }
    SpineFacts(b, ix, x);
    assert Cell(lo, ram.m, ix, x);
    while SizeOf(Rd(ram.m, x + 8)) < bsize && Rd(ram.m, x + 24) != 0
      invariant OnSpine(ix, x) && Large(ix, x) && Cell(lo, ram.m, ix, x)
      decreases Above(ix, ix.node[x].size)
    {
      SpineFacts(b, ix, x);
      ghost var s := ix.node[x].size;
      x := Rd(ram.m, x + 24);
      SpineFacts(b, ix, x);
      assert Cell(lo, ram.m, ix, x);
      AboveShrinks(ix, s, ix.node[x].size);
    }
    if SizeOf(Rd(ram.m, x + 8)) < bsize {
      forall a | Large(ix, a) ensures ix.node[a].size < bsize { NothingAbove(b, ix, x, a); }
      return 0;
    }
    while SizeOf(Rd(ram.m, x + 8)) > bsize && Rd(ram.m, x + 16) != 0
      && SizeOf(Rd(ram.m, Rd(ram.m, x + 16) + 8)) >= bsize
      invariant OnSpine(ix, x) && Large(ix, x) && Cell(lo, ram.m, ix, x) && bsize <= ix.node[x].size
      decreases ix.node[x].size
    {
      SpineFacts(b, ix, x);
      x := Rd(ram.m, x + 16);
      SpineFacts(b, ix, x);
      assert Cell(lo, ram.m, ix, x);
    }
    SpineFacts(b, ix, x);
    ghost var sm := ix.node[x].Smaller();
    if sm != 0 { SpineFacts(b, ix, sm); assert Cell(lo, ram.m, ix, sm); }
    forall a | Large(ix, a) && bsize <= ix.node[a].size ensures ix.node[x].size <= ix.node[a].size {
      NothingBetween(b, ix, x, a);
    }
  }

  lemma NothingAbove(b: Build, ix: Index, x: int, a: int)
    requires TreeOk(b, ix) && OnSpine(ix, x) && ix.node[x].Larger() == 0 && Large(ix, a)
    ensures ix.node[a].size <= ix.node[x].size
  {
    var s, t := ix.node[x].size, ix.node[a].size;
    assert TreeNode(b, ix, a) && SpinePair(ix, s, t) && SpineEntry(ix, t);
  }

  lemma NothingBetween(b: Build, ix: Index, x: int, a: int)
    requires TreeOk(b, ix) && OnSpine(ix, x) && Large(ix, a)
    ensures var sm := ix.node[x].Smaller();
            ix.node[x].size <= ix.node[a].size || (sm in ix.node && ix.node[a].size <= ix.node[sm].size)
  {
    var s, t := ix.node[x].size, ix.node[a].size;
    assert TreeNode(b, ix, a) && SpinePair(ix, t, s) && SpineEntry(ix, t);
  }

  /** What an aligned search accepts. */
  predicate Accepted(b: Build, ix: Index, x: int, bsize: int) {
    x in ix.node && bsize <= ix.node[x].size && (PageAligned(x + 16) || FitTest(b, x, ix.node[x].size, bsize))
  }

  /** Size of the root of the tree. */
  function RootSize(b: Build, ix: Index): int {
    var r := if |ix.slot| == ListCount(b) + 1 then ix.slot[ListCount(b)] else 0;
    if r in ix.node then ix.node[r].size else 0
  }

  /** No block of the tree that is at least as large as its root is acceptable. */
  ghost predicate NoneFromRoot(b: Build, ix: Index, bsize: int) {
    forall a {:trigger Accepted(b, ix, a, bsize)} | Large(ix, a) && RootSize(b, ix) <= ix.node[a].size ::
      !Accepted(b, ix, a, bsize)
  }

  /** What the aligned search of the tree still has to look at from a spine block (or nothing) upwards. */
  ghost predicate NoneBelow(b: Build, ix: Index, bsize: int, y: int) {
    forall a {:trigger Accepted(b, ix, a, bsize)} |
      Large(ix, a) && RootSize(b, ix) <= ix.node[a].size
        && (y == 0 || (y in ix.node && ix.node[a].size < ix.node[y].size)) ::
      !Accepted(b, ix, a, bsize)
  }

  /** A block larger than a spine block is at least as large as the next one of the spine. */
  lemma NothingSkipped(b: Build, ix: Index, y: int, a: int)
    requires TreeOk(b, ix) && OnSpine(ix, y) && Large(ix, a)
    ensures var lg := ix.node[y].Larger();
            ix.node[y].size < ix.node[a].size ==> lg != 0 && lg in ix.node && ix.node[lg].size <= ix.node[a].size
  {
    assert TreeNode(b, ix, a) && SpinePair(ix, ix.node[y].size, ix.node[a].size) && SpineEntry(ix, ix.node[a].size);
  }

  /** Where `child` leads. */
  lemma ChildStep(b: Build, ix: Index, x: int)
    requires TreeOk(b, ix) && Large(ix, x)
    ensures var c := ix.node[x].child;
            c != 0 ==>
              && Large(ix, c) && ix.node[c].size == ix.node[x].size && !OnSpine(ix, c)
              && (OnSpine(ix, x) || Rank(ix, c) < Rank(ix, x))
  {
    if OnSpine(ix, x) { SpineFacts(b, ix, x); } else { ChildFacts(b, ix, x); }
  }

  /** Going up the spine skips only blocks that are too small, or tried. */
  lemma NoneBelowNext(b: Build, ix: Index, bsize: int, y: int)
    requires TreeOk(b, ix) && OnSpine(ix, y) && NoneBelow(b, ix, bsize, y)
    requires SizeRefused(b, ix, ix.node[y].size, bsize)
    ensures NoneBelow(b, ix, bsize, ix.node[y].Larger())
  {
    SpineFacts(b, ix, y);
    var lg := ix.node[y].Larger();
    forall a | Large(ix, a) && RootSize(b, ix) <= ix.node[a].size
      && (lg == 0 || (lg in ix.node && ix.node[a].size < ix.node[lg].size))
      ensures !Accepted(b, ix, a, bsize)
    {
      NothingSkipped(b, ix, y, a);
    }
  }

  /** No acceptable block of the tree that is at least as large as its root is smaller than x. */
  ghost predicate LeastFromRoot(b: Build, ix: Index, x: int, bsize: int)
    requires x in ix.node
  {
    forall a {:trigger Accepted(b, ix, a, bsize)} |
      Large(ix, a) && RootSize(b, ix) <= ix.node[a].size && Accepted(b, ix, a, bsize) ::
          ix.node[x].size <= ix.node[a].size
  }

  /**
   `heap_tree_search_aligned`: of the acceptable blocks at least as large as the root, the first one along `child` of
   the smallest size that has any; none exactly if there is none.
   */
  method TreeSearchAligned(b: Build, ram: Ram, lo: int, bsize: int, ghost ix: Index) returns (x: int, ghost k: nat)
    requires IndexOk(b, ix) && Rep(b, lo, ram.m, ix)
    ensures x != 0 ==>
              && Large(ix, x) && Accepted(b, ix, x, bsize) && RootSize(b, ix) <= ix.node[x].size
              && LeastFromRoot(b, ix, x, bsize) && ix.node[x].size in ix.spine
              && var y := ix.spine[ix.node[x].size]; x == Walk(Children(ix), y, k) && NoneOnChain(b, ix, y, k, bsize)
    ensures x == 0 ==> NoneFromRoot(b, ix, bsize)
  {
    var y := FirstLarge(b, ram, lo, bsize, ix);
    x, k := 0, 0;
    while y != 0
      invariant y != 0 ==>
                  OnSpine(ix, y) && Large(ix, y) && bsize <= ix.node[y].size && RootSize(b, ix) <= ix.node[y].size
      invariant NoneBelow(b, ix, bsize, y)
      decreases y != 0, if y in ix.node then Above(ix, ix.node[y].size) else {}
    {
      x, k := SearchChain(b, ram, lo, y, bsize, ix);
      if x != 0 {
        return x, k;
      }
      NoneBelowNext(b, ix, bsize, y);
      SpineFacts(b, ix, y);
      assert Cell(lo, ram.m, ix, y);
      ghost var s := ix.node[y].size;
      y := Rd(ram.m, y + 24);
      if y != 0 {
        SpineFacts(b, ix, y);
        AboveShrinks(ix, s, ix.node[y].size);
      }
    }
  }

  /** The first spine block, from the root upwards, that is large enough. */
  method FirstLarge(b: Build, ram: Ram, lo: int, bsize: int, ghost ix: Index) returns (x: int)
    requires IndexOk(b, ix) && Rep(b, lo, ram.m, ix)
    ensures x != 0 ==> OnSpine(ix, x) && Large(ix, x) && bsize <= ix.node[x].size && RootSize(b, ix) <= ix.node[x].size
    ensures NoneBelow(b, ix, bsize, x)
  {
    x := Rd(ram.m, Slot(b, lo, ListCount(b)));
    assert x == ix.slot[ListCount(b)];
    if x == 0 {
      SizesOnSpine(b, ix);
      return 0;
    }
    SpineFacts(b, ix, x);
    assert Cell(lo, ram.m, ix, x);
    while SizeOf(Rd(ram.m, x + 8)) < bsize && Rd(ram.m, x + 24) != 0
      invariant OnSpine(ix, x) && Large(ix, x) && Cell(lo, ram.m, ix, x) && RootSize(b, ix) <= ix.node[x].size
      invariant NoneBelow(b, ix, bsize, x)
      decreases Above(ix, ix.node[x].size)
    {
      NoneBelowNext(b, ix, bsize, x);
      SpineFacts(b, ix, x);
      ghost var s := ix.node[x].size;
      x := Rd(ram.m, x + 24);
      SpineFacts(b, ix, x);
      assert Cell(lo, ram.m, ix, x);
      AboveShrinks(ix, s, ix.node[x].size);
    }
    if SizeOf(Rd(ram.m, x + 8)) < bsize {
      NoneBelowNext(b, ix, bsize, x);
      return 0;
    }
  }

  /** None of the first k blocks of a chain is acceptable. */
  ghost predicate NoneOnChain(b: Build, ix: Index, y: int, k: nat, bsize: int) {
    forall j {:trigger Walk(Children(ix), y, j)} | 0 <= j < k :: !Accepted(b, ix, Walk(Children(ix), y, j), bsize)
  }

  lemma ChainOneMore(b: Build, ix: Index, y: int, k: nat, bsize: int)
    requires NoneOnChain(b, ix, y, k, bsize) && !Accepted(b, ix, Walk(Children(ix), y, k), bsize)
    ensures NoneOnChain(b, ix, y, k + 1, bsize) && Walk(Children(ix), y, k + 1) == ChildOf(ix, Walk(Children(ix), y, k))
  {
  }

  /** No block of a size is acceptable. */
  ghost predicate SizeRefused(b: Build, ix: Index, s: int, bsize: int) {
    forall a {:trigger Accepted(b, ix, a, bsize)} | Large(ix, a) && ix.node[a].size == s :: !Accepted(b, ix, a, bsize)
  }

  lemma ChainWalked(b: Build, ix: Index, y: int, k: nat, bsize: int)
    requires TreeOk(b, ix) && OnSpine(ix, y) && NoneOnChain(b, ix, y, k, bsize) && Walk(Children(ix), y, k) == 0
    ensures SizeRefused(b, ix, ix.node[y].size, bsize)
  {
    forall a | Large(ix, a) && ix.node[a].size == ix.node[y].size ensures !Accepted(b, ix, a, bsize) {
      var j := ChainMet(b, ix, y, k, a);
    }
  }

  /** The test that the aligned search makes on a block that is large enough. */
  method Accepts(b: Build, ram: Ram, lo: int, x: int, bsize: int, ghost ix: Index) returns (ok: bool)
    requires Rep(b, lo, ram.m, ix) && x in ix.node && bsize <= ix.node[x].size
    ensures ok <==> Accepted(b, ix, x, bsize)
  {
    assert Cell(lo, ram.m, ix, x);
    if PageAligned(x + 16) {
      return true;
    }
    return FitTest(b, x, SizeOf(Rd(ram.m, x + 8)), bsize);
  }

  /** The inner loop of `heap_tree_search_aligned`: a spine node, then its children. */
  method SearchChain(b: Build, ram: Ram, lo: int, y: int, bsize: int, ghost ix: Index) returns (x: int, ghost k: nat)
    requires IndexOk(b, ix) && Rep(b, lo, ram.m, ix) && OnSpine(ix, y) && bsize <= ix.node[y].size
    ensures x != 0 ==>
              && Large(ix, x) && Accepted(b, ix, x, bsize) && ix.node[x].size == ix.node[y].size
              && x == Walk(Children(ix), y, k) && NoneOnChain(b, ix, y, k, bsize)
    ensures x == 0 ==> SizeRefused(b, ix, ix.node[y].size, bsize)
  {
    SpineFacts(b, ix, y);
    k := 0;
    x := y;
    while x != 0
      invariant x != 0 ==> Large(ix, x) && ix.node[x].size == ix.node[y].size
      invariant x == Walk(Children(ix), y, k) && NoneOnChain(b, ix, y, k, bsize)
      decreases if x == 0 then 0 else if OnSpine(ix, x) then 2 else 1, Rank(ix, x)
    {
      var ok := Accepts(b, ram, lo, x, bsize, ix);
      if ok {
        return x, k;
      }
      assert Cell(lo, ram.m, ix, x);
      ChildStep(b, ix, x);
      ChainOneMore(b, ix, y, k, bsize);
      x := Rd(ram.m, x + 32);
      k := k + 1;
    }
    ChainWalked(b, ix, y, k, bsize);
  }
}
