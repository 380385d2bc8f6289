/**
 The size-sorted spine of large free blocks with its chains of equal-sized children:
 what `heap_tree_insert` and `heap_tree_delete` do to the index, and that it stays well formed.
 */
module FreeTree {
  import opened Machine
  import opened HeapFormat
  import opened HeapIndex

  /** A place on the spine for size s: sm and lg are neighbours, or 0 at an end, and s falls between them. */
  ghost predicate Gap(ix: Index, s: int, sm: int, lg: int) {
    && s !in ix.spine
    && (sm != 0 ==> OnSpine(ix, sm) && ix.node[sm].size < s && ix.node[sm].Larger() == lg)
    && (lg != 0 ==> OnSpine(ix, lg) && s < ix.node[lg].size && ix.node[lg].Smaller() == sm)
    && (sm == 0 ==> forall t | t in ix.spine :: s < t)
    && (lg == 0 ==> forall t | t in ix.spine :: t < s)
  }

  /** x has joined the spine between sm and lg. */
  ghost predicate SpineInserted(ix: Index, ix': Index, x: int, s: int, sm: int, lg: int) {
    && x !in ix.node
    && ix'.node.Keys == ix.node.Keys + {x}
    && ix'.node[x] == Node(s, sm, lg, 0, 0)
    && (forall a {:trigger ix'.node[a]} | a in ix.node ::
          ix'.node[a] == (if a == sm then ix.node[a].(next := x)
                          else if a == lg then ix.node[a].(prev := x) else ix.node[a]))
    && ix'.rank == ix.rank[x := ix.clock] && ix'.clock == ix.clock + 1
    && ix'.spine == ix.spine[s := x]
    && |ix.slot| > 0
    && ix'.slot == if sm == 0 && lg == 0 then ix.slot[|ix.slot| - 1 := x] else ix.slot
  }

  /** A spine node of the index with everything the invariant says about it. */
  lemma SpineFacts(b: Build, ix: Index, a: int)
    requires TreeOk(b, ix) && OnSpine(ix, a)
    ensures Large(ix, a) && SpineNode(b, ix, a) && Rank(ix, a) < ix.clock
  {
    assert SpineEntry(ix, ix.node[a].size) && TreeNode(b, ix, a);
  }

  lemma ChildFacts(b: Build, ix: Index, a: int)
    requires TreeOk(b, ix) && Large(ix, a) && !OnSpine(ix, a)
    ensures ix.node[a].size in ix.spine && ChildNode(ix, a) && Rank(ix, a) < ix.clock
  {
    assert TreeNode(b, ix, a);
  }

  lemma SpineInsertedSpine(b: Build, ix: Index, ix': Index, x: int, s: int, sm: int, lg: int, a: int)
    requires TreeOk(b, ix) && s > HEAP_LIST_MAX && Gap(ix, s, sm, lg)
    requires SpineInserted(ix, ix', x, s, sm, lg)
    requires OnSpine(ix, a)
    ensures TreeNode(b, ix', a)
  {
    SpineFacts(b, ix, a);
  }

  lemma SpineInsertedChild(b: Build, ix: Index, ix': Index, x: int, s: int, sm: int, lg: int, a: int)
    requires TreeOk(b, ix) && s > HEAP_LIST_MAX && Gap(ix, s, sm, lg)
    requires SpineInserted(ix, ix', x, s, sm, lg)
    requires Large(ix, a) && !OnSpine(ix, a)
    ensures TreeNode(b, ix', a)
  {
    ChildFacts(b, ix, a);
  }

  lemma SpineInsertedPair(b: Build, ix: Index, ix': Index, x: int, s: int, sm: int, lg: int, t: int, u: int)
    requires TreeOk(b, ix) && s > HEAP_LIST_MAX && Gap(ix, s, sm, lg)
    requires SpineInserted(ix, ix', x, s, sm, lg)
    requires t in ix'.spine && u in ix'.spine && t < u
    ensures SpinePair(ix', t, u)
  {
    if t == s {
      var r := ix.node[lg].size;
      SpineFacts(b, ix, lg);
      assert SpineEntry(ix, u) && SpinePair(ix, u, r) && SpinePair(ix, r, u);
      SpineFacts(b, ix, ix.spine[u]);
    } else if u == s {
      var r := ix.node[sm].size;
      SpineFacts(b, ix, sm);
      assert SpineEntry(ix, t) && SpinePair(ix, r, t) && SpinePair(ix, t, r);
      SpineFacts(b, ix, ix.spine[t]);
    } else {
      assert SpineEntry(ix, t) && SpineEntry(ix, u) && SpinePair(ix, t, u);
      SpineFacts(b, ix, ix.spine[t]);
      SpineFacts(b, ix, ix.spine[u]);
    }
  }

  lemma SpineInsertedOk(b: Build, ix: Index, ix': Index, x: int, s: int, sm: int, lg: int)
    requires IndexOk(b, ix) && s > HEAP_LIST_MAX && Gap(ix, s, sm, lg)
    requires SpineInserted(ix, ix', x, s, sm, lg) && x != 0
    ensures IndexOk(b, ix')
  {
    if sm != 0 { SpineIsLarge(b, ix, sm); }
    if lg != 0 { SpineIsLarge(b, ix, lg); }
    ListsKept(b, ix, ix');
    forall a | Large(ix', a) ensures TreeNode(b, ix', a) {
      if a != x {
        if OnSpine(ix, a) {
          SpineInsertedSpine(b, ix, ix', x, s, sm, lg, a);
        } else {
          SpineInsertedChild(b, ix, ix', x, s, sm, lg, a);
        }
      }
    }
    forall t | t in ix'.spine ensures SpineEntry(ix', t) {
      assert t != s ==> SpineEntry(ix, t);
    }
    forall t, u | t in ix'.spine && u in ix'.spine ensures SpinePair(ix', t, u) {
      if t < u { SpineInsertedPair(b, ix, ix', x, s, sm, lg, t, u); }
    }
  }

  /** A spine node whose parent link still names the node it was promoted from. */
  predicate Stale(ix: Index, x: int) {
    OnSpine(ix, x) && ix.node[x].parent != 0
  }

  lemma NeverStale(b: Build, ix: Index, x: int)
    requires b.Repaired? && TreeOk(b, ix)
    ensures !Stale(ix, x)
  {
    if OnSpine(ix, x) { SpineFacts(b, ix, x); }
  }

  /** Removing a block makes no spine node stale but the child that takes its place. */
  ghost predicate StaleAfter(ix: Index, ix': Index, block: int) {
    forall a {:trigger Stale(ix', a)} | Stale(ix', a) ::
      Stale(ix, a) || (OnSpine(ix, block) && ix.node[block].child == a)
  }

  // ----- A block joins or leaves a chain of children -----

  /** x has become the first child of the spine node p. */
  ghost predicate ChildInserted(ix: Index, ix': Index, x: int, p: int) {
    && x !in ix.node && OnSpine(ix, p)
    && ix'.node.Keys == ix.node.Keys + {x}
    && ix'.node[x] == Node(ix.node[p].size, 0, 0, ix.node[p].child, p)
    && (forall a {:trigger ix'.node[a]} | a in ix.node ::
          ix'.node[a] == (if a == p then ix.node[a].(child := x)
                          else if a == ix.node[p].child then ix.node[a].(parent := x) else ix.node[a]))
    && ix'.rank == ix.rank[x := ix.clock] && ix'.clock == ix.clock + 1
    && ix'.spine == ix.spine && ix'.slot == ix.slot
  }

  /** x, a child, has left its chain. */
  ghost predicate ChildRemoved(ix: Index, ix': Index, x: int) {
    && x in ix.node
    && ix'.node.Keys == ix.node.Keys - {x}
    && (forall a {:trigger ix'.node[a]} | a in ix'.node ::
          ix'.node[a] == (if a == ix.node[x].parent then ix.node[a].(child := ix.node[x].child)
                          else if a == ix.node[x].child then ix.node[a].(parent := ix.node[x].parent) else ix.node[a]))
    && ix'.rank == ix.rank && ix'.clock == ix.clock
    && ix'.spine == ix.spine && ix'.slot == ix.slot
  }

  lemma SpineKept(b: Build, ix: Index, ix': Index)
    requires TreeOk(b, ix)
    requires ix'.spine == ix.spine && |ix'.slot| == |ix.slot| && 0 !in ix'.node
    requires ix'.slot[|ix.slot| - 1] == ix.slot[|ix.slot| - 1]
    requires forall a | OnSpine(ix, a) :: a in ix'.node &&
               ix'.node[a].size == ix.node[a].size && ix'.node[a].prev == ix.node[a].prev
                 && ix'.node[a].next == ix.node[a].next
    requires forall a {:trigger TreeNode(b, ix', a)} | Large(ix', a) :: TreeNode(b, ix', a)
    ensures TreeOk(b, ix')
  {
    forall s | s in ix'.spine ensures SpineEntry(ix', s) {
      assert SpineEntry(ix, s) && OnSpine(ix, ix.spine[s]);
    }
    forall s, t | s in ix'.spine && t in ix'.spine ensures SpinePair(ix', s, t) {
      assert SpinePair(ix, s, t) && SpineEntry(ix, s) && SpineEntry(ix, t);
      SpineFacts(b, ix, ix.spine[s]);
      SpineFacts(b, ix, ix.spine[t]);
    }
  }

  lemma ChildInsertedSpine(b: Build, ix: Index, ix': Index, x: int, p: int, a: int)
    requires TreeOk(b, ix) && ChildInserted(ix, ix', x, p) && x != 0
    requires OnSpine(ix, a)
    ensures TreeNode(b, ix', a)
  {
    SpineFacts(b, ix, p);
    SpineFacts(b, ix, a);
  }

  lemma ChildInsertedChild(b: Build, ix: Index, ix': Index, x: int, p: int, a: int)
    requires TreeOk(b, ix) && ChildInserted(ix, ix', x, p) && x != 0
    requires Large(ix', a) && !OnSpine(ix, a)
    ensures TreeNode(b, ix', a)
  {
    SpineFacts(b, ix, p);
    if a != x { ChildFacts(b, ix, a); }
    if ix.node[p].child != 0 { ChildFacts(b, ix, ix.node[p].child); }
  }

  lemma ChildInsertedOk(b: Build, ix: Index, ix': Index, x: int, p: int)
    requires IndexOk(b, ix) && ChildInserted(ix, ix', x, p) && x != 0
    ensures IndexOk(b, ix')
  {
    SpineFacts(b, ix, p);
    var c := ix.node[p].child;
    if c != 0 { ChildFacts(b, ix, c); }
    ListsKept(b, ix, ix');
    forall a | Large(ix', a) ensures TreeNode(b, ix', a) {
      if OnSpine(ix, a) {
        ChildInsertedSpine(b, ix, ix', x, p, a);
      } else {
        ChildInsertedChild(b, ix, ix', x, p, a);
      }
    }
    SpineKept(b, ix, ix');
  }

  lemma ChildRemovedSpine(b: Build, ix: Index, ix': Index, x: int, a: int)
    requires TreeOk(b, ix) && Large(ix, x) && !OnSpine(ix, x) && ChildRemoved(ix, ix', x)
    requires OnSpine(ix, a)
    ensures TreeNode(b, ix', a)
  {
    ChildFacts(b, ix, x);
    SpineFacts(b, ix, a);
    if ix.node[x].child != 0 { ChildFacts(b, ix, ix.node[x].child); }
  }

  lemma ChildRemovedChild(b: Build, ix: Index, ix': Index, x: int, a: int)
    requires TreeOk(b, ix) && Large(ix, x) && !OnSpine(ix, x) && ChildRemoved(ix, ix', x)
    requires Large(ix', a) && !OnSpine(ix, a)
    ensures TreeNode(b, ix', a)
  {
    ChildFacts(b, ix, x);
    ChildFacts(b, ix, a);
    var c, p := ix.node[x].child, ix.node[x].parent;
    if c != 0 { ChildFacts(b, ix, c); }
    if !OnSpine(ix, p) { ChildFacts(b, ix, p); }
  }

  lemma ChildRemovedOk(b: Build, ix: Index, ix': Index, x: int)
    requires IndexOk(b, ix) && Large(ix, x) && !OnSpine(ix, x) && ChildRemoved(ix, ix', x)
    ensures IndexOk(b, ix')
  {
    ChildFacts(b, ix, x);
    var c := ix.node[x].child;
    if c != 0 { ChildFacts(b, ix, c); }
    ListsKept(b, ix, ix');
    forall a | Large(ix', a) ensures TreeNode(b, ix', a) {
      if OnSpine(ix, a) {
        ChildRemovedSpine(b, ix, ix', x, a);
      } else {
        ChildRemovedChild(b, ix, ix', x, a);
      }
    }
    forall a | OnSpine(ix, a) ensures a in ix'.node && ix'.node[a].size == ix.node[a].size {
      SpineFacts(b, ix, a);
    }
    SpineKept(b, ix, ix');
  }

  // ----- A spine node leaves -----

  /** The first child of the spine node x has taken its place. */
  ghost predicate Promoted(b: Build, ix: Index, ix': Index, x: int) {
    && OnSpine(ix, x) && ix.node[x].child in ix.node
    && ix'.node.Keys == ix.node.Keys - {x}
    && var n := ix.node[x];
    && (forall a {:trigger ix'.node[a]} | a in ix'.node ::
          ix'.node[a] ==
          if a == n.child then
            ix.node[a].(prev := n.prev, next := n.next, parent := if b.Repaired? then 0 else ix.node[a].parent)
          else if a == n.Smaller() then ix.node[a].(next := n.child)
          else if a == n.Larger() then ix.node[a].(prev := n.child) else ix.node[a])
    && ix'.rank == ix.rank && ix'.clock == ix.clock
    && ix'.spine == ix.spine[n.size := n.child]
    && |ix.slot| > 0
    && ix'.slot == if ix.slot[|ix.slot| - 1] == x then ix.slot[|ix.slot| - 1 := n.child] else ix.slot
  }

  lemma PromotedLinks(b: Build, ix: Index, ix': Index, x: int, a: int)
    requires TreeOk(b, ix) && Promoted(b, ix, ix', x)
    requires OnSpine(ix, a) && a != x
    ensures a in ix'.node && SmallerOk(ix', a) && LargerOk(ix', a)
  {
    SpineFacts(b, ix, x);
    ChildFacts(b, ix, ix.node[x].child);
    SpineFacts(b, ix, a);
  }

  lemma PromotedSpine(b: Build, ix: Index, ix': Index, x: int, a: int)
    requires TreeOk(b, ix) && Promoted(b, ix, ix', x)
    requires OnSpine(ix, a) && a != x
    ensures TreeNode(b, ix', a)
  {
    PromotedLinks(b, ix, ix', x, a);
    SpineFacts(b, ix, x);
    ChildFacts(b, ix, ix.node[x].child);
    SpineFacts(b, ix, a);
  }

  lemma PromotedChild(b: Build, ix: Index, ix': Index, x: int, a: int)
    requires TreeOk(b, ix) && Promoted(b, ix, ix', x)
    requires Large(ix, a) && !OnSpine(ix, a)
    ensures TreeNode(b, ix', a)
  {
    var n := ix.node[x];
    SpineFacts(b, ix, x);
    ChildFacts(b, ix, n.child);
    ChildFacts(b, ix, a);
    if n.Smaller() != 0 { SpineFacts(b, ix, n.Smaller()); }
    if n.Larger() != 0 { SpineFacts(b, ix, n.Larger()); }
  }

  lemma PromotedPair(b: Build, ix: Index, ix': Index, x: int, t: int, u: int)
    requires TreeOk(b, ix) && Promoted(b, ix, ix', x)
    requires t in ix'.spine && u in ix'.spine && t < u
    ensures SpinePair(ix', t, u)
  {
    SpineFacts(b, ix, x);
    ChildFacts(b, ix, ix.node[x].child);
    assert SpineEntry(ix, t) && SpineEntry(ix, u) && SpinePair(ix, t, u);
    SpineFacts(b, ix, ix.spine[t]);
    SpineFacts(b, ix, ix.spine[u]);
  }

  lemma PromotedOk(b: Build, ix: Index, ix': Index, x: int)
    requires IndexOk(b, ix) && Promoted(b, ix, ix', x)
    ensures IndexOk(b, ix')
  {
    var n := ix.node[x];
    SpineFacts(b, ix, x);
    ChildFacts(b, ix, n.child);
    if n.Smaller() != 0 { SpineFacts(b, ix, n.Smaller()); }
    if n.Larger() != 0 { SpineFacts(b, ix, n.Larger()); }
    ListsKept(b, ix, ix');
    forall a | Large(ix', a) ensures TreeNode(b, ix', a) {
      if OnSpine(ix, a) {
        PromotedSpine(b, ix, ix', x, a);
      } else {
        PromotedChild(b, ix, ix', x, a);
      }
    }
    forall t | t in ix'.spine ensures SpineEntry(ix', t) {
      assert t in ix.spine && SpineEntry(ix, t);
    }
    forall t, u | t in ix'.spine && u in ix'.spine ensures SpinePair(ix', t, u) {
      if t < u { PromotedPair(b, ix, ix', x, t, u); }
    }
  }

  /** The spine node x, which had no child, has left. */
  ghost predicate SpineRemoved(ix: Index, ix': Index, x: int) {
    && OnSpine(ix, x) && ix.node[x].child == 0
    && ix'.node.Keys == ix.node.Keys - {x}
    && var n := ix.node[x];
    && (forall a {:trigger ix'.node[a]} | a in ix'.node ::
          ix'.node[a] == (if a == n.Smaller() then ix.node[a].(next := n.Larger())
                          else if a == n.Larger() then ix.node[a].(prev := n.Smaller()) else ix.node[a]))
    && ix'.rank == ix.rank && ix'.clock == ix.clock
    && ix'.spine == ix.spine - {n.size}
    && |ix.slot| > 0
    && ix'.slot == if ix.slot[|ix.slot| - 1] == x
                   then ix.slot[|ix.slot| - 1 := if n.Smaller() != 0 then n.Smaller() else n.Larger()] else ix.slot
  }

  /** Every chain of children hangs off its spine node, so a childless spine node is the only block of its size. */
  lemma {:induction false} OnlyOfItsSize(b: Build, ix: Index, x: int, a: int)
    requires TreeOk(b, ix) && OnSpine(ix, x) && ix.node[x].child == 0
    requires a in ix.node && ix.node[a].size == ix.node[x].size
    ensures a == x
    decreases ix.clock - Rank(ix, a)
  {
    SpineFacts(b, ix, x);
    if a != x {
      ChildFacts(b, ix, a);
      var p := ix.node[a].parent;
      if p != x {
        ChildFacts(b, ix, p);
        OnlyOfItsSize(b, ix, x, p);
      }
    }
  }

  lemma SpineRemovedSmaller(b: Build, ix: Index, ix': Index, x: int, a: int)
    requires TreeOk(b, ix) && SpineRemoved(ix, ix', x)
    requires OnSpine(ix, a) && a != x
    ensures a in ix'.node && SmallerOk(ix', a)
  {
    SpineFacts(b, ix, x);
    SpineFacts(b, ix, a);
    if ix.node[x].Smaller() != 0 { SpineFacts(b, ix, ix.node[x].Smaller()); }
  }

  lemma SpineRemovedLarger(b: Build, ix: Index, ix': Index, x: int, a: int)
    requires TreeOk(b, ix) && SpineRemoved(ix, ix', x)
    requires OnSpine(ix, a) && a != x
    ensures a in ix'.node && LargerOk(ix', a)
  {
    SpineFacts(b, ix, x);
    SpineFacts(b, ix, a);
    if ix.node[x].Larger() != 0 { SpineFacts(b, ix, ix.node[x].Larger()); }
  }

  lemma SpineRemovedSpine(b: Build, ix: Index, ix': Index, x: int, a: int)
    requires TreeOk(b, ix) && SpineRemoved(ix, ix', x)
    requires OnSpine(ix, a) && a != x
    ensures TreeNode(b, ix', a)
  {
    SpineRemovedSmaller(b, ix, ix', x, a);
    SpineRemovedLarger(b, ix, ix', x, a);
    SpineFacts(b, ix, x);
    SpineFacts(b, ix, a);
    if ix.node[a].child != 0 { ChildFacts(b, ix, ix.node[a].child); }
  }

  lemma SpineRemovedChild(b: Build, ix: Index, ix': Index, x: int, a: int)
    requires TreeOk(b, ix) && SpineRemoved(ix, ix', x)
    requires Large(ix, a) && !OnSpine(ix, a)
    ensures TreeNode(b, ix', a)
  {
    var n := ix.node[x];
    SpineFacts(b, ix, x);
    ChildFacts(b, ix, a);
    if ix.node[a].size == n.size { OnlyOfItsSize(b, ix, x, a); }
    if n.Smaller() != 0 { SpineFacts(b, ix, n.Smaller()); }
    if n.Larger() != 0 { SpineFacts(b, ix, n.Larger()); }
  }

  lemma SpineRemovedPair(b: Build, ix: Index, ix': Index, x: int, t: int, u: int)
    requires TreeOk(b, ix) && SpineRemoved(ix, ix', x)
    requires t in ix'.spine && u in ix'.spine && t < u
    ensures SpinePair(ix', t, u)
  {
    var s := ix.node[x].size;
    SpineFacts(b, ix, x);
    assert SpineEntry(ix, t) && SpineEntry(ix, u);
    assert SpinePair(ix, t, u) && SpinePair(ix, t, s) && SpinePair(ix, s, u);
    SpineFacts(b, ix, ix.spine[t]);
    SpineFacts(b, ix, ix.spine[u]);
  }

  lemma SpineRemovedRoot(b: Build, ix: Index, ix': Index, x: int)
    requires TreeOk(b, ix) && SpineRemoved(ix, ix', x)
    ensures RootOk(ix')
  {
    var n := ix.node[x];
    SpineFacts(b, ix, x);
    if ix.slot[|ix.slot| - 1] == x {
      if n.Smaller() != 0 {
        SpineFacts(b, ix, n.Smaller());
      } else if n.Larger() != 0 {
        SpineFacts(b, ix, n.Larger());
      } else {
        forall t | t in ix.spine ensures t == n.size {
          assert SpineEntry(ix, t) && SpinePair(ix, t, n.size) && SpinePair(ix, n.size, t);
        }
      }
    }
  }

  lemma SpineRemovedOk(b: Build, ix: Index, ix': Index, x: int)
    requires IndexOk(b, ix) && SpineRemoved(ix, ix', x)
    ensures IndexOk(b, ix')
  {
    var n := ix.node[x];
    SpineFacts(b, ix, x);
    if n.Smaller() != 0 { SpineFacts(b, ix, n.Smaller()); }
    if n.Larger() != 0 { SpineFacts(b, ix, n.Larger()); }
    ListsKept(b, ix, ix');
    forall a | Large(ix', a) ensures TreeNode(b, ix', a) {
      if OnSpine(ix, a) {
        SpineRemovedSpine(b, ix, ix', x, a);
      } else {
        SpineRemovedChild(b, ix, ix', x, a);
      }
    }
    forall t | t in ix'.spine ensures SpineEntry(ix', t) {
      assert SpineEntry(ix, t);
    }
    forall t, u | t in ix'.spine && u in ix'.spine ensures SpinePair(ix', t, u) {
      if t < u { SpineRemovedPair(b, ix, ix', x, t, u); }
    }
    SpineRemovedRoot(b, ix, ix', x);
  }
}
