/**
 The free-block index of the heap: an array of doubly linked lists, one per small size, and a
 size-sorted doubly linked spine for large blocks, each spine node carrying a chain of equal-sized
 children. The invariant is stated node by node, so that an update is checked on the nodes it touches.
 */
module HeapIndex {
  import opened Machine
  import opened HeapFormat

  /**
   The header size and the link words of a free block.
   A list block uses prev and next; a tree block uses the same two words as `smaller_block` and
   `larger_block`, and two more.
   */
  datatype Node = Node(size: int, prev: int, next: int, child: int, parent: int) {
    function Smaller(): int { prev }
    function Larger(): int { next }
  }

  /**
   node: the indexed blocks, by address.
   slot: the `free` array; its last entry is the root of the tree.
   rank: falls strictly along `next` in a list and along a chain of children.
   spine: the node on the spine for each large size present.
   */
  datatype Index = Index(node: map<int, Node>, slot: seq<int>, rank: map<int, nat>, clock: nat, spine: map<int, int>)

  function Rank(ix: Index, a: int): nat {
    if a in ix.rank then ix.rank[a] else 0
  }

  /** An indexed block of the given size. */
  predicate Has(ix: Index, a: int, s: int) {
    a in ix.node && ix.node[a].size == s
  }

  predicate OnSpine(ix: Index, a: int) {
    a in ix.node && ix.node[a].size in ix.spine && ix.spine[ix.node[a].size] == a
  }

  predicate ListNode(ix: Index, a: int)
    requires a in ix.node
  {
    var n := ix.node[a];
    && GoodSize(n.size) && SizeIdx(n.size) < |ix.slot| - 1
    && (n.prev == 0 ==> ix.slot[SizeIdx(n.size)] == a)
    && (n.prev != 0 ==> Has(ix, n.prev, n.size) && ix.node[n.prev].next == a)
    && (n.next != 0 ==> Has(ix, n.next, n.size) && ix.node[n.next].prev == a && Rank(ix, n.next) < Rank(ix, a))
  }

  predicate SmallerOk(ix: Index, a: int)
    requires a in ix.node
  {
    var n := ix.node[a];
    n.Smaller() != 0 ==>
      OnSpine(ix, n.Smaller()) && ix.node[n.Smaller()].size < n.size && ix.node[n.Smaller()].Larger() == a
  }

  predicate LargerOk(ix: Index, a: int)
    requires a in ix.node
  {
    var n := ix.node[a];
    n.Larger() != 0 ==>
      OnSpine(ix, n.Larger()) && n.size < ix.node[n.Larger()].size && ix.node[n.Larger()].Smaller() == a
  }

  /** The child of a is a block of the same size that is not on the spine and names a as its parent. */
  predicate ChildOk(ix: Index, a: int)
    requires a in ix.node
  {
    var n := ix.node[a];
    n.child != 0 ==> Has(ix, n.child, n.size) && !OnSpine(ix, n.child) && ix.node[n.child].parent == a
  }

  predicate SpineNode(b: Build, ix: Index, a: int)
    requires a in ix.node
  {
    SmallerOk(ix, a) && LargerOk(ix, a) && ChildOk(ix, a) && (b.Repaired? ==> ix.node[a].parent == 0)
  }

  predicate ChildNode(ix: Index, a: int)
    requires a in ix.node
  {
    var n := ix.node[a];
    && n.parent != 0 && Has(ix, n.parent, n.size) && ix.node[n.parent].child == a
    && ChildOk(ix, a) && (n.child != 0 ==> Rank(ix, n.child) < Rank(ix, a))
    && n.Smaller() == 0 && n.Larger() == 0
  }

  /** Everything the tree invariant says about one large block. */
  predicate TreeNode(b: Build, ix: Index, a: int)
    requires a in ix.node
  {
    && Rank(ix, a) < ix.clock
    && ix.node[a].size in ix.spine
    && if OnSpine(ix, a) then SpineNode(b, ix, a) else ChildNode(ix, a)
  }

  predicate SpineEntry(ix: Index, s: int)
    requires s in ix.spine
  {
    s > HEAP_LIST_MAX && Has(ix, ix.spine[s], s)
  }

  /** The spine links skip no size: between two spine sizes each link stays between them. */
  predicate SpinePair(ix: Index, s: int, t: int)
    requires s in ix.spine && t in ix.spine
  {
    s < t && ix.spine[s] in ix.node && ix.spine[t] in ix.node ==>
      var lg, sm := ix.node[ix.spine[s]].Larger(), ix.node[ix.spine[t]].Smaller();
      && lg in ix.node && ix.node[lg].size <= t
      && sm in ix.node && s <= ix.node[sm].size
  }

  predicate SlotOk(ix: Index, i: int)
    requires 0 <= i < |ix.slot|
  {
    var h := ix.slot[i];
    h != 0 ==>
      h in ix.node && ix.node[h].size <= HEAP_LIST_MAX && SizeIdx(ix.node[h].size) == i && ix.node[h].prev == 0
  }

  predicate RootOk(ix: Index)
    requires |ix.slot| > 0
  {
    var r := ix.slot[|ix.slot| - 1];
    && (r == 0 ==> ix.spine == map[])
    && (r != 0 ==> OnSpine(ix, r))
  }

  predicate Small(ix: Index, a: int) {
    a in ix.node && ix.node[a].size <= HEAP_LIST_MAX
  }

  predicate Large(ix: Index, a: int) {
    a in ix.node && ix.node[a].size > HEAP_LIST_MAX
  }

  ghost predicate ListsOk(b: Build, ix: Index) {
    && |ix.slot| == ListCount(b) + 1
    && 0 !in ix.node
    && (forall a {:trigger ListNode(ix, a)} | Small(ix, a) :: ListNode(ix, a) && Rank(ix, a) < ix.clock)
    && (forall i {:trigger SlotOk(ix, i)} | 0 <= i < ListCount(b) :: SlotOk(ix, i))
  }

  ghost predicate TreeOk(b: Build, ix: Index) {
    && |ix.slot| == ListCount(b) + 1
    && 0 !in ix.node
    && (forall a {:trigger TreeNode(b, ix, a)} | Large(ix, a) :: TreeNode(b, ix, a))
    && (forall s {:trigger SpineEntry(ix, s)} | s in ix.spine :: SpineEntry(ix, s))
    && (forall s, t {:trigger SpinePair(ix, s, t)} | s in ix.spine && t in ix.spine :: SpinePair(ix, s, t))
    && RootOk(ix)
  }

  ghost predicate IndexOk(b: Build, ix: Index) {
    ListsOk(b, ix) && TreeOk(b, ix)
  }

  /** Agreement on the small blocks and the list slots. */
  ghost predicate SameLists(ix: Index, ix': Index) {
    && |ix'.slot| == |ix.slot| && (forall i | 0 <= i < |ix.slot| - 1 :: ix'.slot[i] == ix.slot[i])
    && 0 !in ix'.node && ix.clock <= ix'.clock
    && (forall a {:trigger Small(ix, a)} {:trigger Small(ix', a)} ::
          && (Small(ix', a) <==> Small(ix, a))
          && (Small(ix, a) ==> ix'.node[a] == ix.node[a] && Rank(ix', a) == Rank(ix, a)))
  }

  /** Agreement on the large blocks and the root. */
  ghost predicate SameTree(ix: Index, ix': Index) {
    && |ix'.slot| == |ix.slot| && |ix.slot| > 0 && ix'.slot[|ix.slot| - 1] == ix.slot[|ix.slot| - 1]
    && 0 !in ix'.node && ix.clock <= ix'.clock
    && ix'.spine == ix.spine
    && (forall a {:trigger Large(ix, a)} {:trigger Large(ix', a)} ::
          && (Large(ix', a) <==> Large(ix, a))
          && (Large(ix, a) ==> ix'.node[a] == ix.node[a] && Rank(ix', a) == Rank(ix, a)))
  }

  lemma ListsKept(b: Build, ix: Index, ix': Index)
    requires ListsOk(b, ix) && SameLists(ix, ix')
    ensures ListsOk(b, ix')
  {
    forall a | Small(ix', a) ensures ListNode(ix', a) && Rank(ix', a) < ix'.clock {
      assert Small(ix, a) && ListNode(ix, a);
      assert ix.node[a].next != 0 ==> Small(ix, ix.node[a].next);
      assert ix.node[a].prev != 0 ==> Small(ix, ix.node[a].prev);
    }
    forall i | 0 <= i < ListCount(b) ensures SlotOk(ix', i) {
      assert SlotOk(ix, i);
      assert ix.slot[i] != 0 ==> Small(ix, ix.slot[i]);
    }
  }

  lemma SpineIsLarge(b: Build, ix: Index, a: int)
    requires TreeOk(b, ix) && OnSpine(ix, a)
    ensures Large(ix, a)
  {
    assert SpineEntry(ix, ix.node[a].size);
  }

  lemma TreeNodeKept(b: Build, ix: Index, ix': Index, a: int)
    requires TreeOk(b, ix) && SameTree(ix, ix') && Large(ix', a)
    ensures TreeNode(b, ix', a)
  {
    assert Large(ix, a) && TreeNode(b, ix, a);
    var n := ix.node[a];
    if OnSpine(ix, a) {
      if n.prev != 0 { SpineIsLarge(b, ix, n.prev); }
      if n.next != 0 { SpineIsLarge(b, ix, n.next); }
    } else {
      assert Large(ix, n.parent);
    }
    assert n.child != 0 ==> Large(ix, n.child);
  }

  lemma TreeKept(b: Build, ix: Index, ix': Index)
    requires TreeOk(b, ix) && SameTree(ix, ix')
    ensures TreeOk(b, ix')
  {
    forall a | Large(ix', a) ensures TreeNode(b, ix', a) {
      TreeNodeKept(b, ix, ix', a);
    }
    forall s | s in ix'.spine ensures SpineEntry(ix', s) {
      assert SpineEntry(ix, s) && Large(ix, ix.spine[s]);
    }
    forall s, t | s in ix'.spine && t in ix'.spine ensures SpinePair(ix', s, t) {
      assert SpinePair(ix, s, t) && SpineEntry(ix, s) && SpineEntry(ix, t);
      assert Large(ix, ix.spine[s]) && Large(ix, ix.spine[t]);
      assert TreeNode(b, ix, ix.spine[s]) && TreeNode(b, ix, ix.spine[t]);
      if s < t {
        SpineIsLarge(b, ix, ix.node[ix.spine[s]].next);
        SpineIsLarge(b, ix, ix.node[ix.spine[t]].prev);
      }
    }
    if ix.slot[|ix.slot| - 1] != 0 { SpineIsLarge(b, ix, ix.slot[|ix.slot| - 1]); }
  }

  // ----- Single assignments -----

  datatype Link = PrevLink | NextLink | ChildLink | ParentLink

  function SetLink(ix: Index, x: int, f: Link, v: int): Index
    requires x in ix.node
  {
    var n := ix.node[x];
    var n' := match f
      case PrevLink => n.(prev := v)
      case NextLink => n.(next := v)
      case ChildLink => n.(child := v)
      case ParentLink => n.(parent := v);
    ix.(node := ix.node[x := n'])
  }

  function SetSlot(ix: Index, i: int, v: int): Index
    requires 0 <= i < |ix.slot|
  {
    ix.(slot := ix.slot[i := v])
  }

  /** The index without a block. */
  function Drop(ix: Index, x: int): Index {
    ix.(node := ix.node - {x})
  }

  /** The index with a new block, ranked above all others. */
  function Enter(ix: Index, x: int, n: Node): Index {
    ix.(node := ix.node[x := n], rank := ix.rank[x := ix.clock], clock := ix.clock + 1)
  }
}
