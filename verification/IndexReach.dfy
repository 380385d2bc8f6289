/**
 From the node-by-node invariant to whole structures: walking the pointers from the heap's `free` array
 meets every indexed block, each in one position, the one its size dictates.
 */
module IndexReach {
  import opened Machine
  import opened HeapFormat
  import opened HeapIndex
  import opened FreeTree

  function NextOf(ix: Index, a: int): int { if a in ix.node then ix.node[a].next else 0 }

  function SmallerOf(ix: Index, a: int): int { if a in ix.node then ix.node[a].Smaller() else 0 }

  function LargerOf(ix: Index, a: int): int { if a in ix.node then ix.node[a].Larger() else 0 }

  function ChildOf(ix: Index, a: int): int { if a in ix.node then ix.node[a].child else 0 }

  /** The k-th block from a along a link. */
  function Walk(follow: int -> int, a: int, k: nat): int {
    if k == 0 then a else follow(Walk(follow, a, k - 1))
  }

  function Nexts(ix: Index): int -> int { a => NextOf(ix, a) }

  function Smallers(ix: Index): int -> int { a => SmallerOf(ix, a) }

  function Largers(ix: Index): int -> int { a => LargerOf(ix, a) }

  function Children(ix: Index): int -> int { a => ChildOf(ix, a) }

  // ----- Lists -----

  /** Every small block lies on the list of its size. */
  lemma {:induction false} ListReach(b: Build, ix: Index, a: int) returns (k: nat)
    requires ListsOk(b, ix) && Small(ix, a)
    ensures ListNode(ix, a) && Walk(Nexts(ix), ix.slot[SizeIdx(ix.node[a].size)], k) == a
    decreases ix.clock - Rank(ix, a)
  {
    assert ListNode(ix, a);
    var p := ix.node[a].prev;
    if p == 0 {
      k := 0;
    } else {
      assert Small(ix, p) && ListNode(ix, p);
      k := ListReach(b, ix, p);
      k := k + 1;
    }
  }

  /** Whatever a list holds is indexed, of the size of that list, and further down than what comes before. */
  lemma {:induction false} ListHolds(b: Build, ix: Index, i: int, k: nat)
    requires ListsOk(b, ix) && 0 <= i < ListCount(b)
    requires Walk(Nexts(ix), ix.slot[i], k) != 0
    ensures var a := Walk(Nexts(ix), ix.slot[i], k);
            Small(ix, a) && SizeIdx(ix.node[a].size) == i && (k > 0 ==> Walk(Nexts(ix), ix.slot[i], k - 1) in ix.node)
    ensures k > 0 ==> Rank(ix, Walk(Nexts(ix), ix.slot[i], k)) < Rank(ix, Walk(Nexts(ix), ix.slot[i], k - 1))
    decreases k
  {
    assert SlotOk(ix, i);
    if k > 0 {
      var p := Walk(Nexts(ix), ix.slot[i], k - 1);
      assert p != 0;
      ListHolds(b, ix, i, k - 1);
      assert ListNode(ix, p);
    }
  }

  lemma {:induction false} ListFalls(b: Build, ix: Index, i: int, j: nat, k: nat)
    requires ListsOk(b, ix) && 0 <= i < ListCount(b) && j < k
    requires Walk(Nexts(ix), ix.slot[i], k) != 0
    ensures Walk(Nexts(ix), ix.slot[i], j) != 0
    ensures Rank(ix, Walk(Nexts(ix), ix.slot[i], k)) < Rank(ix, Walk(Nexts(ix), ix.slot[i], j))
    decreases k
  {
    ListHolds(b, ix, i, k);
    if j < k - 1 {
      ListFalls(b, ix, i, j, k - 1);
    }
  }

  /** No block is met twice on the lists: one list, one place. */
  lemma ListOnce(b: Build, ix: Index, i: int, j: nat, i': int, k: nat)
    requires ListsOk(b, ix) && 0 <= i < ListCount(b) && 0 <= i' < ListCount(b)
    requires Walk(Nexts(ix), ix.slot[i], j) == Walk(Nexts(ix), ix.slot[i'], k) != 0
    ensures i == i' && j == k
  {
    ListHolds(b, ix, i, j);
    ListHolds(b, ix, i', k);
    if j < k { ListFalls(b, ix, i, j, k); }
    if k < j { ListFalls(b, ix, i, k, j); }
  }

  // ----- Tree -----

  /** The spine is one sorted line: every spine block is reached from the root, downwards or upwards. */
  lemma {:induction false} SpineReach(b: Build, ix: Index, a: int) returns (k: nat)
    requires TreeOk(b, ix) && OnSpine(ix, a)
    ensures var r := ix.slot[ListCount(b)];
            r in ix.node && if ix.node[a].size <= ix.node[r].size
            then Walk(Smallers(ix), r, k) == a else Walk(Largers(ix), r, k) == a
    ensures a == ix.slot[ListCount(b)] ==> k == 0
    decreases var r := ix.slot[ListCount(b)];
              var d := if r in ix.node then ix.node[a].size - ix.node[r].size else 0;
              if d < 0 then -d else d
  {
    var r := ix.slot[ListCount(b)];
    var s, t := ix.node[a].size, ix.node[r].size;
    SpineFacts(b, ix, a);
    SpineFacts(b, ix, r);
    assert SpinePair(ix, s, t) && SpinePair(ix, t, s);
    if s == t {
      k := 0;
    } else if s < t {
      var l := ix.node[a].Larger();
      SpineFacts(b, ix, l);
      k := SpineReach(b, ix, l);
      k := k + 1;
    } else {
      var l := ix.node[a].Smaller();
      SpineFacts(b, ix, l);
      k := SpineReach(b, ix, l);
      k := k + 1;
    }
  }

  /** Every large block hangs off the spine block of its size. */
  lemma {:induction false} ChainReach(b: Build, ix: Index, a: int) returns (k: nat)
    requires TreeOk(b, ix) && Large(ix, a)
    ensures ix.node[a].size in ix.spine && OnSpine(ix, ix.spine[ix.node[a].size])
    ensures Walk(Children(ix), ix.spine[ix.node[a].size], k) == a
    decreases !OnSpine(ix, a), ix.clock - Rank(ix, a)
  {
    assert TreeNode(b, ix, a) && SpineEntry(ix, ix.node[a].size);
    if OnSpine(ix, a) {
      k := 0;
    } else {
      var p := ix.node[a].parent;
      assert Large(ix, p);
      if !OnSpine(ix, p) { ChildFacts(b, ix, p); }
      k := ChainReach(b, ix, p);
      k := k + 1;
    }
  }

  /** Whatever hangs off a spine block is indexed, of the same size, and further down than what comes before. */
  lemma {:induction false} ChainHolds(b: Build, ix: Index, x: int, k: nat)
    requires TreeOk(b, ix) && OnSpine(ix, x) && Walk(Children(ix), x, k) != 0
    ensures var a := Walk(Children(ix), x, k);
            Large(ix, a) && ix.node[a].size == ix.node[x].size && (k > 0 <==> !OnSpine(ix, a))
    ensures k > 1 ==> Rank(ix, Walk(Children(ix), x, k)) < Rank(ix, Walk(Children(ix), x, k - 1))
    decreases k
  {
    SpineFacts(b, ix, x);
    if k > 0 {
      var p := Walk(Children(ix), x, k - 1);
      assert p != 0;
      ChainHolds(b, ix, x, k - 1);
      if k > 1 { ChildFacts(b, ix, p); }
    }
  }

  lemma {:induction false} ChainFalls(b: Build, ix: Index, x: int, j: nat, k: nat)
    requires TreeOk(b, ix) && OnSpine(ix, x) && 0 < j < k && Walk(Children(ix), x, k) != 0
    ensures Walk(Children(ix), x, j) != 0
    ensures Rank(ix, Walk(Children(ix), x, k)) < Rank(ix, Walk(Children(ix), x, j))
    decreases k
  {
    ChainHolds(b, ix, x, k);
    assert Walk(Children(ix), x, k - 1) != 0;
    if j < k - 1 {
      ChainFalls(b, ix, x, j, k - 1);
    }
  }

  /** No block is met twice in the tree: one spine block, one place in its chain. */
  lemma ChainOnce(b: Build, ix: Index, x: int, j: nat, y: int, k: nat)
    requires TreeOk(b, ix) && OnSpine(ix, x) && OnSpine(ix, y)
    requires Walk(Children(ix), x, j) == Walk(Children(ix), y, k) != 0
    ensures x == y && j == k
  {
    ChainHolds(b, ix, x, j);
    ChainHolds(b, ix, y, k);
    if 0 < j < k { ChainFalls(b, ix, x, j, k); }
    if 0 < k < j { ChainFalls(b, ix, x, k, j); }
  }

  /** A walk that has ended does not go on. */
  lemma {:induction false} WalkEnds(follow: int -> int, a: int, j: nat, k: nat)
    requires follow(0) == 0 && j <= k && Walk(follow, a, j) == 0
    ensures Walk(follow, a, k) == 0
    decreases k
  {
    if j < k { WalkEnds(follow, a, j, k - 1); }
  }

  /** A walk down a chain until its end has met every block of its size. */
  lemma ChainMet(b: Build, ix: Index, y: int, k: nat, a: int) returns (j: nat)
    requires TreeOk(b, ix) && OnSpine(ix, y) && Walk(Children(ix), y, k) == 0
    requires Large(ix, a) && ix.node[a].size == ix.node[y].size
    ensures j < k && Walk(Children(ix), y, j) == a
  {
    j := ChainReach(b, ix, a);
    if k <= j { WalkEnds(Children(ix), y, k, j); }
  }

  /** A walk down a list to a last block has met every block of its list up to that one. */
  lemma ListMet(b: Build, ix: Index, i: int, k: nat, a: int) returns (j: nat)
    requires ListsOk(b, ix) && 0 <= i < ListCount(b) && NextOf(ix, Walk(Nexts(ix), ix.slot[i], k)) == 0
    requires Small(ix, a) && SizeIdx(ix.node[a].size) == i
    ensures j <= k && Walk(Nexts(ix), ix.slot[i], j) == a
  {
    j := ListReach(b, ix, a);
    if k < j { WalkEnds(Nexts(ix), ix.slot[i], k + 1, j); }
  }
}
