/** `heap_search`: the lists from the requested size class upwards, then the tree. */
module HeapSearch {
  import opened Machine
  import opened HeapFormat
  import opened HeapIndex
  import opened IndexMemory
  import opened HeapTree
  import opened IndexReach

  /** Following `prev_block` from any list block ends at the head of its list, so that list is not empty. */
  lemma {:induction false} HeadNotEmpty(b: Build, ix: Index, a: int)
    requires ListsOk(b, ix) && Small(ix, a)
    ensures ListNode(ix, a) && ix.slot[SizeIdx(ix.node[a].size)] != 0
    decreases ix.clock - Rank(ix, a)
  {
    assert ListNode(ix, a);
    var p := ix.node[a].prev;
    if p != 0 {
      assert Small(ix, p) && ListNode(ix, p);
      HeadNotEmpty(b, ix, p);
    }
  }

  /** x is indexed, large enough, and no indexed block that is large enough is smaller. */
  ghost predicate BestFit(ix: Index, x: int, bsize: int) {
    && x in ix.node && bsize <= ix.node[x].size
    && forall a | a in ix.node && bsize <= ix.node[a].size :: ix.node[x].size <= ix.node[a].size
  }

  /** The block an unaligned search returns: of the best fits, the head of their list or the one on the spine. */
  ghost predicate Chosen(ix: Index, x: int, bsize: int) {
    && BestFit(ix, x, bsize)
    && if Small(ix, x) then 0 <= SizeIdx(ix.node[x].size) < |ix.slot| && ix.slot[SizeIdx(ix.node[x].size)] == x
       else OnSpine(ix, x)
  }

  /** There is only one such block. */
  lemma ChosenUnique(ix: Index, x: int, y: int, bsize: int)
    requires Chosen(ix, x, bsize) && Chosen(ix, y, bsize)
    ensures x == y
  {
    assert ix.node[x].size == ix.node[y].size;
  }

  ghost predicate NoFit(ix: Index, bsize: int) {
    forall a | a in ix.node :: ix.node[a].size < bsize
  }

  /** What remains possible when the lists before the i-th hold no block of at least bsize. */
  ghost predicate EmptyBelow(ix: Index, bsize: int, i: int) {
    forall a | Small(ix, a) && bsize <= ix.node[a].size :: i <= SizeIdx(ix.node[a].size)
  }

  lemma HeadBestFit(b: Build, ix: Index, bsize: int, i: int)
    requires ListsOk(b, ix) && EmptyBelow(ix, bsize, i) && bsize % 16 == 0
    requires SizeIdx(bsize) <= i && 0 <= i < ListCount(b) && ix.slot[i] != 0
    ensures Chosen(ix, ix.slot[i], bsize)
  {
    var h := ix.slot[i];
    assert SlotOk(ix, i) && ListNode(ix, h);
    forall a | a in ix.node && bsize <= ix.node[a].size ensures ix.node[h].size <= ix.node[a].size {
      assert Small(ix, a) ==> ListNode(ix, a);
    }
  }

  lemma EmptyStep(b: Build, ix: Index, bsize: int, i: int)
    requires ListsOk(b, ix) && EmptyBelow(ix, bsize, i) && 0 <= i < ListCount(b) && ix.slot[i] == 0
    ensures EmptyBelow(ix, bsize, i + 1)
  {
    forall a | Small(ix, a) && bsize <= ix.node[a].size ensures i + 1 <= SizeIdx(ix.node[a].size) {
      HeadNotEmpty(b, ix, a);
    }
  }

  /**
   The blocks an aligned search may return: of a list, an aligned head and whatever is not last; of the tree,
   whatever is at least as large as its root.
   */
  predicate Eligible(b: Build, ix: Index, a: int, bsize: int) {
    && Accepted(b, ix, a, bsize)
    && (Small(ix, a) ==> ix.node[a].next != 0 || (ix.node[a].prev == 0 && PageAligned(a + 16)))
    && (Large(ix, a) ==> RootSize(b, ix) <= ix.node[a].size)
  }

  ghost predicate NoneEligible(b: Build, ix: Index, bsize: int) {
    forall a {:trigger Eligible(b, ix, a, bsize)} :: !Eligible(b, ix, a, bsize)
  }

  /** No block on the lists before the i-th is eligible. */
  ghost predicate NoneOnLists(b: Build, ix: Index, bsize: int, i: int) {
    forall a {:trigger Eligible(b, ix, a, bsize)} | Small(ix, a) && SizeIdx(ix.node[a].size) < i ::
      !Eligible(b, ix, a, bsize)
  }

  /** No block of the i-th list but the last is acceptable. */
  ghost predicate ListRefused(b: Build, ix: Index, i: int, bsize: int) {
    forall a {:trigger Accepted(b, ix, a, bsize)} | Small(ix, a) && SizeIdx(ix.node[a].size) == i
      && ix.node[a].next != 0 ::
      !Accepted(b, ix, a, bsize)
  }

  /** The aligned search of one list, whose last block it never tests. */
  method ListWalk(b: Build, ram: Ram, lo: int, head: int, bsize: int, ghost ix: Index) returns (x: int, ghost k: nat)
    requires ListsOk(b, ix) && Rep(b, lo, ram.m, ix) && Small(ix, head) && bsize <= ix.node[head].size
    requires SizeIdx(ix.node[head].size) < ListCount(b) && 0 <= SizeIdx(ix.node[head].size)
    requires head == ix.slot[SizeIdx(ix.node[head].size)]
    ensures x != 0 ==>
              && Small(ix, x) && Accepted(b, ix, x, bsize) && ix.node[x].next != 0
              && ix.node[x].size == ix.node[head].size
              && x == Walk(Nexts(ix), head, k) && NoneWalked(b, ix, head, k, bsize)
    ensures x == 0 ==> ListRefused(b, ix, SizeIdx(ix.node[head].size), bsize)
  {
    ghost var i := SizeIdx(ix.node[head].size);
    x, k := head, 0;
    assert Cell(lo, ram.m, ix, x);
    while Rd(ram.m, x + 24) != 0
      invariant Small(ix, x) && ix.node[x].size == ix.node[head].size && Cell(lo, ram.m, ix, x)
      invariant x == Walk(Nexts(ix), head, k) && NoneWalked(b, ix, head, k, bsize)
      decreases Rank(ix, x)
    {
      if PageAligned(x + 16) {
        return x, k;
      } else if FitTest(b, x, SizeOf(Rd(ram.m, x + 8)), bsize) {
        return x, k;
      }
      ListStep(b, ix, x);
      WalkedOne(b, ix, head, k, bsize);
      x := Rd(ram.m, x + 24);
      k := k + 1;
      assert Cell(lo, ram.m, ix, x);
    }
    assert NextOf(ix, x) == 0;
    ListWalked(b, ix, i, k, bsize);
    x := 0;
  }

  /** None of the first k blocks of a list is acceptable. */
  ghost predicate NoneWalked(b: Build, ix: Index, head: int, k: nat, bsize: int) {
    forall j {:trigger Walk(Nexts(ix), head, j)} | 0 <= j < k :: !Accepted(b, ix, Walk(Nexts(ix), head, j), bsize)
  }

  lemma WalkedOne(b: Build, ix: Index, head: int, k: nat, bsize: int)
    requires NoneWalked(b, ix, head, k, bsize) && !Accepted(b, ix, Walk(Nexts(ix), head, k), bsize)
    ensures NoneWalked(b, ix, head, k + 1, bsize)
            && Walk(Nexts(ix), head, k + 1) == NextOf(ix, Walk(Nexts(ix), head, k))
  {
  }

  lemma ListStep(b: Build, ix: Index, x: int)
    requires ListsOk(b, ix) && Small(ix, x)
    ensures var n := ix.node[x].next;
            n != 0 ==> Small(ix, n) && ix.node[n].size == ix.node[x].size && Rank(ix, n) < Rank(ix, x)
  {
    assert ListNode(ix, x);
  }

  lemma ListWalked(b: Build, ix: Index, i: int, k: nat, bsize: int)
    requires ListsOk(b, ix) && 0 <= i < ListCount(b) && NoneWalked(b, ix, ix.slot[i], k, bsize)
    requires NextOf(ix, Walk(Nexts(ix), ix.slot[i], k)) == 0
    ensures ListRefused(b, ix, i, bsize)
  {
    forall a | Small(ix, a) && SizeIdx(ix.node[a].size) == i && ix.node[a].next != 0
      ensures !Accepted(b, ix, a, bsize) {
      var j := ListMet(b, ix, i, k, a);
    }
  }

  /** A list whose walk found nothing has nothing eligible. */
  lemma ListTried(b: Build, ix: Index, bsize: int, i: int)
    requires ListsOk(b, ix) && 0 <= i < ListCount(b) && NoneOnLists(b, ix, bsize, i)
    requires ix.slot[i] != 0 ==> !PageAligned(ix.slot[i] + 16)
    requires ix.slot[i] != 0 ==> ListRefused(b, ix, i, bsize)
    ensures NoneOnLists(b, ix, bsize, i + 1)
  {
    forall a | Small(ix, a) && SizeIdx(ix.node[a].size) < i + 1 ensures !Eligible(b, ix, a, bsize) {
      HeadNotEmpty(b, ix, a);
    }
  }

  /** Blocks of the lists before the requested size class are too small. */
  lemma TooSmall(b: Build, ix: Index, bsize: int)
    requires ListsOk(b, ix) && GoodSize(bsize)
    ensures NoneOnLists(b, ix, bsize, SizeIdx(bsize))
  {
    forall a | Small(ix, a) && SizeIdx(ix.node[a].size) < SizeIdx(bsize) ensures !Eligible(b, ix, a, bsize) {
      assert ListNode(ix, a);
    }
  }

  /** Lists and tree together. */
  lemma NoneAnywhere(b: Build, ix: Index, bsize: int, i: int)
    requires ListsOk(b, ix) && NoneFromRoot(b, ix, bsize) && NoneOnLists(b, ix, bsize, i)
    requires ListCount(b) <= i || HEAP_LIST_MAX < bsize
    ensures NoneEligible(b, ix, bsize)
  {
    forall a ensures !Eligible(b, ix, a, bsize) {
      assert Small(ix, a) ==> ListNode(ix, a);
      assert Large(ix, a) && Eligible(b, ix, a, bsize) ==> Accepted(b, ix, a, bsize);
    }
  }

  /** x is the k-th block of its list along `next`, or of its chain along `child`, and none before it is eligible. */
  ghost predicate FirstInOrder(b: Build, ix: Index, x: int, bsize: int, k: nat) {
    if Small(ix, x) then
      && 0 <= SizeIdx(ix.node[x].size) < |ix.slot|
      && FirstOn(b, ix, Nexts(ix), ix.slot[SizeIdx(ix.node[x].size)], x, bsize, k)
    else
      Large(ix, x) && ix.node[x].size in ix.spine
        && FirstOn(b, ix, Children(ix), ix.spine[ix.node[x].size], x, bsize, k)
  }

  ghost predicate FirstOn(b: Build, ix: Index, follow: int -> int, start: int, x: int, bsize: int, k: nat) {
    && Walk(follow, start, k) == x
    && forall j {:trigger Walk(follow, start, j)} | 0 <= j < k :: !Eligible(b, ix, Walk(follow, start, j), bsize)
  }

  ghost predicate LeastEligible(b: Build, ix: Index, x: int, bsize: int) {
    && Eligible(b, ix, x, bsize)
    && forall a {:trigger Eligible(b, ix, a, bsize)} | Eligible(b, ix, a, bsize) :: ix.node[x].size <= ix.node[a].size
  }

  /** The block an aligned search returns: of the smallest eligible ones, the first of its list or chain. */
  ghost predicate ChosenAligned(b: Build, ix: Index, x: int, bsize: int) {
    LeastEligible(b, ix, x, bsize) && exists k: nat :: FirstInOrder(b, ix, x, bsize, k)
  }

  /** There is only one such block. */
  lemma ChosenAlignedUnique(b: Build, ix: Index, x: int, y: int, bsize: int)
    requires ChosenAligned(b, ix, x, bsize) && ChosenAligned(b, ix, y, bsize)
    ensures x == y
  {
    assert ix.node[x].size == ix.node[y].size;
    var j: nat :| FirstInOrder(b, ix, x, bsize, j);
    var k: nat :| FirstInOrder(b, ix, y, bsize, k);
    if Small(ix, x) {
      OneFirst(b, ix, Nexts(ix), ix.slot[SizeIdx(ix.node[x].size)], x, y, bsize, j, k);
    } else {
      OneFirst(b, ix, Children(ix), ix.spine[ix.node[x].size], x, y, bsize, j, k);
    }
  }

  lemma OneFirst(b: Build, ix: Index, follow: int -> int, start: int, x: int, y: int, bsize: int, j: nat, k: nat)
    requires FirstOn(b, ix, follow, start, x, bsize, j) && FirstOn(b, ix, follow, start, y, bsize, k)
    requires Eligible(b, ix, x, bsize) && Eligible(b, ix, y, bsize)
    ensures x == y
  {
  }

  /** With nothing eligible on the lists before, an eligible block of a list is among the smallest. */
  lemma LeastOnList(b: Build, ix: Index, x: int, bsize: int, i: int)
    requires ListsOk(b, ix) && NoneOnLists(b, ix, bsize, i) && Small(ix, x) && SizeIdx(ix.node[x].size) == i
    requires Eligible(b, ix, x, bsize)
    ensures LeastEligible(b, ix, x, bsize)
  {
    assert ListNode(ix, x);
    forall a | Eligible(b, ix, a, bsize) ensures ix.node[x].size <= ix.node[a].size {
      assert Small(ix, a) ==> ListNode(ix, a);
      if Small(ix, a) { SizesByIdx(ix.node[x].size, ix.node[a].size); }
    }
  }

  /** Lists are in the order of their sizes. */
  lemma SizesByIdx(s: int, t: int)
    requires GoodSize(s) && GoodSize(t) && SizeIdx(s) <= SizeIdx(t)
    ensures s <= t
  {
  }

  lemma ChosenOnList(b: Build, ix: Index, x: int, bsize: int, i: int, k: nat)
    requires ListsOk(b, ix) && NoneOnLists(b, ix, bsize, i) && Small(ix, x) && SizeIdx(ix.node[x].size) == i
    requires 0 <= i < ListCount(b) && Eligible(b, ix, x, bsize)
    requires x == Walk(Nexts(ix), ix.slot[i], k) && NoneWalked(b, ix, ix.slot[i], k, bsize)
    ensures ChosenAligned(b, ix, x, bsize)
  {
    LeastOnList(b, ix, x, bsize, i);
    assert FirstInOrder(b, ix, x, bsize, k);
  }

  lemma ChosenInTree(b: Build, ix: Index, x: int, bsize: int, i: int, k: nat)
    requires ListsOk(b, ix) && NoneOnLists(b, ix, bsize, i) && (ListCount(b) <= i || HEAP_LIST_MAX < bsize)
    requires Large(ix, x) && Eligible(b, ix, x, bsize) && LeastFromRoot(b, ix, x, bsize) && ix.node[x].size in ix.spine
    requires var y := ix.spine[ix.node[x].size]; x == Walk(Children(ix), y, k) && NoneOnChain(b, ix, y, k, bsize)
    ensures ChosenAligned(b, ix, x, bsize)
  {
    forall a | Eligible(b, ix, a, bsize) ensures ix.node[x].size <= ix.node[a].size {
      assert Small(ix, a) ==> ListNode(ix, a);
      assert Accepted(b, ix, a, bsize);
    }
    assert FirstInOrder(b, ix, x, bsize, k);
  }

  /** The list half of an aligned search at one list. */
  method TryList(b: Build, ram: Ram, lo: int, i: int, bsize: int, ghost ix: Index) returns (x: int)
    requires ListsOk(b, ix) && Rep(b, lo, ram.m, ix) && SizeIdx(bsize) <= i < ListCount(b) && GoodSize(bsize)
    requires NoneOnLists(b, ix, bsize, i)
    ensures x != 0 ==> ChosenAligned(b, ix, x, bsize)
    ensures x == 0 ==> NoneOnLists(b, ix, bsize, i + 1)
  {
    x := 0;
    var head := Rd(ram.m, Slot(b, lo, i));
    assert head == ix.slot[i];
    if head != 0 {
      assert SlotOk(ix, i) && ListNode(ix, head);
      if PageAligned(head + 16) {
        ChosenOnList(b, ix, head, bsize, i, 0);
        return head;
      }
      ghost var k;
      x, k := ListWalk(b, ram, lo, head, bsize, ix);
      if x != 0 { ChosenOnList(b, ix, x, bsize, i, k); }
    }
    if x == 0 { ListTried(b, ix, bsize, i); }
  }

  /**
   `heap_search`. Without alignment it is an exact and complete best fit over everything indexed;
   with alignment it finds an eligible block exactly if there is one: the first one of the smallest eligible size.
   */
  method Search(b: Build, ram: Ram, lo: int, bsize: int, align: bool, ghost ix: Index) returns (x: int)
    requires IndexOk(b, ix) && Rep(b, lo, ram.m, ix) && GoodSize(bsize)
    ensures !align && x == 0 ==> NoFit(ix, bsize)
    ensures !align && x != 0 ==> Chosen(ix, x, bsize)
    ensures align && x == 0 ==> NoneEligible(b, ix, bsize)
    ensures align && x != 0 ==> ChosenAligned(b, ix, x, bsize)
  {
    var listIdx := if bsize <= HEAP_LIST_MAX then SizeIdx(bsize) else -1;
    TooSmall(b, ix, bsize);
    if listIdx >= 0 {
      while listIdx < ListCount(b)
        invariant SizeIdx(bsize) <= listIdx && (!align ==> EmptyBelow(ix, bsize, listIdx))
        invariant align ==> NoneOnLists(b, ix, bsize, listIdx)
      {
        if align {
          x := TryList(b, ram, lo, listIdx, bsize, ix);
          if x != 0 {
            return x;
          }
        } else {
          var head := Rd(ram.m, Slot(b, lo, listIdx));
          assert head == ix.slot[listIdx];
          if head != 0 {
            HeadBestFit(b, ix, bsize, listIdx);
            return head;
          }
          EmptyStep(b, ix, bsize, listIdx);
        }
        listIdx := listIdx + 1;
      }
    }
    if align {
      ghost var k;
      ghost var i := if listIdx >= 0 then listIdx else SizeIdx(bsize);
      x, k := TreeSearchAligned(b, ram, lo, bsize, ix);
      if x == 0 { NoneAnywhere(b, ix, bsize, i); } else { ChosenInTree(b, ix, x, bsize, i, k); }
    } else {
      x := TreeSearch(b, ram, lo, bsize, ix);
      forall a | Small(ix, a) ensures ix.node[a].size < bsize {
        assert ListNode(ix, a);
      }
    }
  }
}
