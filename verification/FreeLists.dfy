/** The exact-size free lists: the list halves of `heap_remove` and `heap_insert`. */
module FreeLists {
  import opened HeapFormat
  import opened HeapIndex
  import opened IndexMemory
  import opened Machine

  /** A list block's neighbours, or its slot, now bypass it. */
  predicate Unlinked(ix: Index, ix': Index, block: int)
    requires block in ix.node && 0 <= SizeIdx(ix.node[block].size) < |ix.slot|
  {
    var prev, next := ix.node[block].prev, ix.node[block].next;
    && ix'.rank == ix.rank && ix'.clock == ix.clock && ix'.spine == ix.spine
    && ix'.node.Keys == ix.node.Keys - {block}
    && (forall a {:trigger ix'.node[a]} | a in ix'.node ::
          ix'.node[a] == (if a == next then ix.node[a].(prev := prev)
                          else if a == prev then ix.node[a].(next := next) else ix.node[a]))
    && ix'.slot == if prev == 0 then ix.slot[SizeIdx(ix.node[block].size) := next] else ix.slot
  }

  lemma UnlinkedOk(b: Build, ix: Index, ix': Index, block: int)
    requires IndexOk(b, ix)
    requires Small(ix, block) && ListNode(ix, block)
    requires Unlinked(ix, ix', block)
    ensures IndexOk(b, ix') && SameTree(ix, ix')
  {
    UnlinkedLists(b, ix, ix', block);
    TreeKept(b, ix, ix');
  }

  lemma UnlinkedLists(b: Build, ix: Index, ix': Index, block: int)
    requires ListsOk(b, ix)
    requires Small(ix, block) && ListNode(ix, block)
    requires Unlinked(ix, ix', block)
    ensures ListsOk(b, ix')
  {
    forall a | Small(ix', a) ensures ListNode(ix', a) && Rank(ix', a) < ix'.clock {
      assert Small(ix, a) && ListNode(ix, a);
    }
    forall i | 0 <= i < ListCount(b) ensures SlotOk(ix', i) {
      assert SlotOk(ix, i);
    }
  }

  /** The assignments of the list half of `heap_remove`, in order. */
  function Unlink(ix: Index, block: int): Index
    requires block in ix.node && 0 <= SizeIdx(ix.node[block].size) < |ix.slot|
    requires var n := ix.node[block]; (n.prev != 0 ==> n.prev in ix.node) && (n.next != 0 ==> n.next in ix.node)
  {
    var prev, next, i := ix.node[block].prev, ix.node[block].next, SizeIdx(ix.node[block].size);
    var ix1 :=
      if prev == 0 then
        if next == 0 then SetSlot(ix, i, 0) else SetSlot(SetLink(ix, next, PrevLink, 0), i, next)
      else if next != 0 then SetLink(SetLink(ix, next, PrevLink, prev), prev, NextLink, next)
      else SetLink(ix, prev, NextLink, 0);
    Drop(SetLink(SetLink(ix1, block, NextLink, 0), block, PrevLink, 0), block)
  }

  lemma UnlinkBypasses(b: Build, ix: Index, block: int)
    requires ListsOk(b, ix) && Small(ix, block) && ListNode(ix, block)
    ensures Unlinked(ix, Unlink(ix, block), block)
  {
    var prev := ix.node[block].prev;
    assert prev != 0 ==> Small(ix, prev) && ListNode(ix, prev);
  }

  lemma UnlinkOk(b: Build, ix: Index, block: int)
    requires IndexOk(b, ix)
    requires Small(ix, block) && ListNode(ix, block)
    ensures IndexOk(b, Unlink(ix, block))
    ensures Unlink(ix, block).node.Keys == ix.node.Keys - {block}
    ensures SameTree(ix, Unlink(ix, block))
  {
    UnlinkBypasses(b, ix, block);
    UnlinkedOk(b, ix, Unlink(ix, block), block);
  }

  /** The writes of the list branch. */
  method UnlinkBlock(b: Build, ram: Ram, lo: int, block: int, ghost ix: Index) returns (ghost ix': Index)
    requires Rep(b, lo, ram.m, ix) && 0 !in ix.node
    requires Small(ix, block) && ListNode(ix, block)
    modifies ram
    ensures ix' == Unlink(ix, block) && Rep(b, lo, ram.m, ix')
    ensures LinksOnly(lo, old(ram.m), ram.m, ix)
  {
    ghost var o := Origin(ram.m, ix);
    ghost var n := ix.node[block];
    assert Cell(lo, ram.m, ix, block);
    assert (n.prev != 0 ==> Cell(lo, ram.m, ix, n.prev)) && (n.next != 0 ==> Cell(lo, ram.m, ix, n.next));
    var listIdx := SizeIdx(SizeOf(Rd(ram.m, block + 8)));
    var prev, next := Rd(ram.m, block + 16), Rd(ram.m, block + 24);
    if prev == 0 {
      if next == 0 {
        ix' := WriteSlot(b, ram, lo, listIdx, 0, ix, o);
      } else {
        ix' := WriteLink(b, ram, lo, next, PrevLink, 0, ix, o);
        ix' := WriteSlot(b, ram, lo, listIdx, next, ix', o);
      }
    } else {
      if next != 0 {
        ix' := WriteLink(b, ram, lo, next, PrevLink, prev, ix, o);
        ix' := WriteLink(b, ram, lo, prev, NextLink, next, ix', o);
      } else {
        ix' := WriteLink(b, ram, lo, prev, NextLink, 0, ix, o);
      }
    }
    ix' := WriteLink(b, ram, lo, block, NextLink, 0, ix', o);
    ix' := WriteLink(b, ram, lo, block, PrevLink, 0, ix', o);
    RepDrop(b, lo, ram.m, ix', block);
    ix' := Drop(ix', block);
  }

  /** The list half of `heap_remove`. */
  method ListRemove(b: Build, ram: Ram, lo: int, block: int, ghost ix: Index) returns (ghost ix': Index)
    requires Rep(b, lo, ram.m, ix) && 0 !in ix.node
    requires Small(ix, block) && ListNode(ix, block)
    modifies ram
    ensures ix' == Unlink(ix, block) && Rep(b, lo, ram.m, ix')
    ensures LinksOnly(lo, old(ram.m), ram.m, ix)
    ensures IndexOk(b, ix) ==> IndexOk(b, ix') && ix'.node.Keys == ix.node.Keys - {block} && SameTree(ix, ix')
  {
    ghost var m := ram.m;
    ix' := UnlinkBlock(b, ram, lo, block, ix);
    if IndexOk(b, ix) { UnlinkOk(b, ix, block); }
  }

  // ----- Insertion -----

  /** The assignments of the list half of `heap_insert`; block is a list block that no list holds. */
  function Push(ix: Index, block: int, n: Node): Index
    requires 0 <= SizeIdx(n.size) < |ix.slot| && (ix.slot[SizeIdx(n.size)] != 0 ==> ix.slot[SizeIdx(n.size)] in ix.node)
  {
    var i := SizeIdx(n.size);
    var head := ix.slot[i];
    var ix1 := SetLink(SetLink(Enter(ix, block, n), block, PrevLink, 0), block, NextLink, head);
    SetSlot(if head != 0 then SetLink(ix1, head, PrevLink, block) else ix1, i, block)
  }

  /** block heads its list, before the former head. */
  predicate Pushed(ix: Index, ix': Index, block: int, s: int)
    requires 0 <= SizeIdx(s) < |ix.slot|
  {
    var head := ix.slot[SizeIdx(s)];
    && ix'.rank == ix.rank[block := ix.clock] && ix'.clock == ix.clock + 1 && ix'.spine == ix.spine
    && ix'.node.Keys == ix.node.Keys + {block}
    && ix'.node[block].size == s && ix'.node[block].prev == 0 && ix'.node[block].next == head
    && (forall a {:trigger ix'.node[a]} | a in ix.node ::
          ix'.node[a] == if a == head then ix.node[a].(prev := block) else ix.node[a])
    && ix'.slot == ix.slot[SizeIdx(s) := block]
  }

  lemma PushedOk(b: Build, ix: Index, ix': Index, block: int, s: int)
    requires IndexOk(b, ix) && block !in ix.node && block != 0
    requires GoodSize(s) && s <= HEAP_LIST_MAX && Filed(b, s)
    requires Pushed(ix, ix', block, s)
    ensures IndexOk(b, ix')
  {
    var head := ix.slot[SizeIdx(s)];
    PushedLists(b, ix, ix', block, s);
    assert head != 0 ==> Small(ix, head) by { assert SlotOk(ix, SizeIdx(s)); }
    TreeKept(b, ix, ix');
  }

  lemma PushedLists(b: Build, ix: Index, ix': Index, block: int, s: int)
    requires ListsOk(b, ix) && block !in ix.node && block != 0
    requires GoodSize(s) && s <= HEAP_LIST_MAX && Filed(b, s)
    requires Pushed(ix, ix', block, s)
    ensures ListsOk(b, ix')
  {
    var head := ix.slot[SizeIdx(s)];
    assert SlotOk(ix, SizeIdx(s));
    assert head != 0 ==> Small(ix, head) && ListNode(ix, head);
    forall a | Small(ix', a) ensures ListNode(ix', a) && Rank(ix', a) < ix'.clock {
      if a != block { assert Small(ix, a) && ListNode(ix, a); }
    }
    forall i | 0 <= i < ListCount(b) ensures SlotOk(ix', i) {
      assert SlotOk(ix, i);
    }
  }

  lemma PushOk(b: Build, ix: Index, block: int, n: Node)
    requires IndexOk(b, ix) && block !in ix.node && block != 0
    requires GoodSize(n.size) && n.size <= HEAP_LIST_MAX && Filed(b, n.size)
    requires SlotOk(ix, SizeIdx(n.size))
    ensures IndexOk(b, Push(ix, block, n))
    ensures Pushed(ix, Push(ix, block, n), block, n.size)
  {
    PushedOk(b, ix, Push(ix, block, n), block, n.size);
  }

  /** The writes of the list branch. */
  method PushFront(b: Build, ram: Ram, lo: int, block: int, ghost ix: Index) returns (ghost ix': Index)
    requires Rep(b, lo, ram.m, ix) && block !in ix.node && 0 !in ix.node && block != 0
    requires lo <= block && block % 16 == 0 && GoodSize(Rd(ram.m, block + 8))
    requires Spaced(ix.node[block := NodeAt(ram.m, block)])
    requires Rd(ram.m, block + 8) <= HEAP_LIST_MAX && Filed(b, Rd(ram.m, block + 8))
    requires SlotOk(ix, SizeIdx(Rd(ram.m, block + 8)))
    modifies ram
    ensures ix' == Push(ix, block, NodeAt(old(ram.m), block)) && Rep(b, lo, ram.m, ix')
    ensures LinksOnly(lo, old(ram.m), ram.m, Enter(ix, block, NodeAt(old(ram.m), block)))
  {
    ghost var m0 := ram.m;
    var listIdx := SizeIdx(SizeOf(Rd(ram.m, block + 8)));
    ghost var ix1 := Enter(ix, block, NodeAt(m0, block));
    RepEnter(b, lo, m0, ix, block);
    ghost var o := Origin(m0, ix1);
    ix' := WriteLink(b, ram, lo, block, PrevLink, 0, ix1, o);
    var head := Rd(ram.m, Slot(b, lo, listIdx));
    assert head == ix.slot[listIdx] == ix1.slot[listIdx];
    ix' := WriteLink(b, ram, lo, block, NextLink, head, ix', o);
    if head != 0 {
      assert Cell(lo, m0, ix1, head);
      ix' := WriteLink(b, ram, lo, head, PrevLink, block, ix', o);
    }
    ix' := WriteSlot(b, ram, lo, listIdx, block, ix', o);
  }

  /** The list half of `heap_insert`, for a size that has a list slot. */
  method ListInsert(b: Build, ram: Ram, lo: int, block: int, ghost ix: Index) returns (ghost ix': Index)
    requires Rep(b, lo, ram.m, ix) && block !in ix.node && 0 !in ix.node && block != 0
    requires lo <= block && block % 16 == 0 && GoodSize(Rd(ram.m, block + 8))
    requires Spaced(ix.node[block := NodeAt(ram.m, block)])
    requires Rd(ram.m, block + 8) <= HEAP_LIST_MAX && Filed(b, Rd(ram.m, block + 8))
    requires SlotOk(ix, SizeIdx(Rd(ram.m, block + 8)))
    modifies ram
    ensures ix' == Push(ix, block, NodeAt(old(ram.m), block)) && Rep(b, lo, ram.m, ix')
    ensures LinksOnly(lo, old(ram.m), ram.m, Enter(ix, block, NodeAt(old(ram.m), block)))
    ensures IndexOk(b, ix) ==> IndexOk(b, ix') && Pushed(ix, ix', block, old(Rd(ram.m, block + 8)))
  {
    ghost var m := ram.m;
    ix' := PushFront(b, ram, lo, block, ix);
    if IndexOk(b, ix) { PushOk(b, ix, block, NodeAt(m, block)); }
  }
}
