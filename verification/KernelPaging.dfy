/**
 The kernel's page tables: `page_map`, `page_map_mmio` and `page_resolve`, with new tables cut from a growing offset.
 */
module KernelPaging {
  import opened Machine
  import opened PageTree
  import opened PageCount

  /** 2^48: the addresses the four levels tell apart. */
  const SPAN: int := 0x1_0000_0000_0000

  /** present and writable; `page_map_mmio` adds write-through and cache-disable. */
  function Flags(mmio: bool): int {
    if mmio then 1 + 2 + 8 + 16 else 1 + 2
  }

  /** `page_normalize_vaddr`: bit 47 is copied into the 16 bits above it. */
  function Normalize(vaddr: int): int {
    vaddr % SPAN + if vaddr / 0x8000_0000_0000 % 2 == 1 then W64 - SPAN else 0
  }

  /** Normalizing keeps the page number and the offset, and leaves exactly the canonical addresses alone. */
  lemma NormalizeCanonical(vaddr: int)
    requires 0 <= vaddr < W64
    ensures 0 <= Normalize(vaddr) < W64 && Normalize(Normalize(vaddr)) == Normalize(vaddr)
    ensures Vpn(Normalize(vaddr)) == Vpn(vaddr) && Normalize(vaddr) % PAGE_SIZE == vaddr % PAGE_SIZE
    ensures Normalize(vaddr) == vaddr <==> vaddr < 0x8000_0000_0000 || W64 - 0x8000_0000_0000 <= vaddr
  {
    var q, r := vaddr / SPAN, vaddr % SPAN;
    assert vaddr == SPAN * q + r && 0 <= q <= 0xFFFF;
    var s := if r >= 0x8000_0000_0000 then 0xFFFF else 0;
    NormalizeParts(q, r);
    NormalizeParts(s, r);
    VpnOf(q, r);
    VpnOf(s, r);
    assert Normalize(vaddr) == SPAN * s + r;
    SameSpan(q, s, r);
  }

  lemma NormalizeParts(q: int, r: int)
    requires 0 <= q && 0 <= r < SPAN
    ensures Normalize(SPAN * q + r) == SPAN * (if r >= 0x8000_0000_0000 then 0xFFFF else 0) + r
  {
    HalfOf(q, r);
  }

  /** Of the addresses with these lower 48 bits only one is canonical. */
  lemma SameSpan(q: int, s: int, r: int)
    requires 0 <= q <= 0xFFFF && 0 <= r < SPAN && s == if r >= 0x8000_0000_0000 then 0xFFFF else 0
    ensures SPAN * s + r == SPAN * q + r <==>
              SPAN * q + r < 0x8000_0000_0000 || W64 - 0x8000_0000_0000 <= SPAN * q + r
  {
  }

  lemma HalfOf(q: int, r: int)
    requires 0 <= q && 0 <= r < SPAN
    ensures (SPAN * q + r) / 0x8000_0000_0000 % 2 == 1 <==> r >= 0x8000_0000_0000
    ensures (SPAN * q + r) % SPAN == r
  {
    assert (SPAN * q + r) / 0x8000_0000_0000 == 2 * q + r / 0x8000_0000_0000;
  }

  lemma VpnOf(q: int, r: int)
    requires 0 <= q && 0 <= r < SPAN
    ensures Vpn(SPAN * q + r) == r / PAGE_SIZE && (SPAN * q + r) % PAGE_SIZE == r % PAGE_SIZE
  {
    var p := r / PAGE_SIZE;
    assert (SPAN * q + r) / PAGE_SIZE == PAGES * q + p;
    assert (PAGES * q + p) % PAGES == p;
  }

  /** No entry uses bits above the frame. */
  ghost predicate Narrow(m: Memory, T: Tree) {
    forall k, i {:trigger EntryAt(m, T.at[k], i)} | k in T.at && 0 <= i < 512 :: 0 <= EntryAt(m, T.at[k], i) < MAX_PADDR
  }

  /** So that `raw & PAGE_MASK` is the address of the entry's frame. */
  lemma Masked(e: int)
    requires 0 <= e < MAX_PADDR
    ensures PageAlign(e) == PAGE_SIZE * Frame(e)
  {
  }

  /** All tables lie below the offset at which the next one will be placed. */
  ghost predicate Below(T: Tree, next: int) {
    0 <= next && forall k | k in T.at :: T.at[k] < next
  }

  lemma NarrowTable(m: Memory, m1: Memory, m2: Memory, T: Tree, k: Key, i: int, n: Key, frame: int, e: int)
    requires Narrow(m, T) && k in T.at && 0 <= i < 512 && 0 <= e < MAX_PADDR && n !in T.at
    requires forall l | l in T.at :: T.at[l] != frame
    requires Filled(m, m1, frame) && m2 == m1[EntryAddr(T.at[k], i) := e]
    ensures Narrow(m2, AddTable(T, n, frame))
  {
    var T' := AddTable(T, n, frame);
    forall l, j | l in T'.at && 0 <= j < 512 ensures 0 <= EntryAt(m2, T'.at[l], j) < MAX_PADDR {
      if l == n {
        assert Rd(m1, EntryAddr(frame, j)) == 0;
      } else {
        assert 0 <= EntryAt(m, T.at[l], j) < MAX_PADDR;
        assert EntryAddr(T.at[l], j) < EntryAddr(frame, 0) || EntryAddr(frame, 512) <= EntryAddr(T.at[l], j);
        assert Rd(m1, EntryAddr(T.at[l], j)) == Rd(m, EntryAddr(T.at[l], j));
      }
    }
  }

  lemma NarrowPage(m: Memory, m': Memory, T: Tree, a: int, e: int)
    requires Narrow(m, T) && 0 <= e < MAX_PADDR && m' == m[a := e]
    ensures Narrow(m', T)
  {
    forall l, j | l in T.at && 0 <= j < 512 ensures 0 <= EntryAt(m', T.at[l], j) < MAX_PADDR {
      assert 0 <= EntryAt(m, T.at[l], j) < MAX_PADDR;
    }
  }

  /** The tree with page v's table at a level. */
  function WithTable(T: Tree, v: int, level: nat, frame: int): Tree {
    if PathKey(v, level) in T.at then T else AddTable(T, PathKey(v, level), frame)
  }

  /** What a physical page is resolved through, once mapped. */
  function Mapped(pages: map<int, int>, paddr: int): map<int, int> {
    if Vpn(paddr) in pages then pages else pages[Vpn(paddr) := paddr / PAGE_SIZE]
  }

  /** A page mapped by a call is written through and kept out of caches exactly if the call is for a device. */
  ghost predicate NewLeaf(m: Memory, T: Tree, U: Tree, paddr: int, mmio: bool) {
    Vpn(paddr) !in T.pages ==>
        PathKey(Vpn(paddr), 1) in U.at && Flagged(Leaf(m, U, Vpn(paddr)), paddr / 4096, mmio, mmio)
  }

  class KernelTables {
    const ram: Ram
    /** The frame at which `_pml4` points. */
    const root: int
    var pageOffset: int
    ghost var next: int
    ghost var tree: Tree

    constructor (ram: Ram, root: int, next: int, ghost tree: Tree)
      ensures this.ram == ram && this.root == root && this.pageOffset == PAGE_SIZE * next && this.next == next
              && this.tree == tree
    {
      this.ram, this.root, this.pageOffset, this.next, this.tree := ram, root, PAGE_SIZE * next, next, tree;
    }

    ghost predicate Sound()
      reads this, ram
    {
      TreeOk(ram.m, root, tree) && Narrow(ram.m, tree) && Below(tree, next) && pageOffset == PAGE_SIZE * next
    }

    ghost predicate Valid()
      reads this, ram
    {
      Sound() && Needed(tree, tree.pages.Keys)
    }

    /** One of the three steps down: a missing table is placed at the offset. */
    method EnsureTable(table: int, idx: int, mmio: bool, ghost v: int, ghost level: nat) returns (below: int)
      requires Sound() && 0 <= v < PAGES && 1 < level <= 4 && next < FRAMES
      requires PathKey(v, level) in tree.at && table == PAGE_SIZE * tree.at[PathKey(v, level)] && idx == Idx(v, level)
      modifies ram, this
      ensures Sound() && tree == WithTable(old(tree), v, level - 1, old(next))
              && Grown(old(tree), tree, v, old(next), next)
      ensures below == PAGE_SIZE * tree.at[PathKey(v, level - 1)]
      ensures if PathKey(v, level - 1) in old(tree.at) then ram.m == old(ram.m) && next == old(next)
              else next == old(next) + 1
      ensures Hung(old(ram.m), ram.m, old(tree), tree, mmio, mmio)
    {
      ghost var k := PathKey(v, level);
      PathEntry(ram.m, root, tree, v, level);
      ShiftSteps(v, level);
      if !Present(Rd(ram.m, table + 8 * idx)) {
        AddMissing(table, idx, mmio, v, level);
        PathEntry(ram.m, root, tree, v, level);
      }
      assert 0 <= EntryAt(ram.m, tree.at[k], idx) < MAX_PADDR;
      Masked(EntryAt(ram.m, tree.at[k], idx));
      below := PageAlign(Rd(ram.m, table + 8 * idx));
    }

    method AddMissing(table: int, idx: int, mmio: bool, ghost v: int, ghost level: nat)
      requires Sound() && 0 <= v < PAGES && 1 < level <= 4 && next < FRAMES
      requires PathKey(v, level) in tree.at && table == PAGE_SIZE * tree.at[PathKey(v, level)] && idx == Idx(v, level)
      requires PathKey(v, level - 1) !in tree.at
      modifies ram, this
      ensures Sound() && tree == AddTable(old(tree), PathKey(v, level - 1), old(next)) && next == old(next) + 1
      ensures Hung(old(ram.m), ram.m, old(tree), tree, mmio, mmio)
    {
      ghost var k, m := PathKey(v, level), ram.m;
      var frame := pageOffset / PAGE_SIZE;
      PathEntry(m, root, tree, v, level);
      ShiftSteps(v, level);
      FillTable(ram, frame);
      ghost var m1 := ram.m;
      FilledKeeps(m, m1, root, tree, frame);
      EntryParts(frame, Flags(mmio));
      TableAdded(m1, root, tree, v, level, frame, Entry(frame, Flags(mmio)));
      EntryFits(frame, Flags(mmio));
      ram.m := ram.m[table + 8 * idx := pageOffset + Flags(mmio)];
      NarrowTable(m, m1, ram.m, tree, k, idx, PathKey(v, level - 1), frame, Entry(frame, Flags(mmio)));
      EntryFlagged(frame, Flags(mmio), mmio, mmio);
      TableHung(m, m1, ram.m, tree, v, level, frame, Entry(frame, Flags(mmio)), mmio, mmio);
      tree := AddTable(tree, PathKey(v, level - 1), frame);
      pageOffset, next := pageOffset + PAGE_SIZE, next + 1;
    }

    /** How far a mapping call has come: the path to page v exists down to a level, nothing else is new. */
    ghost predicate Along(T: Tree, from: int, m: Memory, v: int, level: nat, mmio: bool)
      reads this, ram
    {
      && Sound() && Grown(T, tree, v, from, next) && Hung(m, ram.m, T, tree, mmio, mmio) && next <= from + 4 - level
      && PathKey(v, level) in tree.at && (PathKey(v, level) in T.at ==> ram.m == m && next == from)
    }

    /** One level down on the way to page v. */
    method StepTo(table: int, va: int, mmio: bool, ghost v: int, level: nat, ghost T: Tree, ghost from: int,
                  ghost m: Memory)
      returns (below: int)
      requires 0 <= va && v == Vpn(va) && 0 <= v < PAGES && 1 < level <= 4 && from + 3 <= FRAMES
      requires Along(T, from, m, v, level, mmio) && table == PAGE_SIZE * tree.at[PathKey(v, level)]
      requires PathKey(v, level - 1) in T.at ==> PathKey(v, level) in T.at
      modifies ram, this
      ensures Along(T, from, m, v, level - 1, mmio) && below == PAGE_SIZE * tree.at[PathKey(v, level - 1)]
    {
      ghost var U, n, m1 := tree, next, ram.m;
      PmlIdxIsIdx(va, level);
      below := EnsureTable(table, PmlIdx(va, level), mmio, v, level);
      GrownThen(T, U, tree, v, from, n, next);
      HungThen(m, m1, ram.m, T, U, tree, mmio, mmio);
    }

    /** A mapping call starts at the root. */
    lemma Started(v: int, mmio: bool)
      requires Sound() && 0 <= v < PAGES
      ensures Along(tree, next, ram.m, v, 4, mmio) && tree.at[PathKey(v, 4)] == root
      ensures KeysOk(tree)
    {
      ShiftBounds(v);
    }

    lemma Ancestor(T: Tree, v: int, level: nat)
      requires KeysOk(T) && 1 < level <= 4
      ensures PathKey(v, level - 1) in T.at ==> PathKey(v, level) in T.at
    {
      assert PathKey(v, level - 1) in T.at ==> KeyOk(T, PathKey(v, level - 1));
    }

    /** The three steps down to the last-level table, which the source writes out. */
    method Descend(va: int, mmio: bool, ghost v: int) returns (pml1: int)
      requires Sound() && 0 <= va && v == Vpn(va) && 0 <= v < PAGES && next + 3 <= FRAMES
      modifies ram, this
      ensures Along(old(tree), old(next), old(ram.m), v, 1, mmio) && pml1 == PAGE_SIZE * tree.at[PathKey(v, 1)]
    {
      ghost var T, n, m := tree, next, ram.m;
      Started(v, mmio);
      pml1 := PAGE_SIZE * root;
      var level := 4;
      while level > 1
        invariant 1 <= level <= 4 && Along(T, n, m, v, level, mmio) && pml1 == PAGE_SIZE * tree.at[PathKey(v, level)]
      {
        Ancestor(T, v, level);
        pml1 := StepTo(pml1, va, mmio, v, level, T, n, m);
        level := level - 1;
      }
    }

    /** `page_map` and `page_map_mmio` differ in the flags they set and in nothing else. */
    method MapWith(paddr: int, mmio: bool) returns (va: int)
      requires Valid() && 0 <= paddr < MAX_PADDR && next + 3 <= FRAMES
      modifies ram, this
      ensures Valid() && va == Normalize(paddr)
      ensures tree.pages == Mapped(old(tree.pages), paddr)
      ensures Vpn(paddr) in old(tree.pages) ==>
                ram.m == old(ram.m) && tree == old(tree) && pageOffset == old(pageOffset)
      ensures Stacked(old(tree), tree, old(next), next) && next <= old(next) + 3
      ensures Hung(old(ram.m), ram.m, old(tree), tree, mmio, mmio) && NewLeaf(ram.m, old(tree), tree, paddr, mmio)
    {
      ghost var T, v, m := tree, Vpn(paddr), ram.m;
      va := Normalize(paddr);
      NormalizeCanonical(paddr);
      assert v in T.pages ==> PageOk(T, v);
      var pml1 := Descend(va, mmio, v);
      ghost var U, m1 := tree, ram.m;
      EnsurePage(pml1, PmlIdx(va, 1), paddr, va, mmio);
      HungThen(m, m1, ram.m, T, U, tree, mmio, mmio);
      StillNeeded(T, tree, v);
    }

    /** The last level: the entry of the page, unless it is there already. */
    method EnsurePage(pml1: int, idx: int, paddr: int, ghost va: int, mmio: bool)
      requires Sound() && 0 <= paddr < MAX_PADDR && 0 <= va && Vpn(va) == Vpn(paddr) && idx == PmlIdx(va, 1)
      requires PathKey(Vpn(paddr), 1) in tree.at && pml1 == PAGE_SIZE * tree.at[PathKey(Vpn(paddr), 1)]
      modifies ram, this`tree
      ensures Sound() && tree == Tree(old(tree.at), Mapped(old(tree.pages), paddr))
      ensures Vpn(paddr) in old(tree.pages) ==> ram.m == old(ram.m)
      ensures Hung(old(ram.m), ram.m, old(tree), tree, mmio, mmio) && NewLeaf(ram.m, old(tree), tree, paddr, mmio)
    {
      ghost var v, m := Vpn(paddr), ram.m;
      PmlIdxIsIdx(va, 1);
      PathEntry(ram.m, root, tree, v, 1);
      if !Present(Rd(ram.m, pml1 + 8 * idx)) {
        var frame := paddr / PAGE_SIZE;
        EntryParts(frame, Flags(mmio));
        PageAdded(ram.m, root, tree, v, frame, Entry(frame, Flags(mmio)));
        EntryFits(frame, Flags(mmio));
        ram.m := ram.m[pml1 + 8 * idx := PageAlign(paddr) + Flags(mmio)];
        EntryFlagged(frame, Flags(mmio), mmio, mmio);
        ShiftSteps(v, 1);
        EntryFilled(m, ram.m, tree, PathKey(v, 1), idx, Entry(frame, Flags(mmio)));
        NarrowPage(m, ram.m, tree, pml1 + 8 * idx, Entry(frame, Flags(mmio)));
        tree := AddPage(tree, v, frame);
      }
    }

    method PageMap(paddr: int) returns (va: int)
      requires Valid() && 0 <= paddr < MAX_PADDR && next + 3 <= FRAMES
      modifies ram, this
      ensures Valid() && va == Normalize(paddr) && tree.pages == Mapped(old(tree.pages), paddr)
      ensures Vpn(paddr) in old(tree.pages) ==>
                ram.m == old(ram.m) && tree == old(tree) && pageOffset == old(pageOffset)
      ensures Stacked(old(tree), tree, old(next), next) && next <= old(next) + 3
      ensures Hung(old(ram.m), ram.m, old(tree), tree, false, false) && NewLeaf(ram.m, old(tree), tree, paddr, false)
    {
      va := MapWith(paddr, false);
    }

    method PageMapMmio(paddr: int) returns (va: int)
      requires Valid() && 0 <= paddr < MAX_PADDR && next + 3 <= FRAMES
      modifies ram, this
      ensures Valid() && va == Normalize(paddr) && tree.pages == Mapped(old(tree.pages), paddr)
      ensures Vpn(paddr) in old(tree.pages) ==>
                ram.m == old(ram.m) && tree == old(tree) && pageOffset == old(pageOffset)
      ensures Stacked(old(tree), tree, old(next), next) && next <= old(next) + 3
      ensures Hung(old(ram.m), ram.m, old(tree), tree, true, true) && NewLeaf(ram.m, old(tree), tree, paddr, true)
    {
      va := MapWith(paddr, true);
    }

    /** One level down, where the entry is present. */
    lemma StepBelow(v: int, level: nat)
      requires Sound() && 0 <= v < PAGES && 1 < level <= 4 && PathKey(v, level) in tree.at
      ensures var e := EntryAt(ram.m, tree.at[PathKey(v, level)], Idx(v, level));
              && (Present(e) <==> PathKey(v, level - 1) in tree.at)
              && (Present(e) ==> PageAlign(e) == PAGE_SIZE * tree.at[PathKey(v, level - 1)])
    {
      PathEntry(ram.m, root, tree, v, level);
      ShiftSteps(v, level);
      Masked(EntryAt(ram.m, tree.at[PathKey(v, level)], Idx(v, level)));
    }

    /** A page without a table on its path is not mapped. */
    lemma Unmapped(v: int, level: nat)
      requires Sound() && 0 <= v < PAGES && 1 <= level <= 4 && PathKey(v, level) !in tree.at
      ensures v !in tree.pages
    {
      if v in tree.pages {
        assert PageOk(tree, v);
        MappedPath(ram.m, root, tree, v, level);
      }
    }

    /** `page_resolve` of the kernel tests every level. */
    method PageResolve(vaddr: int) returns (paddr: int)
      requires Valid() && 0 <= vaddr
      ensures paddr == Resolved(tree, vaddr)
    {
      ghost var v := Vpn(vaddr);
      assert Shift(v, 4) == 0 by { ShiftBounds(v); }
      paddr := 0;
      var e4 := Rd(ram.m, PAGE_SIZE * root + 8 * PmlIdx(vaddr, 4));
      PmlIdxIsIdx(vaddr, 4);
      StepBelow(v, 4);
      if Present(e4) {
        var e3 := Rd(ram.m, PageAlign(e4) + 8 * PmlIdx(vaddr, 3));
        PmlIdxIsIdx(vaddr, 3);
        StepBelow(v, 3);
        if Present(e3) {
          var e2 := Rd(ram.m, PageAlign(e3) + 8 * PmlIdx(vaddr, 2));
          PmlIdxIsIdx(vaddr, 2);
          StepBelow(v, 2);
          if Present(e2) {
            paddr := ResolveLast(PageAlign(e2), vaddr);
          } else {
            Unmapped(v, 1);
          }
        } else {
          Unmapped(v, 2);
        }
      } else {
        Unmapped(v, 3);
      }
    }

    method ResolveLast(table: int, vaddr: int) returns (paddr: int)
      requires Valid() && 0 <= vaddr && PathKey(Vpn(vaddr), 1) in tree.at
               && table == PAGE_SIZE * tree.at[PathKey(Vpn(vaddr), 1)]
      ensures paddr == Resolved(tree, vaddr)
    {
      ghost var v := Vpn(vaddr);
      paddr := 0;
      PmlIdxIsIdx(vaddr, 1);
      PathEntry(ram.m, root, tree, v, 1);
      ShiftSteps(v, 1);
      var e := Rd(ram.m, table + 8 * PmlIdx(vaddr, 1));
      assert e == EntryAt(ram.m, tree.at[PathKey(v, 1)], Idx(v, 1));
      Masked(e);
      if Present(e) {
        paddr := vaddr % PAGE_SIZE + PageAlign(e);
      }
    }

    method Map(call: Call) returns (va: int)
      requires Valid() && 0 <= call.paddr < MAX_PADDR && next + 3 <= FRAMES
      modifies ram, this
      ensures Valid() && tree.pages == Mapped(old(tree.pages), call.paddr)
      ensures Stacked(old(tree), tree, old(next), next) && next <= old(next) + 3
      ensures EntriesKept(old(ram.m), ram.m, old(tree)) && OnlyTables(old(ram.m), ram.m, tree)
      ensures NewLeaf(ram.m, old(tree), tree, call.paddr, call.mmio)
    {
      if call.mmio {
        va := PageMapMmio(call.paddr);
      } else {
        va := PageMap(call.paddr);
      }
    }

    /**
     Any run of both map functions maps exactly the pages it was asked to and moves none that was mapped
     before; whether a page is cached is up to the first call that asks for it; an identity map stays one; every new
     table has a frame of its own.
     */
    method Run(calls: seq<Call>)
      requires Valid() && next + 3 * |calls| <= FRAMES
      requires forall i | 0 <= i < |calls| :: 0 <= calls[i].paddr < MAX_PADDR
      modifies ram, this
      ensures Valid() && Ran(old(tree), tree, calls) && Stacked(old(tree), tree, old(next), next)
      ensures Written(old(ram.m), ram.m, old(tree), tree, calls, |calls|)
      ensures |tree.at| == 1 + |PrefixesUsed(tree, 3)| + |PrefixesUsed(tree, 2)| + |PrefixesUsed(tree, 1)|
    {
      ghost var T, m, from := tree, ram.m, next;
      var n := 0;
      while n < |calls|
        invariant 0 <= n <= |calls| && RunState(calls, n, T, m, from)
      {
        MapNext(calls, n, T, m, from);
        n := n + 1;
      }
      assert calls[..n] == calls;
      TableCount(ram.m, root, tree);
    }

    ghost predicate RunState(calls: seq<Call>, n: nat, T: Tree, m: Memory, from: int)
      requires n <= |calls|
      reads this, ram
    {
      && Valid() && next <= from + 3 * n && Stacked(T, tree, from, next)
      && Ran(T, tree, calls[..n]) && Written(m, ram.m, T, tree, calls, n)
    }

    method MapNext(calls: seq<Call>, n: nat, ghost T: Tree, ghost m: Memory, ghost from: int)
      requires n < |calls| && 0 <= calls[n].paddr < MAX_PADDR && from + 3 * |calls| <= FRAMES
      requires RunState(calls, n, T, m, from)
      modifies ram, this
      ensures RunState(calls, n + 1, T, m, from)
    {
      ghost var U, at, m1 := tree, next, ram.m;
      var va := Map(calls[n]);
      WrittenNext(m, m1, ram.m, T, U, tree, calls, n);
      RanNext(T, U, tree, calls, n);
      StackedThen(T, U, tree, from, at, next);
    }

    lemma EntryFits(frame: int, flags: int)
      requires 0 <= frame < FRAMES && 0 <= flags < PAGE_SIZE
      ensures 0 <= Entry(frame, flags) < MAX_PADDR
    {
    }
  }

  /** A call of `page_map` or `page_map_mmio`. */
  datatype Call = Call(paddr: int, mmio: bool)

  predicate Asked(calls: seq<Call>, v: int) {
    exists i :: 0 <= i < |calls| && Vpn(calls[i].paddr) == v
  }

  /** Pages before and after a run. */
  ghost predicate Ran(T: Tree, U: Tree, calls: seq<Call>) {
    && (forall v {:trigger v in U.pages} :: v in U.pages <==> v in T.pages || Asked(calls, v))
    && (forall v {:trigger U.pages[v]} | v in T.pages :: v in U.pages && U.pages[v] == T.pages[v])
    && (Identity(T) && (forall i | 0 <= i < |calls| :: calls[i].paddr < SPAN) ==> Identity(U))
  }

  /** If call i is the first that asks for its page, the entry of the page is what that call makes it. */
  ghost predicate Decides(m: Memory, T: Tree, U: Tree, calls: seq<Call>, i: int)
    requires 0 <= i < |calls|
  {
    FirstAsk(T, calls, i) ==>
      var v := Vpn(calls[i].paddr);
      PathKey(v, 1) in U.at && Flagged(Leaf(m, U, v), calls[i].paddr / 4096, calls[i].mmio, calls[i].mmio)
  }

  ghost predicate FirstAsk(T: Tree, calls: seq<Call>, i: int)
    requires 0 <= i < |calls|
  {
    Vpn(calls[i].paddr) !in T.pages && forall j | 0 <= j < i :: Vpn(calls[j].paddr) != Vpn(calls[i].paddr)
  }

  /**
   No entry in use has changed, the new ones of pages are as the first call for the page wants them, and nothing but
   tables was written.
   */
  ghost predicate Written(m: Memory, m': Memory, T: Tree, U: Tree, calls: seq<Call>, n: nat)
    requires n <= |calls|
  {
    EntriesKept(m, m', T) && OnlyTables(m, m', U) && forall i | 0 <= i < n :: Decides(m', T, U, calls, i)
  }

  lemma WrittenNext(m: Memory, m1: Memory, m2: Memory, T: Tree, U: Tree, U': Tree, calls: seq<Call>, n: nat)
    requires n < |calls| && Written(m, m1, T, U, calls, n) && Ran(T, U, calls[..n])
    requires forall k | k in T.at :: k in U.at && U.at[k] == T.at[k]
    requires forall k | k in U.at :: k in U'.at && U'.at[k] == U.at[k]
    requires EntriesKept(m1, m2, U) && OnlyTables(m1, m2, U') && NewLeaf(m2, U, U', calls[n].paddr, calls[n].mmio)
    ensures Written(m, m2, T, U', calls, n + 1)
  {
    OnlyTablesThen(m, m1, m2, U, U');
    EntriesKeptThen(m, m1, m2, T, U);
    forall i | 0 <= i < n + 1 ensures Decides(m2, T, U', calls, i) {
      DecidesNext(m1, m2, T, U, U', calls, n, i);
    }
  }

  lemma DecidesNext(m: Memory, m': Memory, T: Tree, U: Tree, U': Tree, calls: seq<Call>, n: int, i: int)
    requires 0 <= i <= n < |calls| && Ran(T, U, calls[..n]) && (i < n ==> Decides(m, T, U, calls, i))
    requires EntriesKept(m, m', U) && forall k | k in U.at :: k in U'.at && U'.at[k] == U.at[k]
    requires NewLeaf(m', U, U', calls[n].paddr, calls[n].mmio)
    ensures Decides(m', T, U', calls, i)
  {
    var v := Vpn(calls[i].paddr);
    if FirstAsk(T, calls, i) {
      if i < n {
        ShiftSteps(v, 1);
        assert EntryAt(m', U.at[PathKey(v, 1)], Idx(v, 1)) == EntryAt(m, U.at[PathKey(v, 1)], Idx(v, 1));
      } else {
        assert !Asked(calls[..n], v);
      }
    }
  }

  lemma RanNext(T: Tree, U: Tree, U': Tree, calls: seq<Call>, n: int)
    requires 0 <= n < |calls| && Ran(T, U, calls[..n]) && 0 <= calls[n].paddr
             && U'.pages == Mapped(U.pages, calls[n].paddr)
    ensures Ran(T, U', calls[..n + 1])
  {
    var p, more := calls[n].paddr, calls[..n + 1];
    assert more[..n] == calls[..n] && more[n] == calls[n];
    forall v ensures v in U'.pages <==> v in T.pages || Asked(more, v) {
      AskedNext(calls, n, v);
      assert v in U.pages <==> v in T.pages || Asked(calls[..n], v);
    }
    if Identity(T) && forall i | 0 <= i < |more| :: more[i].paddr < SPAN {
      assert forall i | 0 <= i < n :: calls[..n][i] == more[i];
      SamePage(more[n].paddr);
    }
  }

  lemma AskedNext(calls: seq<Call>, n: int, v: int)
    requires 0 <= n < |calls|
    ensures Asked(calls[..n + 1], v) <==> Asked(calls[..n], v) || v == Vpn(calls[n].paddr)
  {
    assert calls[..n + 1][n] == calls[n];
    assert forall i | 0 <= i < n :: calls[..n][i] == calls[i] == calls[..n + 1][i];
  }

  lemma SamePage(paddr: int)
    requires 0 <= paddr < SPAN
    ensures Vpn(paddr) == paddr / PAGE_SIZE
  {
  }

  /** The old tables stay where they are; the new ones take one frame each, from the old offset to the new one. */
  ghost predicate Stacked(T: Tree, U: Tree, from: int, to: int) {
    && (forall k | k in T.at :: k in U.at && U.at[k] == T.at[k])
    && (forall k | k in U.at && k !in T.at :: from <= U.at[k] < to)
    && |U.at| == |T.at| + (to - from) && from <= to
  }

  lemma StackedThen(T: Tree, U: Tree, W: Tree, from: int, mid: int, to: int)
    requires Stacked(T, U, from, mid) && Stacked(U, W, mid, to)
    ensures Stacked(T, W, from, to)
  {
    forall k | k in W.at && k !in T.at ensures from <= W.at[k] < to {
      if k in U.at { assert W.at[k] == U.at[k]; }
    }
  }

  /** Only tables for page v were added. */
  ghost predicate Grown(T: Tree, U: Tree, v: int, from: int, to: int) {
    && Stacked(T, U, from, to) && U.pages == T.pages
    && (forall k {:trigger k in U.at} | k in U.at && k !in T.at :: 1 <= k.level < 4 && k == PathKey(v, k.level))
  }

  lemma GrownThen(T: Tree, U: Tree, W: Tree, v: int, from: int, mid: int, to: int)
    requires Grown(T, U, v, from, mid) && Grown(U, W, v, mid, to)
    ensures Grown(T, W, v, from, to)
  {
    StackedThen(T, U, W, from, mid, to);
    forall k | k in W.at && k !in T.at ensures 1 <= k.level < 4 && k == PathKey(v, k.level) {
      assert k in U.at || k !in U.at;
    }
  }

  /** What the kernel's `page_resolve` answers. */
  function Resolved(T: Tree, vaddr: int): int {
    if Vpn(vaddr) in T.pages then PAGE_SIZE * T.pages[Vpn(vaddr)] + vaddr % PAGE_SIZE else 0
  }

  /**
   Under an identity map an address resolves to its lower 48 bits or to nothing; it resolves to itself or to nothing
   below 2^48.
   */
  lemma ResolvesToItself(T: Tree, vaddr: int)
    requires Identity(T) && 0 <= vaddr < W64
    ensures Resolved(T, vaddr) == (if Vpn(vaddr) in T.pages then vaddr % SPAN else 0)
    ensures vaddr < SPAN ==> Resolved(T, vaddr) in {0, vaddr}
  {
    var q, r := vaddr / SPAN, vaddr % SPAN;
    assert vaddr == SPAN * q + r;
    VpnOf(q, r);
  }

  // ----- The frame bitset -----

  /** The bit that stands for the frame of an address. As it stands the divisor is 4069. */
  function FrameBit(b: Build, paddr: int): int {
    paddr / if b.Shipped? then 4069 else PAGE_SIZE
  }

  /** No two frames have the same bit number, whichever the divisor. */
  lemma FrameBitsDistinct(b: Build, p: int, q: int)
    requires 0 <= p < q
    ensures FrameBit(b, PAGE_SIZE * p) < FrameBit(b, PAGE_SIZE * q)
  {
  }

  /**
   A bitset of n bits holds the bits of the first n frames exactly if the divisor is repaired or there are at most
   151.
   */
  lemma FrameBitsFit(b: Build, n: int)
    requires 0 <= n
    ensures (forall p | 0 <= p < n :: FrameBit(b, PAGE_SIZE * p) < n) <==> b.Repaired? || n <= 151
  {
    if b.Shipped? && n > 151 {
      assert FrameBit(b, PAGE_SIZE * (n - 1)) >= n;
    }
  }

  /**
   The bits of a word that stand for an offset. As it stands the literal that is shifted has 32 bits and a sign: the
   language leaves the result open from offset 31 on, and the machine masks the count to 5 bits and extends the sign.
   */
  function Mask(b: Build, offset: int): set<int> {
    if b.Repaired? then {offset}
    else if offset % 32 == 31 then SignBits(31)
    else {offset % 32}
  }

  /** The bits from one on to the highest. */
  function SignBits(from: int): (bits: set<int>)
    ensures forall k :: k in bits <==> from <= k < 64
    decreases 64 - from
  {
    if from < 64 then {from} + SignBits(from + 1) else {}
  }

  /** Bit by bit: the repaired mask is one bit; as it stands it is bit 0 to 30, or all from bit 31 on. */
  lemma MaskBits(o: int, k: int)
    requires 0 <= o < 64
    ensures k in Mask(Repaired, o) <==> k == o
    ensures o % 32 < 31 ==> (k in Mask(Shipped, o) <==> k == o % 32)
    ensures o == 31 || o == 63 ==> (k in Mask(Shipped, o) <==> 31 <= k <= 63)
  {
  }

  /** Two addresses are told apart by nothing: their masks lie in one word and have bits in common. */
  predicate Shares(b: Build, p: int, q: int) {
    && FrameBit(b, p) / 64 == FrameBit(b, q) / 64
    && Mask(b, FrameBit(b, p) % 64) * Mask(b, FrameBit(b, q) % 64) != {}
  }

  /**
   Masks have bits in common for equal offsets, and as it stands for offsets equal in their low five bits; then they
   are equal.
   */
  lemma MasksMeet(b: Build, o: int, u: int)
    requires 0 <= o < 64 && 0 <= u < 64
    ensures Mask(b, o) * Mask(b, u) != {} <==> if b.Repaired? then o == u else o % 32 == u % 32
    ensures Mask(b, o) * Mask(b, u) != {} ==> Mask(b, o) == Mask(b, u)
  {
    assert (if b.Repaired? then o else if o % 32 == 31 then 31 else o % 32) in Mask(b, o);
    if Mask(b, o) == Mask(b, u) {
      assert Mask(b, o) * Mask(b, u) == Mask(b, o);
    } else {
      assert Mask(b, o) * Mask(b, u) == {};
    }
  }

  /**
   Of two frames, the repaired bitset always tells which is marked; as it stands it does not for bits 32 apart in one
   word.
   */
  lemma FramesShare(b: Build, p: int, q: int)
    requires 0 <= p < q
    ensures Shares(b, PAGE_SIZE * p, PAGE_SIZE * q) <==>
              b.Shipped? && FrameBit(b, PAGE_SIZE * p) % 64 < 32
                && FrameBit(b, PAGE_SIZE * q) == FrameBit(b, PAGE_SIZE * p) + 32
  {
    var x, y := FrameBit(b, PAGE_SIZE * p), FrameBit(b, PAGE_SIZE * q);
    FrameBitsDistinct(b, p, q);
    MasksMeet(b, x % 64, y % 64);
    if x / 64 == y / 64 { SameOffset(x, y); }
    SameLowBits(x, y);
  }

  lemma SameOffset(x: int, y: int)
    requires 0 <= x < y && x / 64 == y / 64
    ensures x % 64 < y % 64
  {
  }

  lemma SameLowBits(x: int, y: int)
    requires 0 <= x < y
    ensures x / 64 == y / 64 && x % 64 % 32 == y % 64 % 32 <==> x % 64 < 32 && y == x + 32
  {
    var q, r := x / 64, x % 64;
    if r < 32 && y == x + 32 { assert y == 64 * q + (r + 32); }
  }

  /** An input: the first frame and the 33rd. */
  lemma FirstSharesWith33rd()
    ensures Shares(Shipped, 0, PAGE_SIZE * 32) && !Shares(Repaired, 0, PAGE_SIZE * 32)
  {
    FramesShare(Shipped, 0, 32);
    FramesShare(Repaired, 0, 32);
  }

  /** A word holds each mask wholly or not at all. */
  ghost predicate WordOk(b: Build, w: set<int>) {
    forall o {:trigger Mask(b, o)} | 0 <= o < 64 :: Mask(b, o) <= w || Mask(b, o) * w == {}
  }

  lemma WordMarked(b: Build, w: set<int>, o: int)
    requires WordOk(b, w) && 0 <= o < 64
    ensures WordOk(b, w + Mask(b, o)) && WordOk(b, w - Mask(b, o))
  {
    forall u | 0 <= u < 64
      ensures Mask(b, u) <= w + Mask(b, o) || Mask(b, u) * (w + Mask(b, o)) == {}
      ensures Mask(b, u) <= w - Mask(b, o) || Mask(b, u) * (w - Mask(b, o)) == {}
    {
      MasksMeet(b, o, u);
    }
  }

  /** What marking and clearing an offset does to the answer for another one. */
  lemma WordAnswers(b: Build, w: set<int>, o: int, u: int)
    requires WordOk(b, w) && 0 <= o < 64 && 0 <= u < 64
    ensures Mask(b, u) * (w + Mask(b, o)) != {} <==> Mask(b, u) * w != {} || Mask(b, o) * Mask(b, u) != {}
    ensures Mask(b, u) * (w - Mask(b, o)) != {} <==> Mask(b, u) * w != {} && Mask(b, o) * Mask(b, u) == {}
  {
    MasksMeet(b, o, u);
    assert Mask(b, u) * (w + Mask(b, o)) == Mask(b, u) * w + Mask(b, u) * Mask(b, o);
    assert Mask(b, u) * (w - Mask(b, o)) == Mask(b, u) * w - Mask(b, o);
    assert Mask(b, u) <= w || Mask(b, u) * w == {};
  }

  /** The frame bitset, each word as the set of its bits. */
  class FrameBitset {
    const build: Build
    const words: array<set<int>>

    /** Cleared for n words. */
    constructor (build: Build, n: nat)
      ensures this.build == build && fresh(words) && words.Length == n && Valid() && forall p | InRange(p) :: !Marked(p)
    {
      this.build, this.words := build, new set<int>[n](_ => {});
    }

    ghost predicate Valid()
      reads words
    {
      forall i | 0 <= i < words.Length :: WordOk(build, words[i])
    }

    predicate InRange(paddr: int) {
      0 <= paddr && FrameBit(build, paddr) / 64 < words.Length
    }

    predicate Marked(paddr: int)
      requires InRange(paddr)
      reads words
    {
      words[FrameBit(build, paddr) / 64] * Mask(build, FrameBit(build, paddr) % 64) != {}
    }

    /** `page_set_frame` marks exactly the frames that share with this one. */
    method SetFrame(paddr: int)
      requires Valid() && InRange(paddr)
      modifies words
      ensures Valid() && forall q | InRange(q) :: Marked(q) <==> old(Marked(q)) || Shares(build, paddr, q)
    {
      var page := FrameBit(build, paddr);
      ghost var w := words[page / 64];
      WordMarked(build, w, page % 64);
      words[page / 64] := words[page / 64] + Mask(build, page % 64);
      forall q | InRange(q) ensures Marked(q) <==> old(Marked(q)) || Shares(build, paddr, q) {
        WordAnswers(build, w, page % 64, FrameBit(build, q) % 64);
      }
    }

    /** `page_clear_frame` clears exactly the frames that share with this one. */
    method ClearFrame(paddr: int)
      requires Valid() && InRange(paddr)
      modifies words
      ensures Valid() && forall q | InRange(q) :: Marked(q) <==> old(Marked(q)) && !Shares(build, paddr, q)
    {
      var page := FrameBit(build, paddr);
      ghost var w := words[page / 64];
      WordMarked(build, w, page % 64);
      words[page / 64] := words[page / 64] - Mask(build, page % 64);
      forall q | InRange(q) ensures Marked(q) <==> old(Marked(q)) && !Shares(build, paddr, q) {
        WordAnswers(build, w, page % 64, FrameBit(build, q) % 64);
      }
    }
  }
}
