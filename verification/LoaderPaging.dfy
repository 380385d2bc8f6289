/**
 The loader's page tables: `page_id_map`, `page_resolve`, the page fault handler and the mapping loop of `page_init`.
 */
module LoaderPaging {
  import opened Machine
  import opened PageTree

  /** present, writable, write-through, cache-disable */
  const MAP_FLAGS: int := 1 + 2 + 8 + 16

  /** Frames that `mem_alloc_align` may hand out next: distinct, and none of them a table. */
  ghost predicate Supply(T: Tree, pool: seq<int>) {
    && Distinct(pool)
    && (forall i, k | 0 <= i < |pool| && k in T.at :: T.at[k] != pool[i])
  }

  lemma PoolRest(pool: seq<int>, used: int, taken: int)
    requires 0 <= used && 0 <= taken && used + taken <= |pool|
    ensures pool[used..][taken..] == pool[used + taken..]
  {
  }

  class PageTables {
    const ram: Ram
    const pml4: int
    ghost var tree: Tree

    constructor (ram: Ram, pml4: int, ghost tree: Tree)
      ensures this.ram == ram && this.pml4 == pml4 && this.tree == tree
    {
      this.ram, this.pml4, this.tree := ram, pml4, tree;
    }

    /** The tables form a tree without sharing, and every table but the root serves a mapped page. */
    ghost predicate Valid()
      reads this, ram
    {
      TreeOk(ram.m, pml4, tree) && Needed(tree, tree.pages.Keys)
    }

    /** A missing table is created and hung into the entry that should lead to it. */
    method NewTable(table: int, idx: int, ct: int, ghost v: int, ghost level: nat)
      requires TreeOk(ram.m, pml4, tree) && 0 <= v < PAGES && 1 < level <= 4
      requires PathKey(v, level) in tree.at && PathKey(v, level - 1) !in tree.at
      requires table == tree.at[PathKey(v, level)] && idx == Idx(v, level)
      requires 0 <= ct < FRAMES && forall k | k in tree.at :: tree.at[k] != ct
      modifies ram, this`tree
      ensures TreeOk(ram.m, pml4, tree) && tree == AddTable(old(tree), PathKey(v, level - 1), ct)
      ensures Hung(old(ram.m), ram.m, old(tree), tree, true, true)
    {
      ghost var m := ram.m;
      PathEntry(m, pml4, tree, v, level);
      FillTable(ram, ct);
      FilledKeeps(m, ram.m, pml4, tree, ct);
      EntryParts(ct, MAP_FLAGS);
      EntryFlagged(ct, MAP_FLAGS, true, true);
      TableAdded(ram.m, pml4, tree, v, level, ct, Entry(ct, MAP_FLAGS));
      ghost var m1 := ram.m;
      ShiftSteps(v, level);
      ram.m := ram.m[EntryAddr(table, idx) := Entry(FrameOf(PAGE_SIZE * ct), MAP_FLAGS)];
      TableHung(m, m1, ram.m, tree, v, level, ct, Entry(ct, MAP_FLAGS), true, true);
      tree := AddTable(tree, PathKey(v, level - 1), ct);
    }

    /** The path to page v exists down to some level; used tables of the pool, in order, are new on it. */
    ghost predicate Grown(T: Tree, v: int, level: nat, pool: seq<int>, used: nat)
      reads this
    {
      && used <= |pool| && used <= 4 - level
      && tree.pages == T.pages
      && (forall k | k in T.at :: k in tree.at && tree.at[k] == T.at[k])
      && (forall k {:trigger k in tree.at} | k in tree.at && k !in T.at ::
            level <= k.level < 4 && k == PathKey(v, k.level))
      && (forall i, k | used <= i < |pool| && k in tree.at :: tree.at[k] != pool[i])
      && PathKey(v, level) in tree.at
      && |tree.at| == |T.at| + used
      && (PathKey(v, level) in T.at ==> tree == T)
    }

    /** One level of the descent of `page_id_map`. */
    method StepDown(va: int, level: nat, table: int, ghost v: int, ghost T: Tree, pool: seq<int>, taken: nat)
      returns (next: int, taken': nat)
      requires TreeOk(ram.m, pml4, tree) && 0 <= va && v == Vpn(va) && 0 <= v < PAGES && 1 < level <= 4
      requires KeysOk(T) && Grown(T, v, level, pool, taken) && table == tree.at[PathKey(v, level)]
      requires 4 - level < |pool| && Distinct(pool)
      modifies ram, this`tree
      ensures TreeOk(ram.m, pml4, tree) && Grown(T, v, level - 1, pool, taken')
              && next == tree.at[PathKey(v, level - 1)]
      ensures PathKey(v, level - 1) in T.at ==> ram.m == old(ram.m)
      ensures Hung(old(ram.m), ram.m, old(tree), tree, true, true)
    {
      PmlIdxIsIdx(va, level);
      PathEntry(ram.m, pml4, tree, v, level);
      var idx := PmlIdx(va, level);
      taken' := taken;
      if !Present(EntryAt(ram.m, table, idx)) {
        next := pool[taken];
        NewTable(table, idx, next, v, level);
        taken' := taken + 1;
      } else {
        next := Frame(EntryAt(ram.m, table, idx));
      }
      assert PathKey(v, level - 1) in T.at ==> KeyOk(T, PathKey(v, level - 1));
    }

    /** The descent of `page_id_map` to the last-level table. */
    method Descend(va: int, ghost v: int, pool: seq<int>) returns (table: int, taken: nat)
      requires TreeOk(ram.m, pml4, tree) && 0 <= va && v == Vpn(va) && 0 <= v < PAGES
      requires 3 <= |pool| && Supply(tree, pool)
      modifies ram, this`tree
      ensures TreeOk(ram.m, pml4, tree) && Grown(old(tree), v, 1, pool, taken) && table == tree.at[PathKey(v, 1)]
      ensures PathKey(v, 1) in old(tree.at) ==> ram.m == old(ram.m)
      ensures Hung(old(ram.m), ram.m, old(tree), tree, true, true)
    {
      ghost var T, m := tree, ram.m;
      assert Shift(v, 4) == 0 by { ShiftBounds(v); }
      table, taken := pml4, 0;
      var i := 4;
      while i > 1
        invariant 1 <= i <= 4
        invariant TreeOk(ram.m, pml4, tree) && Grown(T, v, i, pool, taken) && table == tree.at[PathKey(v, i)]
        invariant PathKey(v, i) in T.at ==> ram.m == m
        invariant Hung(m, ram.m, T, tree, true, true)
      {
        ghost var U, m1 := tree, ram.m;
        ghost var known := PathKey(v, i - 1) in T.at;
        assert known ==> KeyOk(T, PathKey(v, i - 1));
        table, taken := StepDown(va, i, table, v, T, pool, taken);
        HungThen(m, m1, ram.m, T, U, tree, true, true);
        i := i - 1;
      }
    }

    /** The last level of `page_id_map`: the entry of the page, unless it is there already. */
    method MapLast(table: int, idx: int, frame: int, ghost v: int) returns (ok: bool)
      requires TreeOk(ram.m, pml4, tree) && 0 <= v < PAGES && 0 <= frame < FRAMES
      requires PathKey(v, 1) in tree.at && table == tree.at[PathKey(v, 1)] && idx == Idx(v, 1)
      modifies ram, this`tree
      ensures TreeOk(ram.m, pml4, tree) && (ok <==> v !in old(tree.pages))
      ensures tree == if ok then AddPage(old(tree), v, frame) else old(tree)
      ensures !ok ==> ram.m == old(ram.m)
      ensures Hung(old(ram.m), ram.m, old(tree), tree, true, true)
      ensures ok ==> Flagged(Leaf(ram.m, tree, v), frame, true, true)
    {
      PathEntry(ram.m, pml4, tree, v, 1);
      ok := false;
      if !Present(EntryAt(ram.m, table, idx)) {
        EntryParts(frame, MAP_FLAGS);
        PageAdded(ram.m, pml4, tree, v, frame, Entry(frame, MAP_FLAGS));
        EntryFlagged(frame, MAP_FLAGS, true, true);
        ghost var m := ram.m;
        ram.m := ram.m[EntryAddr(table, idx) := Entry(frame, MAP_FLAGS)];
        ShiftSteps(v, 1);
        EntryFilled(m, ram.m, tree, PathKey(v, 1), idx, Entry(frame, MAP_FLAGS));
        tree := AddPage(tree, v, frame);
        ok := true;
      }
    }

    /**
     `page_id_map`. It succeeds exactly if the page was unmapped, and then maps that page and no other;
     otherwise it changes nothing. It takes as many new tables as levels of the path were missing.
     Every entry it writes is present, writable, written through and not cached: the mmio flag makes no difference.
     */
    method PageIdMap(paddr: int, vaddr: int, mmio: bool, pool: seq<int>) returns (ok: bool, used: nat)
      requires Valid() && 0 <= paddr && 0 <= vaddr && 3 <= |pool| && Supply(tree, pool)
      modifies ram, this`tree
      ensures Valid()
      ensures ok <==> Vpn(vaddr) !in old(tree.pages)
      ensures ok ==> tree.pages == old(tree.pages)[Vpn(vaddr) := FrameOf(paddr)]
      ensures !ok ==> ram.m == old(ram.m) && tree == old(tree)
      ensures used <= 3 && |tree.at| == |old(tree.at)| + used && Supply(tree, pool[used..])
      ensures Hung(old(ram.m), ram.m, old(tree), tree, true, true)
      ensures ok ==> PathKey(Vpn(vaddr), 1) in tree.at
                     && Flagged(Leaf(ram.m, tree, Vpn(vaddr)), paddr / 4096 % 0x100_0000_0000, true, true)
    {
      ghost var T, v := tree, Vpn(vaddr);
      var pa, va := PageAlign(paddr), Canonical(vaddr);
      CanonicalVpn(vaddr);
      var table, taken := Descend(va, v, pool);
      assert v in T.pages ==> PageOk(T, v);
      ghost var m0, m1, U := old(ram.m), ram.m, tree;
      AlignedFrame(paddr);
      PmlIdxIsIdx(va, 1);
      ok := MapLast(table, PmlIdx(va, 1), FrameOf(pa), v);
      used := taken;
      HungThen(m0, m1, ram.m, T, U, tree, true, true);
      StillNeeded(T, tree, v);
    }

    /**
     `page_resolve`. The entry of the last level is not tested: an unmapped page whose last-level table
     exists resolves to its bare offset.
     */
    method PageResolve(vaddr: int) returns (paddr: int)
      requires Valid() && 0 <= vaddr
      ensures paddr == Resolved(tree, vaddr)
    {
      ghost var v := Vpn(vaddr);
      CanonicalVpn(vaddr);
      assert Shift(v, 4) == 0 by { ShiftBounds(v); }
      var table, i := pml4, 4;
      PmlIdxIsIdx(vaddr, 4);
      var idx := PmlIdx(vaddr, 4);
      while i > 1
        invariant 1 <= i <= 4 && PathKey(v, i) in tree.at && table == tree.at[PathKey(v, i)] && idx == Idx(v, i)
      {
        PathEntry(ram.m, pml4, tree, v, i);
        if Present(EntryAt(ram.m, table, idx)) {
          table := Frame(EntryAt(ram.m, table, idx));
          i := i - 1;
          PmlIdxIsIdx(vaddr, i);
          idx := PmlIdx(vaddr, i);
        } else {
          if PathKey(v, 1) in tree.at { MappedPath(ram.m, pml4, tree, v, i - 1); }
          assert v in tree.pages ==> PageOk(tree, v);
          return 0;
        }
      }
      PathEntry(ram.m, pml4, tree, v, 1);
      FrameBounds(EntryAt(ram.m, table, idx));
      paddr := PAGE_SIZE * Frame(EntryAt(ram.m, table, idx)) + vaddr % PAGE_SIZE;
    }

    /**
     `page_fault` on a faulting address. A page that was unmapped is mapped to itself only if its last-level
     table was missing too, or if the fault hit the first byte of the page.
     */
    method PageFault(failAddr: int, pool: seq<int>) returns (code: int, used: nat)
      requires Valid() && 0 <= failAddr && 3 <= |pool| && Supply(tree, pool)
      modifies ram, this`tree
      ensures Valid() && used <= 3 && Supply(tree, pool[used..]) && (code == 0 || code == 1)
      ensures var v := Vpn(failAddr);
              && (v in tree.pages
                  <==> v in old(tree.pages) || PathKey(v, 1) !in old(tree.at) || failAddr % PAGE_SIZE == 0)
              && tree.pages == (if v in tree.pages && v !in old(tree.pages) then old(tree.pages)[v := FrameOf(failAddr)]
                                else old(tree.pages))
              && (code == 1 <==> v in old(tree.pages) && old(tree.pages)[v] == 0 && failAddr % PAGE_SIZE == 0)
    {
      code, used := 0, 0;
      assert Vpn(failAddr) in tree.pages ==> PageOk(tree, Vpn(failAddr));
      var paddr := PageResolve(failAddr);
      if paddr == 0 {
        var ok;
        ok, used := PageIdMap(failAddr, failAddr, false, pool);
        if !ok {
          code := 1;
        }
      }
    }

    /** The mapping loop of `page_init` for one usable region. */
    method MapRegion(base: int, length: int, pool: seq<int>) returns (used: int)
      requires Valid() && 0 <= base && 0 <= length && base + length <= W64
      requires 3 * Steps(length) <= |pool| && Supply(tree, pool)
      modifies ram, this`tree
      ensures Valid() && 0 <= used <= 3 * Steps(length) && Supply(tree, pool[used..])
      ensures forall v {:trigger v in tree.pages} ::
                v in tree.pages <==> v in old(tree.pages) || Touched(base, length, v)
      ensures forall v | v in old(tree.pages) :: tree.pages[v] == old(tree.pages)[v]
      ensures old(Identity(tree)) && base + length <= PAGE_SIZE * PAGES ==> Identity(tree)
    {
      var k, n := 0, 0;
      used := 0;
      ghost var T, low := tree, base + length <= PAGE_SIZE * PAGES;
      while k < length
        invariant 0 <= n <= Steps(length) && k == PAGE_SIZE * n
        invariant Valid() && 0 <= used <= 3 * n && Supply(tree, pool[used..])
        invariant MappedUpTo(T, tree, base, n, low)
        decreases length - k
      {
        var va := PageAlign(base + k);
        NextPage(base, n);
        StepsLeft(length, n);
        ghost var U := tree;
        used := MapStep(va, pool, used);
        MappedNext(T, U, tree, base, n, low);
        k := k + PAGE_SIZE;
        n := n + 1;
      }
      assert n == Steps(length);
    }

    /** One round of the loop: the page is mapped to itself if it lies above `INIT_MEM`. */
    method MapStep(va: int, pool: seq<int>, used: int) returns (more: int)
      requires Valid() && 0 <= va && 0 <= used && used + 3 <= |pool| && Supply(tree, pool[used..])
      modifies ram, this`tree
      ensures Valid() && used <= more <= used + 3 && Supply(tree, pool[more..])
      ensures PageThere(old(tree), tree, va, va >= INIT_MEM)
    {
      more := used;
      if va >= INIT_MEM {
        var ok, taken := PageIdMap(va, va, false, pool[used..]);
        PoolRest(pool, used, taken);
        more := used + taken;
      }
    }
  }

  /**
   At most the page v is new in U, and it is there if wanted; mapped to a frame of its number, it keeps an identity
   map one.
   */
  ghost predicate PageThere(T: Tree, U: Tree, va: int, wanted: bool) {
    && (forall w {:trigger w in U.pages} :: w in U.pages <==> w in T.pages || (wanted && w == Vpn(va)))
    && (forall w {:trigger U.pages[w]} | w in T.pages :: w in U.pages && U.pages[w] == T.pages[w])
    && (Identity(T) && Vpn(va) == FrameOf(va) ==> Identity(U))
  }

  /** U maps what T does and what n rounds reach. */
  ghost predicate MappedUpTo(T: Tree, U: Tree, base: int, n: int, low: bool) {
    && (forall v {:trigger v in U.pages} :: v in U.pages <==> v in T.pages || TouchedBy(base, n, v))
    && (forall v {:trigger U.pages[v]} | v in T.pages :: v in U.pages && U.pages[v] == T.pages[v])
    && (Identity(T) && low ==> Identity(U))
  }

  lemma MappedNext(T: Tree, U: Tree, W: Tree, base: int, n: int, low: bool)
    requires 0 <= base && 0 <= n && MappedUpTo(T, U, base, n, low)
    requires var va := PAGE_SIZE * RoundPage(base, n);
             PageThere(U, W, va, va >= INIT_MEM) && Vpn(va) == RoundPage(base, n) % PAGES
               && (low ==> Vpn(va) == FrameOf(va))
    ensures MappedUpTo(T, W, base, n + 1, low)
  {
    forall v ensures v in W.pages <==> v in T.pages || TouchedBy(base, n + 1, v) {
      assert v in U.pages <==> v in T.pages || TouchedBy(base, n, v);
      TouchedNext(base, n, v);
    }
  }

  lemma TouchedNext(base: int, n: int, v: int)
    requires 0 <= base && 0 <= n
    ensures var p := RoundPage(base, n);
            TouchedBy(base, n + 1, v) <==> TouchedBy(base, n, v) || (INIT_MEM <= PAGE_SIZE * p && v == p % PAGES)
  {
  }

  const INIT_MEM: int := 0x200000

  /** How often the mapping loop runs. */
  function Steps(length: int): int {
    (length + 4095) / PAGE_SIZE
  }

  /** The page of one round of the mapping loop. */
  function RoundPage(base: int, k: int): int {
    base / PAGE_SIZE + k
  }

  /** The pages that n rounds of the mapping loop reach from a base address, from 2MB on and cut to 48 bits. */
  ghost predicate TouchedBy(base: int, n: int, v: int) {
    exists k {:trigger RoundPage(base, k)} ::
      0 <= k < n && 0x200000 <= PAGE_SIZE * RoundPage(base, k) && v == RoundPage(base, k) % PAGES
  }

  ghost predicate Touched(base: int, length: int, v: int) {
    TouchedBy(base, Steps(length), v)
  }

  /** Of a region with 48-bit addresses these are the pages from its first one on, one for each round. */
  lemma TouchedLow(base: int, length: int, v: int)
    requires 0 <= base && 0 <= length && base + length <= PAGE_SIZE * PAGES
    ensures Touched(base, length, v) <==>
              base / PAGE_SIZE <= v < base / PAGE_SIZE + Steps(length) && INIT_MEM <= PAGE_SIZE * v
  {
    forall k | 0 <= k < Steps(length) ensures 0 <= RoundPage(base, k) < PAGES { StepsLeft(length, k); }
    if base / PAGE_SIZE <= v < base / PAGE_SIZE + Steps(length) {
      assert RoundPage(base, v - base / PAGE_SIZE) == v;
    }
  }

  lemma NextPage(base: int, n: int)
    requires 0 <= base && 0 <= n
    ensures var va := PageAlign(base + PAGE_SIZE * n);
            && va == PAGE_SIZE * RoundPage(base, n)
            && Vpn(va) == RoundPage(base, n) % PAGES
            && (va < PAGE_SIZE * PAGES ==> Vpn(va) == FrameOf(va))
  {
    assert (base + PAGE_SIZE * n) / PAGE_SIZE == RoundPage(base, n);
  }

  lemma StepsLeft(length: int, n: int)
    ensures PAGE_SIZE * n < length <==> n < Steps(length)
  {
  }

  /** Some byte of page v belongs to the region. */
  predicate Overlaps(base: int, length: int, v: int) {
    base < PAGE_SIZE * (v + 1) && PAGE_SIZE * v < base + length
  }

  /**
   Every page a region overlaps is reached exactly if the region's misalignments at both ends add up to
   less than a page; so it is for every region that starts on a page boundary.
   */
  lemma RegionReached(base: int, length: int)
    requires 0 <= base && 0 < length
    ensures (forall v | Overlaps(base, length, v) :: base / PAGE_SIZE <= v < base / PAGE_SIZE + Steps(length))
            <==> base % PAGE_SIZE + (length - 1) % PAGE_SIZE < PAGE_SIZE
  {
    var b, r, q, t := base / PAGE_SIZE, base % PAGE_SIZE, (length - 1) / PAGE_SIZE, (length - 1) % PAGE_SIZE;
    assert base == PAGE_SIZE * b + r && length - 1 == PAGE_SIZE * q + t && Steps(length) == q + 1;
    if r + t >= PAGE_SIZE {
      assert Overlaps(base, length, b + q + 1);
    }
  }

  /**
   An input: a page's worth of bytes from the middle of one page on. The second page that it overlaps is not reached.
   */
  lemma RegionMissed()
    ensures Overlaps(0x200800, PAGE_SIZE, 0x201) && !Touched(0x200800, PAGE_SIZE, 0x201)
            && Touched(0x200800, PAGE_SIZE, 0x200)
  {
    TouchedLow(0x200800, PAGE_SIZE, 0x200);
    TouchedLow(0x200800, PAGE_SIZE, 0x201);
  }

  /** What the loader's `page_resolve` answers. */
  function Resolved(T: Tree, vaddr: int): int {
    var v, offset := Vpn(vaddr), vaddr % PAGE_SIZE;
    if v in T.pages then PAGE_SIZE * T.pages[v] + offset
    else if PathKey(v, 1) in T.at then offset
    else 0
  }

  /** Mapping an address to itself is an identity mapping exactly if no address bit beyond the 48th is lost. */
  lemma IdentityStep(addr: int)
    requires 0 <= addr
    ensures FrameOf(addr) == Vpn(addr) <==> addr / PAGE_SIZE % FRAMES < PAGES
  {
    var x := addr / PAGE_SIZE;
    var q, r := x / FRAMES, x % FRAMES;
    assert x == PAGES * (16 * q) + r;
    assert x % PAGES == r % PAGES;
  }

  lemma AlignedFrame(paddr: int)
    requires 0 <= paddr
    ensures FrameOf(PageAlign(paddr)) == FrameOf(paddr) && 0 <= FrameOf(paddr) < FRAMES
  {
    assert PageAlign(paddr) == PAGE_SIZE * (paddr / PAGE_SIZE);
  }

  ghost predicate Distinct(pool: seq<int>) {
    (forall i | 0 <= i < |pool| :: 0 <= pool[i] < FRAMES) && (forall i, j | 0 <= i < j < |pool| :: pool[i] != pool[j])
  }
}
