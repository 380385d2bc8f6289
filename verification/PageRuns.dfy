/** The life of the loader's page tables: bootstrap, `page_init`, then any sequence of page faults. */
module PageRuns {
  import opened Machine
  import opened PageTree
  import opened LoaderPaging
  import opened MemoryMap
  import opened BootPages
  import opened PageCount

  /** A region of a 64-bit address space. */
  predicate InReach(e: Region) {
    0 <= e.base && 0 <= e.length && e.base + e.length <= W64
  }

  /** If it is usable (type 1), its bytes have 48-bit addresses. */
  predicate Low(e: Region) {
    e.kind == 1 ==> e.base + e.length <= PAGE_SIZE * PAGES
  }

  ghost predicate AllLow(s: seq<Region>) {
    forall e {:trigger Low(e)} | e in s :: Low(e)
  }

  ghost predicate AllInReach(s: seq<Region>) {
    forall e {:trigger InReach(e)} | e in s :: InReach(e)
  }

  ghost predicate Wants(e: Region, v: int) {
    e.kind == 1 && Touched(e.base, e.length, v)
  }

  /** Some usable region makes `page_init` map page v. */
  ghost predicate Wanted(s: seq<Region>, v: int) {
    exists e {:trigger Wants(e, v)} :: e in s && Wants(e, v)
  }

  /** The most tables a region can need. */
  function Frames(e: Region): int {
    if e.kind == 1 && 0 <= e.length then 3 * Steps(e.length) else 0
  }

  lemma {:induction false} FramesSum(s: seq<Region>)
    ensures 0 <= Sum(s, Frames)
  {
    if s != [] { FramesSum(s[..|s| - 1]); }
  }

  /** What the first regions and the next one need is there. */
  lemma FramesLeft(s: seq<Region>, i: int)
    requires 0 <= i < |s|
    ensures Sum(s[..i], Frames) + Frames(s[i]) == Sum(s[..i + 1], Frames) <= Sum(s, Frames)
  {
    assert s[..i + 1] == s[..i] + [s[i]] && s == s[..i + 1] + s[i + 1..];
    SumNext(s[..i], s[i], Frames);
    SumSplit(s[..i + 1], s[i + 1..], Frames);
    FramesSum(s[i + 1..]);
  }

  lemma WantedNext(s: seq<Region>, i: int, v: int)
    requires 0 <= i < |s|
    ensures Wanted(s[..i + 1], v) <==> Wanted(s[..i], v) || Wants(s[i], v)
  {
    assert s[..i + 1] == s[..i] + [s[i]];
    if Wanted(s[..i], v) {
      var e :| e in s[..i] && Wants(e, v);
      assert e in s[..i + 1];
    }
    assert s[i] in s[..i + 1];
  }

  /**
   T grew to U by the pages for which the map asks, without moving any; by 48-bit addresses an identity map stays
   one.
   */
  ghost predicate Initialized(T: Tree, U: Tree, s: seq<Region>) {
    && (forall v {:trigger v in U.pages} :: v in U.pages <==> v in T.pages || Wanted(s, v))
    && (forall v {:trigger U.pages[v]} | v in T.pages :: v in U.pages && U.pages[v] == T.pages[v])
    && (Identity(T) && AllLow(s) ==> Identity(U))
  }

  lemma InitializedNext(T: Tree, U: Tree, W: Tree, s: seq<Region>, i: int)
    requires 0 <= i < |s| && Initialized(T, U, s[..i])
    requires forall v {:trigger v in W.pages} :: v in W.pages <==> v in U.pages || Wants(s[i], v)
    requires forall v | v in U.pages :: W.pages[v] == U.pages[v]
    requires Identity(U) && Low(s[i]) ==> Identity(W)
    ensures Initialized(T, W, s[..i + 1])
  {
    if AllLow(s[..i + 1]) { LowBefore(s, i); }
    forall v ensures v in W.pages <==> v in T.pages || Wanted(s[..i + 1], v) {
      WantedNext(s, i, v);
      assert v in U.pages <==> v in T.pages || Wanted(s[..i], v);
    }
  }

  lemma LowBefore(s: seq<Region>, i: int)
    requires 0 <= i < |s| && AllLow(s[..i + 1])
    ensures AllLow(s[..i]) && Low(s[i])
  {
    assert s[..i + 1] == s[..i] + [s[i]];
    forall e | e in s[..i] + [s[i]] ensures Low(e) {}
  }

  lemma InitializedAnyOrder(T: Tree, U: Tree, s: seq<Region>, t: seq<Region>)
    requires multiset(s) == multiset(t) && Initialized(T, U, s)
    ensures Initialized(T, U, t)
  {
    assert forall e :: e in s <==> e in multiset(s);
    assert forall e :: e in t <==> e in multiset(t);
    if AllLow(t) { forall e | e in s ensures Low(e) { assert e in t; } }
    forall v ensures Wanted(s, v) <==> Wanted(t, v) {
      if Wanted(s, v) { var e :| e in s && Wants(e, v); assert e in t; }
      if Wanted(t, v) { var e :| e in t && Wants(e, v); assert e in s; }
    }
  }

  /** The first i entries took no more tables from the pool than they can need. */
  ghost predicate Drawn(T: Tree, s: seq<Region>, i: int, pool: seq<int>, used: int)
    requires 0 <= i <= |s|
  {
    0 <= used <= Sum(s[..i], Frames) && used <= |pool| && Supply(T, pool[used..])
  }

  lemma DrawnNext(T: Tree, s: seq<Region>, i: int, pool: seq<int>, used: int, taken: int)
    requires 0 <= i < |s| && 0 <= used <= Sum(s[..i], Frames) && 0 <= taken <= Frames(s[i]) && used + taken <= |pool|
    requires Supply(T, pool[used..][taken..])
    ensures Drawn(T, s, i + 1, pool, used + taken)
  {
    FramesLeft(s, i);
    PoolRest(pool, used, taken);
  }

  lemma DrawnFirst(T: Tree, s: seq<Region>, pool: seq<int>)
    requires Supply(T, pool)
    ensures Drawn(T, s, 0, pool, 0)
  {
    assert pool[0..] == pool;
  }

  /** The loop of `page_init` over the map. */
  method MapAll(t: PageTables, entries: array<Region>, pool: seq<int>) returns (used: int)
    requires t.Valid() && AllInReach(entries[..]) && Sum(entries[..], Frames) <= |pool| && Supply(t.tree, pool)
    modifies t.ram, t`tree
    ensures t.Valid() && 0 <= used <= Sum(entries[..], Frames) && Supply(t.tree, pool[used..])
    ensures Initialized(old(t.tree), t.tree, entries[..])
  {
    ghost var T, s := t.tree, entries[..];
    used := 0;
    var i := 0;
    DrawnFirst(T, s, pool);
    while i < entries.Length
      invariant 0 <= i <= entries.Length && t.Valid()
      invariant Drawn(t.tree, s, i, pool, used) && Initialized(T, t.tree, s[..i])
    {
      used := MapEntry(t, entries[i], pool, used, T, s, i);
      i := i + 1;
    }
    assert s[..i] == s;
  }

  method MapEntry(t: PageTables, e: Region, pool: seq<int>, used: int, ghost T: Tree, ghost s: seq<Region>,
                  ghost i: int)
    returns (more: int)
    requires t.Valid() && 0 <= i < |s| && e == s[i] && AllInReach(s) && Sum(s, Frames) <= |pool|
    requires Drawn(t.tree, s, i, pool, used) && Initialized(T, t.tree, s[..i])
    modifies t.ram, t`tree
    ensures t.Valid() && Drawn(t.tree, s, i + 1, pool, more) && Initialized(T, t.tree, s[..i + 1])
  {
    ghost var U := t.tree;
    assert InReach(e);
    FramesLeft(s, i);
    var taken := 0;
    if e.kind == MEM_OK {
      taken := t.MapRegion(e.base, e.length, pool[used..]);
    } else {
      assert pool[used..][0..] == pool[used..];
    }
    DrawnNext(t.tree, s, i, pool, used, taken);
    more := used + taken;
    InitializedNext(T, U, t.tree, s, i);
  }

  /**
   `page_init`: whatever the order of the map, exactly the pages that usable regions reach above `INIT_MEM` are
   added.
   */
  method PageInit(t: PageTables, entries: array<Region>, pool: seq<int>) returns (used: int)
    requires t.Valid() && AllInReach(entries[..]) && Sum(entries[..], Frames) <= |pool| && Supply(t.tree, pool)
    modifies t.ram, t`tree, entries
    ensures t.Valid() && 0 <= used <= Sum(old(entries[..]), Frames) && Supply(t.tree, pool[used..])
    ensures Initialized(old(t.tree), t.tree, old(entries[..])) && AsMapped(old(t.tree), t.tree, old(entries[..]))
  {
    ghost var s, T := entries[..], t.tree;
    SortE820(entries);
    ghost var r := entries[..];
    ReachAnyOrder(s, r);
    SumAnyOrder(s, r, Frames);
    used := MapAll(t, entries, pool);
    assert entries[..] == r;
    InitializedAnyOrder(T, t.tree, r, s);
    InitializedAsMapped(T, t.tree, s);
  }

  lemma ReachAnyOrder(s: seq<Region>, t: seq<Region>)
    requires multiset(s) == multiset(t) && AllInReach(s)
    ensures AllInReach(t)
  {
    forall e | e in t ensures InReach(e) { assert e in multiset(t) && e in multiset(s); }
  }

  /** A region of type 1 with a byte in page p, which lies at 2MB or above. */
  predicate Covers(e: Region, p: int) {
    e.kind == 1 && e.base < 4096 * (p + 1) && 4096 * p < e.base + e.length && 0x200000 <= 4096 * p
  }

  /** Every page that a page-aligned usable region covers is wanted, cut to 48 bits. */
  lemma AlignedRegionWanted(s: seq<Region>, e: Region, p: int)
    requires e in s && InReach(e) && Covers(e, p) && e.base % PAGE_SIZE == 0
    ensures Wanted(s, p % PAGES)
  {
    RegionReached(e.base, e.length);
    assert Overlaps(e.base, e.length, p);
    assert RoundPage(e.base, p - e.base / PAGE_SIZE) == p;
    assert Wants(e, p % PAGES);
  }

  /** Only a page that a usable region covers is wanted. */
  lemma WantedCovered(s: seq<Region>, v: int) returns (e: Region, p: int)
    requires AllInReach(s) && Wanted(s, v)
    ensures e in s && Covers(e, p) && v == p % PAGES
  {
    e :| e in s && Wants(e, v);
    var k :| 0 <= k < Steps(e.length) && 0x200000 <= PAGE_SIZE * RoundPage(e.base, k)
      && v == RoundPage(e.base, k) % PAGES;
    p := RoundPage(e.base, k);
    StepsLeft(e.length, k);
  }

  /** The pages added are those that the map's entries of type 1 cover; all, if these start on page boundaries. */
  ghost predicate AsMapped(T: Tree, U: Tree, s: seq<Region>) {
    && (forall e, p {:trigger Covers(e, p)} | e in s && Covers(e, p) && e.base % 4096 == 0 ::
          p % 0x10_0000_0000 in U.pages)
    && (forall v {:trigger v in U.pages} | v in U.pages && v !in T.pages ::
          exists e, p {:trigger Covers(e, p)} :: e in s && Covers(e, p) && v == p % 0x10_0000_0000)
  }

  lemma InitializedAsMapped(T: Tree, U: Tree, s: seq<Region>)
    requires AllInReach(s) && Initialized(T, U, s)
    ensures AsMapped(T, U, s)
  {
    forall e, p | e in s && Covers(e, p) && e.base % 4096 == 0 ensures p % 0x10_0000_0000 in U.pages {
      assert InReach(e);
      AlignedRegionWanted(s, e, p);
    }
    forall v | v in U.pages && v !in T.pages
      ensures exists e, p {:trigger Covers(e, p)} :: e in s && Covers(e, p) && v == p % 0x10_0000_0000
    {
      var e, p := WantedCovered(s, v);
    }
  }

  /** The memory map of a machine with 128MB: low memory, the BIOS, memory from 1MB on, and ACPI tables. */
  const SMALL_MACHINE: seq<Region> :=
    [Region(0, 0x9FC00, 1), Region(0xF0000, 0x10000, 2), Region(0x100000, 0x7EE0000, 1), Region(0x7FE0000, 0x20000, 3)]

  /** An input: of this map the pages from 2MB to the end of usable memory are mapped. */
  lemma SmallMachineMapped(v: int)
    ensures Wanted(SMALL_MACHINE, v) <==> 0x200 <= v < 0x7FE0
  {
    TouchedLow(0, 0x9FC00, v);
    TouchedLow(0x100000, 0x7EE0000, v);
    assert SMALL_MACHINE[2] in SMALL_MACHINE;
    assert Wants(SMALL_MACHINE[2], v) <==> 0x200 <= v < 0x7FE0;
  }

  /** The total goes on to the end of the ACPI tables, which are not reserved. */
  lemma SmallMachineTotal(total: int)
    requires LargestEnd(SMALL_MACHINE, total) && 0 <= total
    ensures total == 0x8000000
  {
    assert SMALL_MACHINE[3] in SMALL_MACHINE && Counted(SMALL_MACHINE[3], 0x8000000);
  }

  lemma {:induction false} SmallMachineAvailable(s: seq<Region>)
    requires s == SMALL_MACHINE
    ensures Sum(s, Bytes) == 0x9FC00 + 0x7EE0000
  {
    SumLast(s, Bytes);
    SumLast(s[..3], Bytes);
    SumLast(s[..3][..2], Bytes);
    SumLast(s[..3][..2][..1], Bytes);
    assert s[..3][..2][..1][..0] == [];
  }

  lemma {:induction false} SumLast(s: seq<Region>, f: Region -> int)
    requires s != []
    ensures Sum(s, f) == Sum(s[..|s| - 1], f) + f(s[|s| - 1])
  {
  }

  /** Under an identity map each address of a mapped page below 2^48 resolves to itself. */
  lemma MappedResolvesToItself(T: Tree, vaddr: int)
    requires Identity(T) && 0 <= vaddr < PAGE_SIZE * PAGES && Vpn(vaddr) in T.pages
    ensures Resolved(T, vaddr) == vaddr
  {
    assert Vpn(vaddr) == vaddr / PAGE_SIZE;
  }

  /** A page shares its last-level table with some mapped page, so that there is one. */
  ghost predicate Neighboured(P: map<int, int>, v: int) {
    exists w :: w in P && Shift(w, 1) == Shift(v, 1)
  }

  lemma LastTable(m: Memory, root: int, T: Tree, v: int)
    requires TreeOk(m, root, T) && Needed(T, T.pages.Keys)
    ensures PathKey(v, 1) in T.at <==> Neighboured(T.pages, v)
  {
    if PathKey(v, 1) in T.at {
      var w :| w in T.pages.Keys && Shift(w, 1) == Shift(v, 1);
      assert w in T.pages;
    }
    if Neighboured(T.pages, v) {
      var w :| w in T.pages && Shift(w, 1) == Shift(v, 1);
      assert PageOk(T, w);
    }
  }

  /** A fault is served if it is at the start of a page or no last-level table was there. */
  ghost predicate ServedFault(P: map<int, int>, addr: int) {
    addr % PAGE_SIZE == 0 || !Neighboured(P, Vpn(addr))
  }

  /** What one page fault makes of the mapped pages, and its code. */
  ghost predicate FaultStep(P: map<int, int>, addr: int, code: int, Q: map<int, int>) {
    var v := Vpn(addr);
    && Q == (if v !in P && ServedFault(P, addr) then P[v := FrameOf(addr)] else P)
    && code == if v in P && P[v] == 0 && addr % PAGE_SIZE == 0 then 1 else 0
  }

  ghost predicate FaultAt(trace: seq<map<int, int>>, addrs: seq<int>, codes: seq<int>, i: nat)
    requires i < |addrs| && i < |codes| && i + 1 < |trace|
  {
    FaultStep(trace[i], addrs[i], codes[i], trace[i + 1])
  }

  /** The tables before each fault and after the last one. */
  ghost predicate FaultTrace(trace: seq<map<int, int>>, addrs: seq<int>, codes: seq<int>, n: nat) {
    && n <= |addrs| && |codes| == n && |trace| == n + 1
    && forall i {:trigger FaultAt(trace, addrs, codes, i)} | 0 <= i < n :: FaultAt(trace, addrs, codes, i)
  }

  lemma FaultTraceNext(trace: seq<map<int, int>>, addrs: seq<int>, codes: seq<int>, n: nat, code: int, Q: map<int, int>)
    requires FaultTrace(trace, addrs, codes, n) && n < |addrs| && FaultStep(trace[n], addrs[n], code, Q)
    ensures FaultTrace(trace + [Q], addrs, codes + [code], n + 1)
  {
    var trace', codes' := trace + [Q], codes + [code];
    forall i | 0 <= i < n + 1 ensures FaultAt(trace', addrs, codes', i) {
      if i < n { assert FaultAt(trace, addrs, codes, i); }
    }
  }

  /** No fault takes a page away or moves one. */
  lemma {:induction false} FaultsKeep(trace: seq<map<int, int>>, addrs: seq<int>, codes: seq<int>, n: nat, i: nat,
                                      k: nat, v: int)
    requires FaultTrace(trace, addrs, codes, n) && i <= k <= n && v in trace[i]
    ensures v in trace[k] && trace[k][v] == trace[i][v]
    decreases k
  {
    if i < k {
      FaultsKeep(trace, addrs, codes, n, i, k - 1, v);
      assert FaultAt(trace, addrs, codes, k - 1);
    }
  }

  /** Only pages that were faulted on are added. */
  lemma {:induction false} FaultsAdd(trace: seq<map<int, int>>, addrs: seq<int>, codes: seq<int>, n: nat, k: nat,
                                     v: int)
    requires FaultTrace(trace, addrs, codes, n) && k <= n && v in trace[k] && v !in trace[0]
    ensures exists i :: 0 <= i < k && Vpn(addrs[i]) == v
  {
    assert FaultAt(trace, addrs, codes, k - 1);
    if v in trace[k - 1] {
      FaultsAdd(trace, addrs, codes, n, k - 1, v);
    }
  }

  /**
   An input: one page above the first 2MB is mapped, and the next page faults anywhere but at its start. The last-level
   table is there, so `page_resolve` answers the bare offset; nothing is mapped, and no failure reported.
   */
  lemma NeighbourUnserved(Q: map<int, int>, code: int)
    requires FaultStep(map[0x201 := 0x201], 0x202008, code, Q)
    ensures Q == map[0x201 := 0x201] && Vpn(0x202008) == 0x202 && Vpn(0x202008) !in Q && code == 0
  {
    assert 0x201 in map[0x201 := 0x201] && Shift(0x201, 1) == Shift(0x202, 1);
  }

  /** What a run of faults comes to: the pages of all served faults are mapped in the end, and no others are new. */
  lemma FaultsServed(trace: seq<map<int, int>>, addrs: seq<int>, codes: seq<int>, n: nat)
    requires FaultTrace(trace, addrs, codes, n)
    ensures forall i | 0 <= i < n && ServedFault(trace[i], addrs[i]) :: Vpn(addrs[i]) in trace[n]
    ensures forall v | v in trace[n] && v !in trace[0] :: exists i :: 0 <= i < n && Vpn(addrs[i]) == v
    ensures forall v | v in trace[0] :: v in trace[n] && trace[n][v] == trace[0][v]
  {
    forall i | 0 <= i < n && ServedFault(trace[i], addrs[i]) ensures Vpn(addrs[i]) in trace[n] {
      assert FaultAt(trace, addrs, codes, i);
      FaultsKeep(trace, addrs, codes, n, i + 1, n, Vpn(addrs[i]));
    }
    forall v | v in trace[n] && v !in trace[0] ensures exists i :: 0 <= i < n && Vpn(addrs[i]) == v {
      FaultsAdd(trace, addrs, codes, n, n, v);
    }
    forall v | v in trace[0] ensures v in trace[n] && trace[n][v] == trace[0][v] {
      FaultsKeep(trace, addrs, codes, n, 0, n, v);
    }
  }

  /** No frame bit beyond 48-bit addresses is set. */
  predicate LowFault(addr: int) {
    addr / PAGE_SIZE % FRAMES < PAGES
  }

  ghost predicate AllLowFaults(addrs: seq<int>) {
    forall i {:trigger addrs[i]} | 0 <= i < |addrs| :: LowFault(addrs[i])
  }

  /** One fault keeps an identity map one, if its address loses no bits in an entry's frame. */
  lemma FaultIdentity(T: Tree, addr: int, code: int, U: Tree)
    requires FaultStep(T.pages, addr, code, U.pages) && Identity(T) && 0 <= addr && LowFault(addr)
    ensures Identity(U)
  {
    IdentityStep(addr);
  }

  /**
   A run of page faults, each with its effect and its code: the pages of all faults that are served are mapped in the
   end, no other page is new, none is moved, and an identity map stays one for 48-bit addresses.
   */
  method Faults(t: PageTables, addrs: seq<int>, pool: seq<int>)
    returns (codes: seq<int>, ghost trace: seq<map<int, int>>)
    requires t.Valid() && 3 * |addrs| <= |pool| && Supply(t.tree, pool)
    requires forall i | 0 <= i < |addrs| :: 0 <= addrs[i]
    modifies t.ram, t`tree
    ensures t.Valid() && (old(Identity(t.tree)) && AllLowFaults(addrs) ==> Identity(t.tree))
    ensures FaultTrace(trace, addrs, codes, |addrs|) && trace[0] == old(t.tree.pages) && trace[|addrs|] == t.tree.pages
    ensures forall i | 0 <= i < |addrs| && ServedFault(trace[i], addrs[i]) :: Vpn(addrs[i]) in t.tree.pages
    ensures forall v | v in t.tree.pages && v !in old(t.tree.pages) ::
              exists i :: 0 <= i < |addrs| && Vpn(addrs[i]) == v
    ensures forall v | v in old(t.tree.pages) :: v in t.tree.pages && t.tree.pages[v] == old(t.tree.pages)[v]
  {
    codes, trace := [], [t.tree.pages];
    var i, used := 0, 0;
    while i < |addrs|
      invariant 0 <= i <= |addrs| && t.Valid() && 0 <= used <= 3 * i && Supply(t.tree, pool[used..])
      invariant FaultTrace(trace, addrs, codes, i) && trace[0] == old(t.tree.pages) && trace[i] == t.tree.pages
      invariant old(Identity(t.tree)) && AllLowFaults(addrs) ==> Identity(t.tree)
    {
      var code, taken := OneFault(t, addrs[i], pool[used..]);
      FaultTraceNext(trace, addrs, codes, i, code, t.tree.pages);
      PoolRest(pool, used, taken);
      used, codes, trace := used + taken, codes + [code], trace + [t.tree.pages];
      i := i + 1;
    }
    FaultsServed(trace, addrs, codes, |addrs|);
  }

  method OneFault(t: PageTables, addr: int, pool: seq<int>) returns (code: int, taken: nat)
    requires t.Valid() && 3 <= |pool| && Supply(t.tree, pool) && 0 <= addr
    modifies t.ram, t`tree
    ensures t.Valid() && taken <= 3 && Supply(t.tree, pool[taken..])
    ensures FaultStep(old(t.tree.pages), addr, code, t.tree.pages)
            && (old(Identity(t.tree)) && LowFault(addr) ==> Identity(t.tree))
  {
    ghost var T := t.tree;
    LastTable(t.ram.m, t.pml4, T, Vpn(addr));
    code, taken := t.PageFault(addr, pool);
    if Identity(T) && LowFault(addr) { FaultIdentity(T, addr, code, t.tree); }
  }

  /** The frames of the four bootstrap tables. */
  ghost predicate OutsideBoot(pool: seq<int>) {
    forall i | 0 <= i < |pool| :: pool[i] < 256 || 260 <= pool[i]
  }

  lemma BootSize()
    ensures Fits32(PADDR_LOC, CountsFor(INIT_MEM)) && TableFrames(CountsFor(INIT_MEM)) == 4
            && CountsFor(INIT_MEM).pages == 512
    ensures PageSizeAlign(PADDR_LOC) == PAGE_SIZE * 256
  {
  }

  /** The loader takes over the bootstrap tables. */
  method Started(boot: Boot, ghost pool: seq<int>) returns (t: PageTables, ghost first: Tree)
    requires boot.placement == PADDR_LOC && Distinct(pool) && OutsideBoot(pool)
    modifies boot.ram, boot`placement
    ensures fresh(t) && t.ram == boot.ram && t.Valid() && t.tree == first && Identity(first) && Supply(first, pool)
    ensures first.pages == map p | 0 <= p < 512 :: Same(p)
  {
    var pml4;
    pml4, first := Booted(boot);
    t := new PageTables(boot.ram, pml4, first);
  }

  /** The bootstrap tables for the first 2MB: four, from 1MB on. */
  method Booted(boot: Boot) returns (pml4: int, ghost first: Tree)
    requires boot.placement == PADDR_LOC
    modifies boot.ram, boot`placement
    ensures pml4 == 0x100000 / 4096 && TreeOk(boot.ram.m, pml4, first) && Needed(first, first.pages.Keys)
    ensures Identity(first) && first.pages == map p | 0 <= p < 512 :: Same(p)
    ensures forall k | k in first.at :: 256 <= first.at[k] < 260
  {
    BootSize();
    pml4, first := boot.SetupPages(INIT_MEM);
  }

  /**
   From `setup_pages` on: `page_init` adds to the bootstrap pages exactly those that a usable region reaches above
   `INIT_MEM`, then the page faults add exactly the pages of those that are served; by 48-bit addresses every mapped
   page is mapped to itself, and the tables are exactly those that the mapped pages need.
   */
  method Run(boot: Boot, entries: array<Region>, addrs: seq<int>, pool: seq<int>)
    returns (t: PageTables, codes: seq<int>, ghost first: Tree, ghost second: Tree, ghost trace: seq<map<int, int>>)
    requires boot.placement == PADDR_LOC && Distinct(pool) && OutsideBoot(pool)
    requires AllInReach(entries[..]) && Sum(entries[..], Frames) + 3 * |addrs| <= |pool|
    requires forall i | 0 <= i < |addrs| :: 0 <= addrs[i]
    modifies boot.ram, boot`placement, entries
    ensures fresh(t) && t.Valid()
    ensures AllLow(old(entries[..])) && AllLowFaults(addrs) ==> Identity(t.tree)
    ensures |t.tree.at| == 1 + |PrefixesUsed(t.tree, 3)| + |PrefixesUsed(t.tree, 2)| + |PrefixesUsed(t.tree, 1)|
    ensures first.pages == map p | 0 <= p < 512 :: Same(p)
    ensures Initialized(first, second, old(entries[..])) && AsMapped(first, second, old(entries[..]))
    ensures FaultTrace(trace, addrs, codes, |addrs|) && trace[0] == second.pages && trace[|addrs|] == t.tree.pages
    ensures forall v {:trigger v in t.tree.pages} | 0 <= v < 512 || Wanted(old(entries[..]), v) :: v in t.tree.pages
    ensures forall i | 0 <= i < |addrs| && ServedFault(trace[i], addrs[i]) :: Vpn(addrs[i]) in t.tree.pages
    ensures forall v {:trigger v in t.tree.pages} |
              v in t.tree.pages && !(0 <= v < 512) && !Wanted(old(entries[..]), v) ::
                  exists i :: 0 <= i < |addrs| && Vpn(addrs[i]) == v
  {
    t, first := Started(boot, pool);
    var used := PageInit(t, entries, pool);
    second := t.tree;
    codes, trace := Faults(t, addrs, pool[used..]);
    TableCount(t.ram.m, t.pml4, t.tree);
  }
}
