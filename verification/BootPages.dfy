/** `setup_pages`: the bootstrap page tables, built as four flat arrays by div/mod arithmetic. */
module BootPages {
  import opened Machine
  import opened PageTree

  /** present, writable, write-through */
  const BOOT_FLAGS: int := 1 + 2 + 8

  const PADDR_LOC: int := 0x100000
  const W32: int := 0x1_0000_0000

  /** The number of 512-entry units that n entries take. */
  function Units(n: int): int {
    (n + 511) / 512
  }

  /** How many pages, tables, directories and drawers an amount of memory takes. */
  datatype Counts = Counts(pages: int, tables: int, directories: int, drawers: int)

  function CountsFor(amount: int): Counts {
    var p := amount / PAGE_SIZE;
    Counts(p, Units(p), Units(Units(p)), Units(Units(Units(p))))
  }

  /** All frames of the bootstrap tables. */
  function TableFrames(c: Counts): int {
    1 + c.drawers + c.directories + c.tables
  }

  lemma UnitsCover(n: int, i: int)
    requires 0 <= n && 0 <= i
    ensures i < n <==> i / 512 < Units(n) && i < n
    ensures i < n ==> i / 512 < Units(n)
    ensures i < Units(n) <==> 512 * i < n
    ensures 0 <= Units(n) && n <= 512 * Units(n)
  {
  }

  /** A table of the bootstrap tree. */
  predicate IsKey(c: Counts, k: Key) {
    || (k.level == 4 && k.prefix == 0)
    || (k.level == 3 && 0 <= k.prefix < c.drawers)
    || (k.level == 2 && 0 <= k.prefix < c.directories)
    || (k.level == 1 && 0 <= k.prefix < c.tables)
  }

  function FrameFor(c: Counts, f: int, k: Key): int {
    match k.level
    case 4 => f
    case 3 => f + 1 + k.prefix
    case 2 => f + 1 + c.drawers + k.prefix
    case _ => f + 1 + c.drawers + c.directories + k.prefix
  }

  function Level(level: int, n: int): set<Key> {
    set d | 0 <= d < n :: Key(level, d)
  }

  function Keys(c: Counts): set<Key> {
    {Key(4, 0)} + Level(3, c.drawers) + Level(2, c.directories) + Level(1, c.tables)
  }

  lemma KeysAre(c: Counts)
    ensures forall k :: k in Keys(c) <==> IsKey(c, k)
  {
    forall k ensures k in Keys(c) <==> IsKey(c, k) {
      assert k == Key(k.level, k.prefix);
    }
  }

  function Same(p: int): int { p }

  /** The tree that the four arrays form, the root in frame f. */
  function BootTree(c: Counts, f: int): (T: Tree)
    ensures forall k {:trigger k in T.at} :: k in T.at <==> IsKey(c, k)
    ensures forall k | k in T.at :: T.at[k] == FrameFor(c, f, k)
    ensures forall p {:trigger p in T.pages} :: p in T.pages <==> 0 <= p < c.pages
    ensures forall p | p in T.pages :: T.pages[p] == p
  {
    KeysAre(c);
    Tree(map k | k in Keys(c) :: FrameFor(c, f, k), map p | 0 <= p < c.pages :: Same(p))
  }

  /** Entry j of a flat array that starts in frame f. */
  function FlatAt(m: Memory, f: int, j: int): int {
    Rd(m, PAGE_SIZE * f + 8 * j)
  }

  /** The array of the given size in frame f holds count entries for consecutive frames, and zeroes after them. */
  ghost predicate Flat(m: Memory, f: int, size: int, count: int, first: int) {
    forall j {:trigger FlatAt(m, f, j)} | 0 <= j < size ::
      FlatAt(m, f, j) == if j < count then Entry(first + j, BOOT_FLAGS) else 0
  }

  /** All table addresses fit 32 bits; the page format is then no further limit. */
  predicate Fits32(placement: int, c: Counts) {
    (placement + 4095) / PAGE_SIZE + TableFrames(c) < 0x10_0000
  }

  /** So they do exactly if the tables end below 2^32. */
  lemma FitsExactly(placement: int, c: Counts)
    ensures Fits32(placement, c) <==> PageSizeAlign(placement) + 4096 * TableFrames(c) < 0x1_0000_0000
  {
    var f := (placement + 4095) / 4096;
    assert PageSizeAlign(placement) == 4096 * f;
  }

  ghost predicate Arrays(m: Memory, c: Counts, f: int) {
    && Flat(m, f, 512, c.drawers, f + 1)
    && Flat(m, f + 1, 512 * c.drawers, c.directories, f + 1 + c.drawers)
    && Flat(m, f + 1 + c.drawers, 512 * c.directories, c.tables, f + 1 + c.drawers + c.directories)
    && Flat(m, f + 1 + c.drawers + c.directories, 512 * c.tables, c.pages, 0)
  }

  lemma CountBounds(amount: int, f: int)
    requires 0 <= amount && 0 <= f && PAGE_SIZE * (f + TableFrames(CountsFor(amount))) <= W32
    ensures Sized(CountsFor(amount), f) && Chained(CountsFor(amount))
  {
  }

  /** An entry of an array, seen as an entry of the table it lies in. */
  lemma FlatEntry(m: Memory, f: int, k: int, i: int)
    ensures EntryAt(m, f + k, i) == FlatAt(m, f, 512 * k + i)
  {
  }

  ghost predicate Sized(c: Counts, f: int) {
    && 0 <= c.pages < PAGES && 0 <= c.tables < 0x100000 && 0 <= c.directories <= 2048 && 0 <= c.drawers <= 4
    && c.pages <= 512 * c.tables && c.tables <= 512 * c.directories && c.directories <= 512 * c.drawers
    && 0 <= f && f + TableFrames(c) <= 0x100000
  }

  lemma RootEntry(m: Memory, c: Counts, f: int, T: Tree, i: int)
    requires Sized(c, f) && Flat(m, f, 512, c.drawers, f + 1) && T == BootTree(c, f) && 0 <= i < 512
    ensures EntryOk(m, T, Key(4, 0), i)
  {
    FlatEntry(m, f, 0, i);
    EntryParts(f + 1 + i, BOOT_FLAGS);
    assert IsKey(c, Key(3, i)) <==> i < c.drawers;
  }

  lemma DrawerEntry(m: Memory, c: Counts, f: int, T: Tree, d: int, i: int)
    requires Sized(c, f) && Flat(m, f + 1, 512 * c.drawers, c.directories, f + 1 + c.drawers) && T == BootTree(c, f)
    requires 0 <= d < c.drawers && 0 <= i < 512
    ensures EntryOk(m, T, Key(3, d), i)
  {
    FlatEntry(m, f + 1, d, i);
    EntryParts(f + 1 + c.drawers + 512 * d + i, BOOT_FLAGS);
    assert IsKey(c, Key(2, 512 * d + i)) <==> 512 * d + i < c.directories;
  }

  lemma DirectoryEntry(m: Memory, c: Counts, f: int, T: Tree, d: int, i: int)
    requires Sized(c, f) && Flat(m, f + 1 + c.drawers, 512 * c.directories, c.tables, f + 1 + c.drawers + c.directories)
             && T == BootTree(c, f)
    requires 0 <= d < c.directories && 0 <= i < 512
    ensures EntryOk(m, T, Key(2, d), i)
  {
    FlatEntry(m, f + 1 + c.drawers, d, i);
    EntryParts(f + 1 + c.drawers + c.directories + 512 * d + i, BOOT_FLAGS);
    assert IsKey(c, Key(1, 512 * d + i)) <==> 512 * d + i < c.tables;
  }

  lemma TableEntry(m: Memory, c: Counts, f: int, T: Tree, t: int, i: int)
    requires Sized(c, f) && Flat(m, f + 1 + c.drawers + c.directories, 512 * c.tables, c.pages, 0)
             && T == BootTree(c, f)
    requires 0 <= t < c.tables && 0 <= i < 512
    ensures EntryOk(m, T, Key(1, t), i)
  {
    FlatEntry(m, f + 1 + c.drawers + c.directories, t, i);
    EntryParts(512 * t + i, BOOT_FLAGS);
  }

  /** Each count is the number of units the next lower one takes. */
  predicate Chained(c: Counts) {
    c.drawers == Units(c.directories) && c.directories == Units(c.tables) && c.tables == Units(c.pages)
  }

  /** The four arrays are a tree of page tables that maps each of the counted pages to itself. */
  lemma BootTreeOk(m: Memory, c: Counts, f: int)
    requires Sized(c, f) && Chained(c) && Arrays(m, c, f)
    ensures TreeOk(m, f, BootTree(c, f))
  {
    var T := BootTree(c, f);
    BootKeys(c, f, T);
    forall k, i | k in T.at && 0 <= i < 512 ensures EntryOk(m, T, k, i) {
      BootEntry(m, c, f, T, k, i);
    }
  }

  lemma BootEntry(m: Memory, c: Counts, f: int, T: Tree, k: Key, i: int)
    requires Sized(c, f) && Arrays(m, c, f) && T == BootTree(c, f) && k in T.at && 0 <= i < 512
    ensures EntryOk(m, T, k, i)
  {
    assert IsKey(c, k) && k == Key(k.level, k.prefix);
    if k.level == 4 {
      RootEntry(m, c, f, T, i);
    } else if k.level == 3 {
      DrawerEntry(m, c, f, T, k.prefix, i);
    } else if k.level == 2 {
      DirectoryEntry(m, c, f, T, k.prefix, i);
    } else {
      TableEntry(m, c, f, T, k.prefix, i);
    }
  }

  lemma BootKeys(c: Counts, f: int, T: Tree)
    requires Sized(c, f) && T == BootTree(c, f)
    requires Chained(c)
    ensures forall k | k in T.at :: KeyOk(T, k)
    ensures forall v | v in T.pages :: PageOk(T, v)
    ensures Unshared(T) && Key(4, 0) in T.at && T.at[Key(4, 0)] == f
  {
    forall k | k in T.at ensures KeyOk(T, k) {
      assert IsKey(c, k);
      if k.level == 1 { UnitsCover(c.tables, k.prefix); assert IsKey(c, Key(2, k.prefix / 512)); }
      if k.level == 2 { UnitsCover(c.directories, k.prefix); assert IsKey(c, Key(3, k.prefix / 512)); }
      if k.level == 3 { assert IsKey(c, Key(4, k.prefix / 512)); }
    }
    forall v | v in T.pages ensures PageOk(T, v) {
      UnitsCover(c.pages, v);
      assert Shift(v, 1) == Shift(v, 0) / 512;
      assert IsKey(c, Key(1, v / 512));
    }
    forall k, l | k in T.at && l in T.at && T.at[k] == T.at[l] ensures k == l {
      assert IsKey(c, k) && IsKey(c, l) && k == Key(k.level, k.prefix) && l == Key(l.level, l.prefix);
    }
  }

  lemma ShiftUp(x: int, y: int, z: int)
    requires x == 512 * y
    ensures Shift(x, 1) == y && (y == 512 * z ==> Shift(x, 2) == z && Shift(x, 3) == z / 512)
  {
    assert Shift(x, 0) == x && Shift(x, 1) == Shift(x, 0) / 512;
    assert Shift(x, 2) == Shift(x, 1) / 512 && Shift(x, 3) == Shift(x, 2) / 512;
  }

  /** Every bootstrap table serves a page. */
  lemma BootNeeded(amount: int, f: int)
    requires 0 <= amount
    ensures var T := BootTree(CountsFor(amount), f); Needed(T, T.pages.Keys)
  {
    var c := CountsFor(amount);
    var T := BootTree(c, f);
    forall k | k in T.at && 1 <= k.level < 4 ensures exists v :: v in T.pages.Keys && Shift(v, k.level) == k.prefix {
      var p := k.prefix;
      UnitsCover(c.pages, p);
      UnitsCover(c.pages, 512 * p);
      UnitsCover(c.tables, p);
      UnitsCover(c.tables, 512 * p);
      UnitsCover(c.directories, p);
      var v := if k.level == 1 then 512 * p else if k.level == 2 then 512 * (512 * p) else 512 * (512 * (512 * p));
      if k.level == 3 { UnitsCover(c.pages, 512 * (512 * p)); }
      ShiftUp(512 * (512 * p), 512 * p, p);
      ShiftUp(512 * p, p, 0);
      ShiftUp(512 * (512 * (512 * p)), 512 * (512 * p), 512 * p);
      assert v in T.pages.Keys;
    }
  }

  // ----- The code -----

  ghost predicate Zeroed(m: Memory, from: int, to: int) {
    forall w {:trigger Rd(m, w)} | from <= w < to && w % 8 == 0 :: Rd(m, w) == 0
  }

  lemma FlatKept(m: Memory, m': Memory, f: int, size: int, count: int, first: int, from: int, to: int)
    requires Flat(m, f, size, count, first) && Within(m, m', from, to)
    requires PAGE_SIZE * f + 8 * size <= from || to <= PAGE_SIZE * f
    ensures Flat(m', f, size, count, first)
  {
    forall j | 0 <= j < size ensures FlatAt(m', f, j) == FlatAt(m, f, j) {
      assert Rd(m', PAGE_SIZE * f + 8 * j) == Rd(m, PAGE_SIZE * f + 8 * j);
    }
  }

  class Boot {
    const ram: Ram
    var placement: int

    constructor (ram: Ram)
      ensures this.ram == ram && placement == PADDR_LOC
    {
      this.ram, placement := ram, PADDR_LOC;
    }

    /** `mem_alloc` of main32.c, in 32-bit arithmetic. */
    method MemAlloc(psize: int, align: bool) returns (p: int)
      requires 0 <= placement && 0 <= psize
      modifies this`placement
      ensures var start := if align then PageSizeAlign(old(placement)) else old(placement);
              start + psize < 0x1_0000_0000 ==> p == start && placement == start + psize
    {
      if align {
        placement := PageSizeAlign(placement) % W32;
      }
      p := placement;
      placement := (placement + psize) % W32;
    }

    /** `mem_clear`, a word at a time. */
    method MemClear(from: int, len: int)
      requires from % 8 == 0 && len % 8 == 0 && 0 <= len
      modifies ram
      ensures Zeroed(ram.m, from, from + len) && Within(old(ram.m), ram.m, from, from + len)
    {
      var i := 0;
      while i < len
        invariant 0 <= i <= len && i % 8 == 0
        invariant Zeroed(ram.m, from, from + i) && Within(old(ram.m), ram.m, from, from + i)
      {
        ghost var m := ram.m;
        ram.m := ram.m[from + i := 0];
        forall w | w < from || from + i + 8 <= w ensures Rd(ram.m, w) == Rd(old(ram.m), w) {
          assert Rd(m, w) == Rd(old(ram.m), w);
        }
        forall w | from <= w < from + i + 8 && w % 8 == 0 ensures Rd(ram.m, w) == 0 {
          assert w < from + i ==> Rd(m, w) == 0;
        }
        i := i + 8;
      }
    }

    /** One of the four loops: the first entries of an array lead to consecutive frames. */
    method FillEntries(f: int, size: int, count: int, first: int)
      requires 0 <= count <= size && Zeroed(ram.m, PAGE_SIZE * f, PAGE_SIZE * f + 8 * size)
      modifies ram
      ensures Flat(ram.m, f, size, count, first)
      ensures Within(old(ram.m), ram.m, PAGE_SIZE * f, PAGE_SIZE * f + 8 * size)
    {
      ghost var m0 := ram.m;
      ZeroedFlat(m0, f, size, first);
      var j := 0;
      while j < count
        invariant 0 <= j <= count && Flat(ram.m, f, size, j, first)
        invariant Within(m0, ram.m, PAGE_SIZE * f, PAGE_SIZE * f + 8 * size)
      {
        FlatNext(m0, ram.m, f, size, j, first);
        ram.m := ram.m[PAGE_SIZE * f + 8 * j := Entry(first + j, BOOT_FLAGS)];
        j := j + 1;
      }
    }

    lemma ZeroedFlat(m: Memory, f: int, size: int, first: int)
      requires Zeroed(m, PAGE_SIZE * f, PAGE_SIZE * f + 8 * size)
      ensures Flat(m, f, size, 0, first)
    {
      forall j | 0 <= j < size ensures FlatAt(m, f, j) == 0 {
        Eighths(f, j);
        assert Rd(m, PAGE_SIZE * f + 8 * j) == 0;
      }
    }

    lemma Eighths(f: int, j: int)
      ensures (PAGE_SIZE * f + 8 * j) % 8 == 0
    {
      assert PAGE_SIZE * f + 8 * j == 8 * (512 * f + j);
    }

    lemma FlatNext(m0: Memory, m: Memory, f: int, size: int, j: int, first: int)
      requires 0 <= j < size && Flat(m, f, size, j, first) && Within(m0, m, PAGE_SIZE * f, PAGE_SIZE * f + 8 * size)
      ensures var m' := m[PAGE_SIZE * f + 8 * j := Entry(first + j, BOOT_FLAGS)];
              Flat(m', f, size, j + 1, first) && Within(m0, m', PAGE_SIZE * f, PAGE_SIZE * f + 8 * size)
    {
      var m' := m[PAGE_SIZE * f + 8 * j := Entry(first + j, BOOT_FLAGS)];
      forall i | 0 <= i < size ensures FlatAt(m', f, i) == if i < j + 1 then Entry(first + i, BOOT_FLAGS) else 0 {
        assert FlatAt(m, f, i) == if i < j then Entry(first + i, BOOT_FLAGS) else 0;
      }
      forall w | w < PAGE_SIZE * f || PAGE_SIZE * f + 8 * size <= w ensures Rd(m', w) == Rd(m0, w) {
        assert Rd(m, w) == Rd(m0, w);
      }
    }

    /** `mem_alloc` of whole pages at an aligned placement address. */
    method AllocTables(count: int, ghost f: int) returns (p: int)
      requires placement == PAGE_SIZE * f && 0 <= f && 0 <= count && PAGE_SIZE * (f + count) < W32
      modifies this`placement
      ensures p == PAGE_SIZE * f && placement == PAGE_SIZE * (f + count)
    {
      AlignedAlready(f);
      p := MemAlloc(8 * 512 * count, true);
    }

    lemma AlignedAlready(f: int)
      ensures PageSizeAlign(PAGE_SIZE * f) == PAGE_SIZE * f
    {
      assert (PAGE_SIZE * f + 4095) % 4096 == 4095;
    }

    lemma PlacementFrame(n: int, f: int)
      requires f == (n + 4095) / PAGE_SIZE
      ensures PageSizeAlign(n) == PAGE_SIZE * f
    {
    }

    /** Allocating the four arrays: they follow each other from the next page boundary on. */
    method Reserve(c: Counts) returns (f: int)
      requires 0 <= placement && Fits32(placement, c) && 0 <= c.drawers && 0 <= c.directories && 0 <= c.tables
      modifies this`placement
      ensures 0 <= f && PAGE_SIZE * f == PageSizeAlign(old(placement)) && placement == PAGE_SIZE * (f + TableFrames(c))
    {
      f := (placement + 4095) / PAGE_SIZE;
      PlacementFrame(placement, f);
      var pml4 := MemAlloc(8 * 512, true);
      var pml3 := AllocTables(c.drawers, f + 1);
      var pml2 := AllocTables(c.directories, f + 1 + c.drawers);
      var pml1 := AllocTables(c.tables, f + 1 + c.drawers + c.directories);
    }

    /** Clearing the four arrays one by one clears the whole range. */
    method ClearTables(c: Counts, f: int)
      requires 0 <= c.drawers && 0 <= c.directories && 0 <= c.tables
      modifies ram
      ensures Cleared(old(ram.m), ram.m, f, f + TableFrames(c))
    {
      ghost var m := ram.m;
      ClearNext(m, f, f, 1);
      ClearNext(m, f, f + 1, c.drawers);
      ClearNext(m, f, f + 1 + c.drawers, c.directories);
      ClearNext(m, f, f + 1 + c.drawers + c.directories, c.tables);
    }

    /** Clearing count more tables behind a cleared range. */
    method ClearNext(ghost m: Memory, ghost f: int, g: int, count: int)
      requires 0 <= count && f <= g && Cleared(m, ram.m, f, g)
      modifies ram
      ensures Cleared(m, ram.m, f, g + count)
    {
      ghost var m1 := ram.m;
      MemClear(PAGE_SIZE * g, 8 * 512 * count);
      forall w | PAGE_SIZE * f <= w < PAGE_SIZE * (g + count) && w % 8 == 0 ensures Rd(ram.m, w) == 0 {
        assert w < PAGE_SIZE * g ==> Rd(m1, w) == 0;
      }
      forall w | w < PAGE_SIZE * f || PAGE_SIZE * (g + count) <= w ensures Rd(ram.m, w) == Rd(m, w) {
        assert Rd(m1, w) == Rd(m, w);
      }
    }

    /** The four loops. */
    method FillTables(c: Counts, f: int)
      requires Sized(c, f) && Zeroed(ram.m, PAGE_SIZE * f, PAGE_SIZE * (f + TableFrames(c)))
      modifies ram
      ensures Arrays(ram.m, c, f) && Within(old(ram.m), ram.m, PAGE_SIZE * f, PAGE_SIZE * (f + TableFrames(c)))
    {
      var pml3 := f + 1;
      var pml2 := pml3 + c.drawers;
      var pml1 := pml2 + c.directories;
      var end := pml1 + c.tables;
      ghost var m0 := ram.m;
      FillEntries(pml1, 512 * c.tables, c.pages, 0);
      ghost var m1 := ram.m;
      ZeroedKept(m0, m1, f, pml1, end);
      FillEntries(pml2, 512 * c.directories, c.tables, pml1);
      ghost var m2 := ram.m;
      ZeroedKept(m1, m2, f, pml2, pml1);
      FlatKept(m1, m2, pml1, 512 * c.tables, c.pages, 0, PAGE_SIZE * pml2, PAGE_SIZE * pml1);
      WithinThen(m0, m1, m2, f, pml2, pml1, end);
      FillEntries(pml3, 512 * c.drawers, c.directories, pml2);
      ghost var m3 := ram.m;
      ZeroedKept(m2, m3, f, pml3, pml2);
      FlatKept(m2, m3, pml1, 512 * c.tables, c.pages, 0, PAGE_SIZE * pml3, PAGE_SIZE * pml2);
      FlatKept(m2, m3, pml2, 512 * c.directories, c.tables, pml1, PAGE_SIZE * pml3, PAGE_SIZE * pml2);
      WithinThen(m0, m2, m3, f, pml3, pml2, end);
      FillEntries(f, 512, c.drawers, pml3);
      FlatKept(m3, ram.m, pml1, 512 * c.tables, c.pages, 0, PAGE_SIZE * f, PAGE_SIZE * pml3);
      FlatKept(m3, ram.m, pml2, 512 * c.directories, c.tables, pml1, PAGE_SIZE * f, PAGE_SIZE * pml3);
      FlatKept(m3, ram.m, pml3, 512 * c.drawers, c.directories, pml2, PAGE_SIZE * f, PAGE_SIZE * pml3);
      WithinThen(m0, m3, ram.m, f, f, pml3, end);
    }

    /**
     `setup_pages`: the four arrays are a tree of page tables without sharing, each table of which serves a page,
     and they map exactly the pages below the amount, each to itself.
     */
    method SetupPages(amount: int) returns (pml4: int, ghost tree: Tree)
      requires 0 <= amount && 0 <= placement && Fits32(placement, CountsFor(amount))
      modifies ram, this`placement
      ensures TreeOk(ram.m, pml4, tree) && Needed(tree, tree.pages.Keys)
      ensures tree.pages == map p | 0 <= p < amount / PAGE_SIZE :: Same(p)
      ensures AllFlagged(ram.m, tree, true, false)
      ensures |tree.at| == TableFrames(CountsFor(amount))
      ensures PAGE_SIZE * pml4 == PageSizeAlign(old(placement))
              && placement == PAGE_SIZE * (pml4 + TableFrames(CountsFor(amount)))
      ensures forall k | k in tree.at :: pml4 <= tree.at[k] < pml4 + TableFrames(CountsFor(amount))
      ensures Within(old(ram.m), ram.m, PAGE_SIZE * pml4, placement)
    {
      var pageCount := amount / PAGE_SIZE;
      var tableCount := (pageCount + 511) / 512;
      var directoryCount := (tableCount + 511) / 512;
      var drawerCount := (directoryCount + 511) / 512;
      var c := Counts(pageCount, tableCount, directoryCount, drawerCount);
      assert c == CountsFor(amount);
      pml4 := Reserve(c);
      CountBounds(amount, pml4);
      ghost var m0 := ram.m;
      ClearTables(c, pml4);
      ghost var m1 := ram.m;
      FillTables(c, pml4);
      WithinThen(m0, m1, ram.m, pml4, pml4, pml4 + TableFrames(c), pml4 + TableFrames(c));
      tree := BootTree(c, pml4);
      BootTreeOk(ram.m, c, pml4);
      BootNeeded(amount, pml4);
      BootCount(c, pml4);
      BootFlags(ram.m, c, pml4);
    }
  }

  lemma BootLeaf(m: Memory, c: Counts, f: int, p: int)
    requires Sized(c, f) && Chained(c) && Arrays(m, c, f) && 0 <= p < c.pages
    ensures var T := BootTree(c, f); PathKey(p, 1) in T.at && Flagged(Leaf(m, T, p), p, true, false)
  {
    UnitsCover(c.pages, p);
    ShiftSteps(p, 1);
    assert Shift(p, 1) == Shift(p, 0) / 512 && IsKey(c, Key(1, p / 512));
    FlatEntry(m, f + 1 + c.drawers + c.directories, p / 512, p % 512);
    assert FlatAt(m, f + 1 + c.drawers + c.directories, p) == Entry(p, BOOT_FLAGS);
    EntryFlagged(p, BOOT_FLAGS, true, false);
  }

  lemma BootTable(m: Memory, c: Counts, f: int, k: Key)
    requires Sized(c, f) && Chained(c) && Arrays(m, c, f) && IsKey(c, k) && k.level < 4
    ensures TableFlagged(m, BootTree(c, f), k, true, false)
  {
    if k.level == 3 {
      BootLink(m, c, f, k, f, c.drawers, f + 1);
    } else if k.level == 2 {
      UnitsCover(c.directories, k.prefix);
      BootLink(m, c, f, k, f + 1, c.directories, f + 1 + c.drawers);
    } else {
      UnitsCover(c.tables, k.prefix);
      BootLink(m, c, f, k, f + 1 + c.drawers, c.tables, f + 1 + c.drawers + c.directories);
    }
  }

  /** The entry that leads to a table, in the array of the level above. */
  lemma BootLink(m: Memory, c: Counts, f: int, k: Key, row: int, count: int, first: int)
    requires IsKey(c, k) && 1 <= k.level < 4 && Flat(m, row, 512 * Units(count), count, first)
             && 0 <= k.prefix < count
    requires var up := Key(k.level + 1, k.prefix / 512);
             IsKey(c, up) && FrameFor(c, f, up) == row + k.prefix / 512 && FrameFor(c, f, k) == first + k.prefix
    ensures TableFlagged(m, BootTree(c, f), k, true, false)
  {
    var T, up := BootTree(c, f), Key(k.level + 1, k.prefix / 512);
    assert T.at[up] == row + k.prefix / 512 && T.at[k] == first + k.prefix;
    FlatEntry(m, row, k.prefix / 512, k.prefix % 512);
    assert FlatAt(m, row, k.prefix) == Entry(first + k.prefix, BOOT_FLAGS);
    EntryFlagged(first + k.prefix, BOOT_FLAGS, true, false);
  }

  lemma BootFlags(m: Memory, c: Counts, f: int)
    requires Sized(c, f) && Chained(c) && Arrays(m, c, f)
    ensures AllFlagged(m, BootTree(c, f), true, false)
  {
    var T := BootTree(c, f);
    forall p | p in T.pages ensures PathKey(p, 1) in T.at && Flagged(Leaf(m, T, p), T.pages[p], true, false) {
      BootLeaf(m, c, f, p);
    }
    forall k | k in T.at && k.level < 4 ensures TableFlagged(m, T, k, true, false) {
      BootTable(m, c, f, k);
    }
  }

  ghost predicate Cleared(m: Memory, m': Memory, f: int, g: int) {
    Zeroed(m', PAGE_SIZE * f, PAGE_SIZE * g) && Within(m, m', PAGE_SIZE * f, PAGE_SIZE * g)
  }

  /** What lies before the frames just written is still zero. */
  lemma ZeroedKept(m: Memory, m': Memory, f: int, from: int, to: int)
    requires Zeroed(m, PAGE_SIZE * f, PAGE_SIZE * to) && Within(m, m', PAGE_SIZE * from, PAGE_SIZE * to)
             && f <= from <= to
    ensures Zeroed(m', PAGE_SIZE * f, PAGE_SIZE * from)
  {
    forall w | PAGE_SIZE * f <= w < PAGE_SIZE * from && w % 8 == 0 ensures Rd(m', w) == 0 { assert Rd(m, w) == 0; }
  }

  lemma WithinThen(m: Memory, m1: Memory, m2: Memory, f: int, from: int, to: int, end: int)
    requires Within(m, m1, PAGE_SIZE * f, PAGE_SIZE * end) && Within(m1, m2, PAGE_SIZE * from, PAGE_SIZE * to)
             && f <= from && to <= end
    ensures Within(m, m2, PAGE_SIZE * f, PAGE_SIZE * end)
  {
    forall w | w < PAGE_SIZE * f || PAGE_SIZE * end <= w ensures Rd(m2, w) == Rd(m, w) { assert Rd(m1, w) == Rd(m, w); }
  }

  /** The bootstrap tables are as many as their frames. */
  lemma BootCount(c: Counts, f: int)
    requires Sized(c, f)
    ensures |BootTree(c, f).at| == TableFrames(c)
    ensures forall k | k in BootTree(c, f).at :: f <= BootTree(c, f).at[k] < f + TableFrames(c)
  {
    var T := BootTree(c, f);
    forall k | k in T.at ensures f <= T.at[k] < f + TableFrames(c) { assert IsKey(c, k); }
    KeysAre(c);
    KeysCount(c);
    assert T.at.Keys == Keys(c);
  }

  lemma KeysCount(c: Counts)
    requires 0 <= c.drawers && 0 <= c.directories && 0 <= c.tables
    ensures |Keys(c)| == TableFrames(c)
  {
    LevelCount(3, c.drawers);
    LevelCount(2, c.directories);
    LevelCount(1, c.tables);
    var r, d3, d2, d1 := {Key(4, 0)}, Level(3, c.drawers), Level(2, c.directories), Level(1, c.tables);
    assert r !! d3;
    assert |r + d3| == 1 + c.drawers;
    assert (r + d3) !! d2;
    assert |r + d3 + d2| == 1 + c.drawers + c.directories;
    assert (r + d3 + d2) !! d1;
  }

  lemma {:induction false} LevelCount(level: int, n: int)
    requires 0 <= n
    ensures |Level(level, n)| == n
  {
    if n > 0 {
      LevelCount(level, n - 1);
      assert Level(level, n) == Level(level, n - 1) + {Key(level, n - 1)};
    }
  }

  /** From 2MB on, the bootstrap tables lie inside the range they map. */
  lemma BootTablesInside(amount: int)
    requires 0x200000 <= amount
    ensures PADDR_LOC + PAGE_SIZE * TableFrames(CountsFor(amount)) <= PAGE_SIZE * CountsFor(amount).pages
  {
    var c := CountsFor(amount);
    assert c.pages >= 512;
    assert 512 * c.tables <= c.pages + 511 && 512 * c.directories <= c.tables + 511
           && 512 * c.drawers <= c.directories + 511;
  }
}
