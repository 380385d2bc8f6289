/**
 Four-level paging (section 4.5 of the Intel SDM, volume 3A) as a tree of tables in memory and as the map
 from page numbers to frames that it stands for.
 */
module PageTree {
  import opened Machine

  /** 2^36 pages of a 48-bit address space; 2^40 frames in an entry. */
  const PAGES: int := 0x10_0000_0000
  const FRAMES: int := 0x100_0000_0000

  /** The table that covers the pages v with Shift(v, level) == prefix. */
  datatype Key = Key(level: int, prefix: int)

  /** at: the frame that holds each table; pages: what the tables map. */
  datatype Tree = Tree(at: map<Key, int>, pages: map<int, int>)

  /** The page number of an address once `PAGE_CANONICAL` has cut it to 48 bits. */
  function Vpn(vaddr: int): int {
    vaddr / PAGE_SIZE % PAGES
  }

  /** `PAGE_FRAME` */
  function FrameOf(paddr: int): int {
    paddr / PAGE_SIZE % FRAMES
  }

  /** The page number without its lowest 9 * level bits. */
  function Shift(v: int, level: nat): int {
    if level == 0 then v else Shift(v, level - 1) / 512
  }

  /** `PAGE_PML_IDX` of a page at a level. */
  function Idx(v: int, level: nat): int
    requires level > 0
  {
    Shift(v, level - 1) % 512
  }

  /** The number of prefixes at a level. */
  function Prefixes(level: int): int {
    if level == 4 then 1 else if level == 3 then 512 else if level == 2 then 0x40000 else 0x8000000
  }

  lemma ShiftBounds(v: int)
    requires 0 <= v < PAGES
    ensures 0 <= Shift(v, 1) < Prefixes(1) && 0 <= Shift(v, 2) < Prefixes(2) && 0 <= Shift(v, 3) < Prefixes(3)
    ensures Shift(v, 4) == 0 && Shift(v, 0) == v
  {
    assert Shift(v, 1) == Shift(v, 0) / 512 && Shift(v, 2) == Shift(v, 1) / 512;
    assert Shift(v, 3) == Shift(v, 2) / 512 && Shift(v, 4) == Shift(v, 3) / 512;
  }

  lemma ShiftSteps(v: int, level: nat)
    requires level > 0
    ensures Shift(v, level - 1) == 512 * Shift(v, level) + Idx(v, level) && 0 <= Idx(v, level) < 512
  {
  }

  function Present(e: int): bool {
    e % 2 == 1
  }

  /** Present and writable. */
  function Writable(e: int): bool {
    e % 4 == 3
  }

  function Frame(e: int): int {
    e / PAGE_SIZE % FRAMES
  }

  /** An entry with its frame and flag bits. */
  function Entry(frame: int, flags: int): int {
    PAGE_SIZE * frame + flags
  }

  lemma EntryParts(frame: int, flags: int)
    requires 0 <= frame < FRAMES && 0 <= flags < PAGE_SIZE && flags % 4 == 3
    ensures Frame(Entry(frame, flags)) == frame && Present(Entry(frame, flags)) && Writable(Entry(frame, flags))
  {
    assert Entry(frame, flags) / PAGE_SIZE == frame;
    var q := flags / 4;
    var n := 1024 * frame + q;
    LowTwo(n);
    LowOne(2 * n + 1);
    assert Entry(frame, flags) == 4 * n + 3 == 2 * (2 * n + 1) + 1;
  }

  lemma LowTwo(n: int)
    ensures (4 * n + 3) % 4 == 3
  {
  }

  lemma LowOne(n: int)
    ensures (2 * n + 1) % 2 == 1
  {
  }

  function EntryAddr(table: int, i: int): int {
    PAGE_SIZE * table + 8 * i
  }

  function EntryAt(m: Memory, table: int, i: int): int {
    Rd(m, EntryAddr(table, i))
  }

  /** An entry leads, writable, to what the tree holds below it, and is zero if there is nothing. */
  predicate EntryOk(m: Memory, T: Tree, k: Key, i: int)
    requires k in T.at
  {
    var e, c := EntryAt(m, T.at[k], i), 512 * k.prefix + i;
    if k.level > 1 then
      if Key(k.level - 1, c) in T.at then Present(e) && Writable(e) && Frame(e) == T.at[Key(k.level - 1, c)] else e == 0
    else
      if c in T.pages then Present(e) && Writable(e) && Frame(e) == T.pages[c] else e == 0
  }

  predicate KeyOk(T: Tree, k: Key)
    requires k in T.at
  {
    && 1 <= k.level <= 4 && 0 <= k.prefix < Prefixes(k.level)
    && 0 <= T.at[k] < FRAMES
    && (k.level < 4 ==> Key(k.level + 1, k.prefix / 512) in T.at)
  }

  predicate PageOk(T: Tree, v: int)
    requires v in T.pages
  {
    0 <= v < PAGES && 0 <= T.pages[v] < FRAMES && Key(1, Shift(v, 1)) in T.at
  }

  /** No two tables share a frame. */
  ghost predicate Unshared(T: Tree) {
    forall k, l | k in T.at && l in T.at && T.at[k] == T.at[l] :: k == l
  }

  /** Every table below the root serves a page of S. */
  ghost predicate Needed(T: Tree, S: set<int>) {
    forall k {:trigger k in T.at} | k in T.at && 1 <= k.level < 4 :: exists v :: v in S && Shift(v, k.level) == k.prefix
  }

  ghost predicate KeysOk(T: Tree) {
    forall k {:trigger KeyOk(T, k)} | k in T.at :: KeyOk(T, k)
  }

  ghost predicate TreeOk(m: Memory, root: int, T: Tree) {
    && Key(4, 0) in T.at && T.at[Key(4, 0)] == root
    && KeysOk(T)
    && (forall v {:trigger PageOk(T, v)} | v in T.pages :: PageOk(T, v))
    && Unshared(T)
    && (forall k, i {:trigger EntryOk(m, T, k, i)} | k in T.at && 0 <= i < 512 :: EntryOk(m, T, k, i))
  }

  /** The key of the table for page v at a level. */
  function PathKey(v: int, level: nat): Key {
    Key(level, Shift(v, level))
  }

  /** The entry for v in its level's table leads to its table one level down, if that exists. */
  lemma PathEntry(m: Memory, root: int, T: Tree, v: int, level: nat)
    requires TreeOk(m, root, T) && 0 <= v < PAGES && 1 <= level <= 4 && PathKey(v, level) in T.at
    ensures var e := EntryAt(m, T.at[PathKey(v, level)], Idx(v, level));
            && (level > 1 ==>
                  if PathKey(v, level - 1) in T.at then Present(e) && Frame(e) == T.at[PathKey(v, level - 1)]
                  else e == 0)
            && (level == 1 ==> if v in T.pages then Present(e) && Frame(e) == T.pages[v] else e == 0)
  {
    ShiftSteps(v, level);
    assert EntryOk(m, T, PathKey(v, level), Idx(v, level));
  }

  /** A mapped page has a table at every level. */
  lemma MappedPath(m: Memory, root: int, T: Tree, v: int, level: nat)
    requires TreeOk(m, root, T) && 1 <= level <= 4 && 0 <= v < PAGES && PathKey(v, 1) in T.at
    ensures PathKey(v, level) in T.at
    decreases level
  {
    if level > 1 {
      MappedPath(m, root, T, v, level - 1);
      assert KeyOk(T, PathKey(v, level - 1));
    }
  }

  // ----- Growing the tree -----

  function AddTable(T: Tree, k: Key, frame: int): Tree {
    T.(at := T.at[k := frame])
  }

  function AddPage(T: Tree, v: int, frame: int): Tree {
    T.(pages := T.pages[v := frame])
  }

  /** A frame that holds no table and is all zero. */
  ghost predicate Blank(m: Memory, T: Tree, frame: int) {
    && 0 <= frame < FRAMES
    && (forall k | k in T.at :: T.at[k] != frame)
    && (forall i {:trigger EntryAddr(frame, i)} | 0 <= i < 512 :: Rd(m, EntryAddr(frame, i)) == 0)
  }

  lemma EntryAddrInjective(f: int, i: int, g: int, j: int)
    requires 0 <= i < 512 && 0 <= j < 512 && EntryAddr(f, i) == EntryAddr(g, j)
    ensures f == g && i == j
  {
  }

  lemma Digits(p: int, i: int, q: int, j: int)
    requires 0 <= i < 512 && 0 <= j < 512
    ensures (512 * p + i) / 512 == p
    ensures 512 * p + i == 512 * q + j ==> p == q && i == j
  {
  }

  /** Nothing hangs below a table that does not exist yet. */
  lemma NewTableEntry(m: Memory, root: int, T: Tree, n: Key, j: int)
    requires TreeOk(m, root, T) && n !in T.at && 0 <= j < 512 && 1 <= n.level <= 4
    ensures Key(n.level - 1, 512 * n.prefix + j) !in T.at
    ensures n.level == 1 ==> 512 * n.prefix + j !in T.pages
  {
    Digits(n.prefix, j, 0, 0);
    var c, w := Key(n.level - 1, 512 * n.prefix + j), 512 * n.prefix + j;
    assert c in T.at ==> KeyOk(T, c);
    assert Shift(w, 1) == Shift(w, 0) / 512;
    PageHasTable(m, root, T, w);
  }

  lemma PageHasTable(m: Memory, root: int, T: Tree, w: int)
    requires TreeOk(m, root, T)
    ensures w in T.pages ==> Key(1, Shift(w, 1)) in T.at
  {
    assert w in T.pages ==> PageOk(T, w);
  }

  /** An entry of the new table. */
  lemma FreshEntry(m: Memory, m': Memory, root: int, T: Tree, k: Key, i: int, n: Key, frame: int, e: int, j: int)
    requires TreeOk(m, root, T) && k in T.at && n !in T.at && 1 <= n.level <= 4 && 0 <= i < 512 && 0 <= j < 512
    requires Blank(m, T, frame) && m' == m[EntryAddr(T.at[k], i) := e]
    ensures EntryOk(m', AddTable(T, n, frame), n, j)
  {
    NewTableEntry(m, root, T, n, j);
    assert Rd(m, EntryAddr(frame, j)) == 0;
    if EntryAddr(frame, j) == EntryAddr(T.at[k], i) { EntryAddrInjective(frame, j, T.at[k], i); }
  }

  /** An old entry after a new table n was hung into entry i of table k. */
  lemma OldEntry(m: Memory, m': Memory, root: int, T: Tree, k: Key, i: int, n: Key, frame: int, e: int, l: Key, j: int)
    requires TreeOk(m, root, T) && k in T.at && n !in T.at && 0 <= i < 512 && 0 <= j < 512 && l in T.at
    requires n == Key(k.level - 1, 512 * k.prefix + i) && k.level > 1
    requires Present(e) && Writable(e) && Frame(e) == frame && m' == m[EntryAddr(T.at[k], i) := e]
    ensures EntryOk(m', AddTable(T, n, frame), l, j)
  {
    assert EntryOk(m, T, l, j);
    Digits(k.prefix, i, l.prefix, j);
    if EntryAddr(T.at[l], j) == EntryAddr(T.at[k], i) {
      EntryAddrInjective(T.at[l], j, T.at[k], i);
    }
  }

  lemma TableAdded(m: Memory, root: int, T: Tree, v: int, level: nat, frame: int, e: int)
    requires TreeOk(m, root, T) && 0 <= v < PAGES && 1 < level <= 4
    requires PathKey(v, level) in T.at && PathKey(v, level - 1) !in T.at
    requires Blank(m, T, frame) && Present(e) && Writable(e) && Frame(e) == frame
    ensures TreeOk(m[EntryAddr(T.at[PathKey(v, level)], Idx(v, level)) := e], root,
                   AddTable(T, PathKey(v, level - 1), frame))
  {
    var k, n, i := PathKey(v, level), PathKey(v, level - 1), Idx(v, level);
    var T', m' := AddTable(T, n, frame), m[EntryAddr(T.at[k], i) := e];
    ShiftSteps(v, level);
    KeysAfter(T, v, level, frame);
    forall w | w in T'.pages ensures PageOk(T', w) { assert PageOk(T, w); }
    forall l, j | l in T'.at && 0 <= j < 512 ensures EntryOk(m', T', l, j) {
      if l == n {
        FreshEntry(m, m', root, T, k, i, n, frame, e, j);
      } else {
        OldEntry(m, m', root, T, k, i, n, frame, e, l, j);
      }
    }
  }

  lemma KeysAfter(T: Tree, v: int, level: nat, frame: int)
    requires 0 <= v < PAGES && 1 < level <= 4 && 0 <= frame < FRAMES
    requires PathKey(v, level) in T.at && PathKey(v, level - 1) !in T.at
    requires KeysOk(T)
    ensures KeysOk(AddTable(T, PathKey(v, level - 1), frame))
  {
    var n := PathKey(v, level - 1);
    var T' := AddTable(T, n, frame);
    ShiftBounds(v);
    forall l | l in T'.at ensures KeyOk(T', l) {
      if l != n { assert KeyOk(T, l); }
    }
  }

  /** An old entry after page v was mapped through entry i of table k. */
  lemma OldEntryPage(m: Memory, m': Memory, root: int, T: Tree, k: Key, i: int, v: int, frame: int, e: int, l: Key,
                     j: int)
    requires TreeOk(m, root, T) && k in T.at && k.level == 1 && 0 <= i < 512 && 0 <= j < 512 && l in T.at
    requires v == 512 * k.prefix + i
    requires Present(e) && Writable(e) && Frame(e) == frame && m' == m[EntryAddr(T.at[k], i) := e]
    ensures EntryOk(m', AddPage(T, v, frame), l, j)
  {
    assert EntryOk(m, T, l, j) && KeyOk(T, l);
    Digits(k.prefix, i, l.prefix, j);
    if EntryAddr(T.at[l], j) == EntryAddr(T.at[k], i) {
      EntryAddrInjective(T.at[l], j, T.at[k], i);
    }
  }

  lemma PageAdded(m: Memory, root: int, T: Tree, v: int, frame: int, e: int)
    requires TreeOk(m, root, T) && 0 <= v < PAGES && PathKey(v, 1) in T.at && v !in T.pages
    requires 0 <= frame < FRAMES && Present(e) && Writable(e) && Frame(e) == frame
    ensures TreeOk(m[EntryAddr(T.at[PathKey(v, 1)], Idx(v, 1)) := e], root, AddPage(T, v, frame))
  {
    var k, i := PathKey(v, 1), Idx(v, 1);
    var T', m' := AddPage(T, v, frame), m[EntryAddr(T.at[k], i) := e];
    ShiftSteps(v, 1);
    forall l | l in T'.at ensures KeyOk(T', l) { assert KeyOk(T, l); }
    forall w | w in T'.pages ensures PageOk(T', w) {
      if w != v { assert PageOk(T, w); }
    }
    forall l, j | l in T'.at && 0 <= j < 512 ensures EntryOk(m', T', l, j) {
      OldEntryPage(m, m', root, T, k, i, v, frame, e, l, j);
    }
  }

  /** The memory with a frame filled with zeroes. */
  ghost predicate Filled(m: Memory, m': Memory, frame: int) {
    && (forall i {:trigger EntryAddr(frame, i)} | 0 <= i < 512 :: Rd(m', EntryAddr(frame, i)) == 0)
    && (forall w {:trigger Rd(m', w)} | w < EntryAddr(frame, 0) || EntryAddr(frame, 512) <= w :: Rd(m', w) == Rd(m, w))
  }

  lemma FilledKeeps(m: Memory, m': Memory, root: int, T: Tree, frame: int)
    requires TreeOk(m, root, T) && Filled(m, m', frame) && forall k | k in T.at :: T.at[k] != frame
    ensures TreeOk(m', root, T)
  {
    forall k, i | k in T.at && 0 <= i < 512 ensures EntryOk(m', T, k, i) {
      assert EntryOk(m, T, k, i);
      assert EntryAddr(T.at[k], i) < EntryAddr(frame, 0) || EntryAddr(frame, 512) <= EntryAddr(T.at[k], i);
    }
  }

  /** `mem_fill` of one page. */
  method FillTable(ram: Ram, frame: int)
    modifies ram
    ensures Filled(old(ram.m), ram.m, frame)
  {
    var i := 0;
    while i < 512
      invariant 0 <= i <= 512
      invariant forall j {:trigger EntryAddr(frame, j)} | 0 <= j < i :: Rd(ram.m, EntryAddr(frame, j)) == 0
      invariant forall w {:trigger Rd(ram.m, w)} | w < EntryAddr(frame, 0) || EntryAddr(frame, i) <= w ::
                  Rd(ram.m, w) == Rd(old(ram.m), w)
    {
      ghost var m := ram.m;
      ram.m := ram.m[EntryAddr(frame, i) := 0];
      forall w | w < EntryAddr(frame, 0) || EntryAddr(frame, i + 1) <= w ensures Rd(ram.m, w) == Rd(old(ram.m), w) {
        assert Rd(m, w) == Rd(old(ram.m), w);
      }
      i := i + 1;
    }
  }

  /** Every mapped page is mapped to itself. */
  ghost predicate Identity(T: Tree) {
    forall v | v in T.pages :: T.pages[v] == v
  }

  lemma StillNeeded(T: Tree, U: Tree, v: int)
    requires Needed(T, T.pages.Keys) && T.pages.Keys <= U.pages.Keys
    requires forall k {:trigger k in U.at} | k in U.at && k !in T.at ::
               1 <= k.level < 4 && k == PathKey(v, k.level) && v in U.pages
    ensures Needed(U, U.pages.Keys)
  {
    forall k | k in U.at && 1 <= k.level < 4 ensures exists w :: w in U.pages.Keys && Shift(w, k.level) == k.prefix {
      if k in T.at {
        var w :| w in T.pages.Keys && Shift(w, k.level) == k.prefix;
        assert w in U.pages.Keys;
      } else {
        assert v in U.pages.Keys && Shift(v, k.level) == k.prefix;
      }
    }
  }

  // ----- What entries hold -----

  /**
   An entry bit by bit, in the order of section 4.5 of the Intel SDM: it is present, it can be written to, user mode
   has no access; it is written through and kept out of caches as said; no other bit below the frame is set.
   */
  predicate Flagged(e: int, frame: int, through: bool, uncached: bool) {
    && e / 4096 == frame
    && e % 2 == 1
    && e / 2 % 2 == 1
    && e / 4 % 2 == 0
    && (e / 8 % 2 == 1 <==> through)
    && (e / 16 % 2 == 1 <==> uncached)
    && e / 32 % 128 == 0
  }

  lemma EntryFlagged(frame: int, flags: int, through: bool, uncached: bool)
    requires flags == 3 + (if through then 8 else 0) + if uncached then 16 else 0
    ensures Flagged(Entry(frame, flags), frame, through, uncached)
  {
    Upper(frame, flags);
    LowerBits(frame, flags);
  }

  lemma Upper(frame: int, flags: int)
    requires 0 <= flags < 32
    ensures Entry(frame, flags) / 4096 == frame && Entry(frame, flags) / 32 % 128 == 0
  {
    assert Entry(frame, flags) / 32 == 128 * frame;
  }

  lemma LowerBits(frame: int, flags: int)
    requires 0 <= flags < 32
    ensures var e := Entry(frame, flags);
            && e % 2 == flags % 2 && e / 2 % 2 == flags / 2 % 2 && e / 4 % 2 == flags / 4 % 2
            && e / 8 % 2 == flags / 8 % 2 && e / 16 % 2 == flags / 16 % 2
  {
    SameParity(2048 * frame, flags);
    SameBit(frame, flags, 2);
    SameBit(frame, flags, 4);
    SameBit(frame, flags, 8);
    SameBit(frame, flags, 16);
  }

  lemma SameBit(frame: int, flags: int, d: int)
    requires 0 <= flags < 32 && (d == 2 || d == 4 || d == 8 || d == 16)
    ensures Entry(frame, flags) / d % 2 == flags / d % 2
  {
    if d == 2 {
      SameParity(1024 * frame, flags / 2);
    } else if d == 4 {
      SameParity(512 * frame, flags / 4);
    } else if d == 8 {
      SameParity(256 * frame, flags / 8);
    } else {
      SameParity(128 * frame, flags / 16);
    }
  }

  lemma SameParity(n: int, x: int)
    ensures (2 * n + x) % 2 == x % 2
  {
  }

  /** The last-level entry of a page, flags and all. */
  function Leaf(m: Memory, T: Tree, v: int): int
    requires PathKey(v, 1) in T.at
  {
    EntryAt(m, T.at[PathKey(v, 1)], Idx(v, 1))
  }

  /** The entry that leads to a table has these bits. */
  ghost predicate TableFlagged(m: Memory, T: Tree, k: Key, through: bool, uncached: bool)
    requires k in T.at
  {
    var up := Key(k.level + 1, k.prefix / 512);
    up in T.at && Flagged(EntryAt(m, T.at[up], k.prefix % 512), T.at[k], through, uncached)
  }

  /** All entries in use have these bits. */
  ghost predicate AllFlagged(m: Memory, T: Tree, through: bool, uncached: bool) {
    && (forall v {:trigger v in T.pages} | v in T.pages ::
          PathKey(v, 1) in T.at && Flagged(Leaf(m, T, v), T.pages[v], through, uncached))
    && (forall k {:trigger TableFlagged(m, T, k, through, uncached)} | k in T.at && k.level < 4 ::
          TableFlagged(m, T, k, through, uncached))
  }

  /** The entries that lead to the tables of U that T lacks have these bits. */
  ghost predicate NewTables(m: Memory, T: Tree, U: Tree, through: bool, uncached: bool) {
    forall k {:trigger TableFlagged(m, U, k, through, uncached)} | k in U.at && k !in T.at ::
      TableFlagged(m, U, k, through, uncached)
  }

  /** No bit of an entry in use has changed. */
  ghost predicate EntriesKept(m: Memory, m': Memory, T: Tree) {
    forall k, i {:trigger EntryAt(m', T.at[k], i)} | k in T.at && 0 <= i < 512 && EntryAt(m, T.at[k], i) != 0 ::
      EntryAt(m', T.at[k], i) == EntryAt(m, T.at[k], i)
  }

  lemma EntriesKeptThen(m: Memory, m1: Memory, m2: Memory, T: Tree, U: Tree)
    requires EntriesKept(m, m1, T) && EntriesKept(m1, m2, U)
    requires forall k | k in T.at :: k in U.at && U.at[k] == T.at[k]
    ensures EntriesKept(m, m2, T)
  {
    forall k, i | k in T.at && 0 <= i < 512 && EntryAt(m, T.at[k], i) != 0
      ensures EntryAt(m2, T.at[k], i) == EntryAt(m, T.at[k], i)
    {
      assert EntryAt(m1, T.at[k], i) == EntryAt(m, T.at[k], i);
      assert EntryAt(m2, U.at[k], i) == EntryAt(m1, U.at[k], i);
    }
  }

  /** An address in none of the tables. */
  ghost predicate Outside(T: Tree, w: int) {
    forall k | k in T.at :: w < 4096 * T.at[k] || 4096 * T.at[k] + 4096 <= w
  }

  /** Nothing was written but tables. */
  ghost predicate OnlyTables(m: Memory, m': Memory, T: Tree) {
    forall w {:trigger Outside(T, w)} | Outside(T, w) :: Rd(m', w) == Rd(m, w)
  }

  /**
   T grew to U: no entry in use has changed, those that lead to new tables have these bits, and nothing but tables was
   written.
   */
  ghost predicate Hung(m: Memory, m': Memory, T: Tree, U: Tree, through: bool, uncached: bool) {
    && (forall k | k in T.at :: k in U.at && U.at[k] == T.at[k])
    && EntriesKept(m, m', T) && NewTables(m', T, U, through, uncached) && OnlyTables(m, m', U)
  }

  lemma HungThen(m: Memory, m1: Memory, m2: Memory, T: Tree, U: Tree, W: Tree, through: bool, uncached: bool)
    requires Hung(m, m1, T, U, through, uncached) && Hung(m1, m2, U, W, through, uncached)
    ensures Hung(m, m2, T, W, through, uncached)
  {
    EntriesKeptThen(m, m1, m2, T, U);
    OnlyTablesThen(m, m1, m2, U, W);
    forall k | k in W.at && k !in T.at ensures TableFlagged(m2, W, k, through, uncached) {
      if k in U.at {
        assert TableFlagged(m1, U, k, through, uncached);
        StaysFlagged(m1, m2, U, W, k, through, uncached);
      }
    }
  }

  lemma OnlyTablesThen(m: Memory, m1: Memory, m2: Memory, U: Tree, W: Tree)
    requires OnlyTables(m, m1, U) && OnlyTables(m1, m2, W) && forall k | k in U.at :: k in W.at && W.at[k] == U.at[k]
    ensures OnlyTables(m, m2, W)
  {
    forall w | Outside(W, w) ensures Rd(m2, w) == Rd(m, w) {
      assert Outside(U, w) by {
        forall k | k in U.at ensures w < 4096 * U.at[k] || 4096 * U.at[k] + 4096 <= w { assert k in W.at; }
      }
    }
  }

  lemma StaysFlagged(m: Memory, m': Memory, T: Tree, U: Tree, k: Key, through: bool, uncached: bool)
    requires k in T.at && TableFlagged(m, T, k, through, uncached) && EntriesKept(m, m', T)
    requires forall l | l in T.at :: l in U.at && U.at[l] == T.at[l]
    ensures TableFlagged(m', U, k, through, uncached)
  {
    var up := Key(k.level + 1, k.prefix / 512);
    assert EntryAt(m', T.at[up], k.prefix % 512) == EntryAt(m, T.at[up], k.prefix % 512);
  }

  /** Only a free entry was filled. */
  lemma EntryFilled(m: Memory, m': Memory, T: Tree, k: Key, i: int, e: int)
    requires k in T.at && 0 <= i < 512 && EntryAt(m, T.at[k], i) == 0 && m' == m[EntryAddr(T.at[k], i) := e]
    ensures EntriesKept(m, m', T) && OnlyTables(m, m', T) && EntryAt(m', T.at[k], i) == e
  {
    forall w | Outside(T, w) ensures Rd(m', w) == Rd(m, w) { assert w != EntryAddr(T.at[k], i); }
  }

  /** A frame that holds no table was cleared. */
  lemma FilledKeepsEntries(m: Memory, m': Memory, T: Tree, frame: int)
    requires Filled(m, m', frame) && forall k | k in T.at :: T.at[k] != frame
    ensures EntriesKept(m, m', T)
    ensures forall k, i | k in T.at && 0 <= i < 512 :: EntryAt(m', T.at[k], i) == EntryAt(m, T.at[k], i)
  {
    forall k, i | k in T.at && 0 <= i < 512 ensures EntryAt(m', T.at[k], i) == EntryAt(m, T.at[k], i) {
      assert EntryAddr(T.at[k], i) < EntryAddr(frame, 0) || EntryAddr(frame, 512) <= EntryAddr(T.at[k], i);
      assert Rd(m', EntryAddr(T.at[k], i)) == Rd(m, EntryAddr(T.at[k], i));
    }
  }

  /** A new table was cleared and hung into a free entry for page v. */
  lemma TableHung(m: Memory, m1: Memory, m2: Memory, T: Tree, v: int, level: nat, frame: int, e: int, through: bool,
                  uncached: bool)
    requires 1 < level && PathKey(v, level) in T.at && PathKey(v, level - 1) !in T.at
    requires EntryAt(m, T.at[PathKey(v, level)], Idx(v, level)) == 0
    requires Filled(m, m1, frame) && forall k | k in T.at :: T.at[k] != frame
    requires m2 == m1[EntryAddr(T.at[PathKey(v, level)], Idx(v, level)) := e] && Flagged(e, frame, through, uncached)
    ensures Hung(m, m2, T, AddTable(T, PathKey(v, level - 1), frame), through, uncached)
  {
    var k, i := PathKey(v, level), Idx(v, level);
    ShiftSteps(v, level);
    FilledKeepsEntries(m, m1, T, frame);
    EntryFilled(m1, m2, T, k, i, e);
    EntriesKeptThen(m, m1, m2, T, T);
    assert Key(level, Shift(v, level - 1) / 512) == k;
    HungOnlyTables(m, m1, m2, T, k, i, PathKey(v, level - 1), frame, e);
  }

  lemma HungOnlyTables(m: Memory, m1: Memory, m2: Memory, T: Tree, k: Key, i: int, n: Key, frame: int, e: int)
    requires k in T.at && k != n && 0 <= i < 512 && Filled(m, m1, frame) && m2 == m1[EntryAddr(T.at[k], i) := e]
    ensures OnlyTables(m, m2, AddTable(T, n, frame))
  {
    var U := AddTable(T, n, frame);
    forall w | Outside(U, w) ensures Rd(m2, w) == Rd(m, w) {
      assert U.at[n] == frame && U.at[k] == T.at[k];
      assert w < EntryAddr(frame, 0) || EntryAddr(frame, 512) <= w;
      assert Rd(m1, w) == Rd(m, w);
    }
  }

  // ----- Addresses -----

  /** `PAGE_PML_IDX`: 9 bits of an address. */
  function PmlIdx(vaddr: int, level: nat): int
    requires level > 0
  {
    Shift(vaddr / PAGE_SIZE, level - 1) % 512
  }

  lemma ShiftMod(x: int, level: nat)
    requires 0 <= x && level <= 3
    ensures Shift(x % PAGES, level) % 512 == Shift(x, level) % 512
  {
    var q, r := x / PAGES, x % PAGES;
    assert x == PAGES * q + r;
    if level == 0 {
      DropDigits(0x8000000 * q, r);
    } else if level == 1 {
      ShiftOne(q, r);
      DropDigits(0x40000 * q, Shift(r, 1));
    } else if level == 2 {
      ShiftTwo(q, r);
      DropDigits(512 * q, Shift(r, 2));
    } else {
      ShiftThree(q, r);
      DropDigits(q, Shift(r, 3));
    }
  }

  /** Higher digits do not matter to the last one. */
  lemma DropDigits(k: int, t: int)
    ensures (512 * k + t) % 512 == t % 512
  {
    var n := t / 512;
    assert 512 * k + t == 512 * (k + n) + t % 512;
  }

  lemma TakeDigit(k: int, t: int)
    ensures (512 * k + t) / 512 == k + t / 512
  {
    assert 512 * k + t == 512 * (k + t / 512) + t % 512;
  }

  lemma ShiftOne(q: int, r: int)
    ensures Shift(PAGES * q + r, 1) == 0x8000000 * q + Shift(r, 1)
  {
    assert PAGES * q == 512 * (0x8000000 * q);
    TakeDigit(0x8000000 * q, r);
    ShiftOnce(PAGES * q + r, 1);
    ShiftOnce(r, 1);
    ShiftNone(PAGES * q + r);
    ShiftNone(r);
  }

  lemma ShiftTwo(q: int, r: int)
    ensures Shift(PAGES * q + r, 2) == 0x40000 * q + Shift(r, 2)
  {
    ShiftOne(q, r);
    assert 0x8000000 * q == 512 * (0x40000 * q);
    TakeDigit(0x40000 * q, Shift(r, 1));
    ShiftOnce(PAGES * q + r, 2);
    ShiftOnce(r, 2);
  }

  lemma ShiftThree(q: int, r: int)
    ensures Shift(PAGES * q + r, 3) == 512 * q + Shift(r, 3)
  {
    ShiftTwo(q, r);
    assert 0x40000 * q == 512 * (512 * q);
    TakeDigit(512 * q, Shift(r, 2));
    ShiftOnce(PAGES * q + r, 3);
    ShiftOnce(r, 3);
  }

  lemma ShiftOnce(x: int, level: nat)
    requires level > 0
    ensures Shift(x, level) == Shift(x, level - 1) / 512
  {
  }

  lemma ShiftNone(x: int)
    ensures Shift(x, 0) == x
  {
  }

  /** The index bits of an address are those of its page number. */
  lemma PmlIdxIsIdx(vaddr: int, level: nat)
    requires 0 <= vaddr && 1 <= level <= 4
    ensures PmlIdx(vaddr, level) == Idx(Vpn(vaddr), level)
  {
    ShiftMod(vaddr / PAGE_SIZE, level - 1);
  }

  /** `PAGE_CANONICAL(PAGE_ALIGN(vaddr))` */
  function Canonical(vaddr: int): int {
    PageAlign(vaddr) % (PAGES * PAGE_SIZE)
  }

  lemma CanonicalVpn(vaddr: int)
    requires 0 <= vaddr
    ensures 0 <= Canonical(vaddr) && Canonical(vaddr) / PAGE_SIZE == Vpn(vaddr) && Vpn(Canonical(vaddr)) == Vpn(vaddr)
    ensures 0 <= Vpn(vaddr) < PAGES
  {
    var x := vaddr / PAGE_SIZE;
    assert PageAlign(vaddr) == PAGE_SIZE * x;
    var q, r := x / PAGES, x % PAGES;
    assert PAGE_SIZE * x == (PAGES * PAGE_SIZE) * q + PAGE_SIZE * r;
    assert Canonical(vaddr) == PAGE_SIZE * r;
  }

  lemma FrameBounds(e: int)
    ensures 0 <= Frame(e) < FRAMES && (e == 0 ==> Frame(e) == 0)
  {
  }
}
