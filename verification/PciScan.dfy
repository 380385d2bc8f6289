/** The recursive PCI scan: what it caches, that it does so once, and the lookups in the cache. */
module PciScan {
  import opened Machine

  /** A bus number in configuration space. */
  type Byte = x: int | 0 <= x < 256

  datatype Fn = Fn(bus: int, device: int, unit: int)

  /** What the scan reads of a function's configuration space; the secondary bus number is that of a bridge. */
  datatype Header = Header(vendor: int, classId: int, subclass: int, multi: bool, secondary: Byte)

  type Config = Fn -> Header

  predicate Present(c: Config, f: Fn) {
    c(f).vendor != 0xFFFF
  }

  /** The first function `pci_enum_device` looks at. As it stands it passes over function 0 of multifunction devices. */
  function FirstFunction(b: Build, c: Config, bus: int, device: int): int {
    if c(Fn(bus, device, 0)).multi && b.Shipped? then 1 else 0
  }

  /** The functions of a bus that the scan finds. */
  predicate Scanned(b: Build, c: Config, f: Fn) {
    && 0 <= f.bus < 256 && 0 <= f.device < 32 && 0 <= f.unit < 8
    && Present(c, Fn(f.bus, f.device, 0)) && Present(c, f)
    && FirstFunction(b, c, f.bus, f.device) <= f.unit
    && (c(Fn(f.bus, f.device, 0)).multi || f.unit == 0)
  }

  /** The bridges behind which the scan goes on. */
  predicate Descends(c: Config, f: Fn) {
    c(f).classId == 0x06 && c(f).subclass == 0x04 && c(f).secondary != f.bus
  }

  predicate Leads(b: Build, c: Config, g: Fn, bus: int) {
    Scanned(b, c, g) && Descends(c, g) && c(g).secondary == bus
  }

  /** The scan of a bus ends, with at most n buses one behind the other: so do the scans behind all its bridges. */
  ghost predicate Ends(b: Build, c: Config, bus: int, n: nat)
    decreases n
  {
    forall g {:trigger Scanned(b, c, g)} | Scanned(b, c, g) && Descends(c, g) && g.bus == bus ::
      n > 0 && Ends(b, c, c(g).secondary, n - 1)
  }

  /** No two bridges lead to the same bus. */
  ghost predicate OneParent(b: Build, c: Config) {
    forall g, h {:trigger Scanned(b, c, g), Scanned(b, c, h)} |
      Scanned(b, c, g) && Descends(c, g) && Scanned(b, c, h) && Descends(c, h) && c(g).secondary == c(h).secondary ::
          g == h
  }

  function At(bus: int, pos: int): Fn {
    Fn(bus, pos / 8, pos % 8)
  }

  function Pos(f: Fn): int {
    8 * f.device + f.unit
  }

  lemma AtPos(f: Fn, pos: int)
    requires 0 <= f.unit < 8
    ensures At(f.bus, Pos(f)) == f && (At(f.bus, pos) == f <==> pos == Pos(f))
  {
  }

  /** What the scan finds from a place of a bus on, each bridge followed by all that lies behind it. */
  ghost function Listing(b: Build, c: Config, bus: int, pos: int, n: nat): seq<Fn>
    requires Ends(b, c, bus, n) && 0 <= pos <= 256
    decreases n, 256 - pos
  {
    if pos == 256 then [] else Found(b, c, At(bus, pos), n) + Listing(b, c, bus, pos + 1, n)
  }

  /** One function and what lies behind it. */
  ghost function Found(b: Build, c: Config, f: Fn, n: nat): seq<Fn>
    requires Ends(b, c, f.bus, n)
    decreases n, 0
  {
    if !Scanned(b, c, f) then []
    else [f] + if Descends(c, f) then Listing(b, c, c(f).secondary, 0, n - 1) else []
  }

  lemma {:induction false} FoundNext(b: Build, c: Config, log: seq<Fn>, f: Fn, n: nat)
    requires Ends(b, c, f.bus, n) && 0 <= f.bus < 256 && 0 <= f.device < 32 && 0 <= f.unit < 8
    requires Present(c, Fn(f.bus, f.device, 0)) && FirstFunction(b, c, f.bus, f.device) <= f.unit
    requires c(Fn(f.bus, f.device, 0)).multi || f.unit == 0
    ensures c(f).vendor != 0xFFFF ==> Scanned(b, c, f)
    ensures log + Found(b, c, f, n) ==
            if c(f).vendor == 0xFFFF then log
            else log + [f] + if Descends(c, f) then Listing(b, c, c(f).secondary, 0, n - 1) else []
  {
    var rest := if Scanned(b, c, f) && Descends(c, f) then Listing(b, c, c(f).secondary, 0, n - 1) else [];
    assert log + ([f] + rest) == log + [f] + rest;
    assert log + [] == log;
  }

  // ----- Ways over bridges -----

  /** Over k bridges one gets from one bus to another. */
  ghost predicate Path(b: Build, c: Config, from: int, bus: int, k: nat)
    decreases k
  {
    if k == 0 then bus == from
    else exists g {:trigger Leads(b, c, g, bus)} :: Leads(b, c, g, bus) && Path(b, c, from, g.bus, k - 1)
  }

  ghost predicate Reaches(b: Build, c: Config, root: int, bus: int) {
    exists k: nat :: Path(b, c, root, bus, k)
  }

  /** A bus from which bridges lead back to it. */
  ghost predicate Loops(b: Build, c: Config, bus: int, k: nat) {
    0 < k && Path(b, c, bus, bus, k)
  }

  lemma PathOn(b: Build, c: Config, s: int, g: Fn, k: nat)
    requires Scanned(b, c, g) && Descends(c, g) && Path(b, c, s, g.bus, k)
    ensures Path(b, c, s, c(g).secondary, k + 1)
  {
    assert Leads(b, c, g, c(g).secondary);
  }

  lemma {:induction false} PathJoin(b: Build, c: Config, s: int, t: int, u: int, j: nat, k: nat)
    requires Path(b, c, s, t, j) && Path(b, c, t, u, k)
    ensures Path(b, c, s, u, j + k)
    decreases k
  {
    if k > 0 {
      var g :| Leads(b, c, g, u) && Path(b, c, t, g.bus, k - 1);
      PathJoin(b, c, s, t, g.bus, j, k - 1);
      PathOn(b, c, s, g, j + k - 1);
    }
  }

  /** What is reached from behind a bridge is reached from before it. */
  lemma PathThrough(b: Build, c: Config, g: Fn, bus: int, k: nat)
    requires Scanned(b, c, g) && Descends(c, g) && Path(b, c, c(g).secondary, bus, k)
    ensures Path(b, c, g.bus, bus, k + 1)
  {
    assert Path(b, c, g.bus, g.bus, 0);
    PathOn(b, c, g.bus, g, 0);
    PathJoin(b, c, g.bus, c(g).secondary, bus, 1, k);
  }

  // ----- Where the scan ends -----

  lemma {:induction false} EndsAlong(b: Build, c: Config, root: int, bus: int, n: nat, k: nat)
    requires Ends(b, c, root, n) && Path(b, c, root, bus, k)
    ensures k <= n && Ends(b, c, bus, n - k)
    decreases k
  {
    if k > 0 {
      var g :| Leads(b, c, g, bus) && Path(b, c, root, g.bus, k - 1);
      EndsAlong(b, c, root, g.bus, n, k - 1);
    }
  }

  lemma {:induction false} NoLoop(b: Build, c: Config, bus: int, n: nat, k: nat)
    requires Ends(b, c, bus, n)
    ensures !Loops(b, c, bus, k)
    decreases n
  {
    if Loops(b, c, bus, k) {
      EndsAlong(b, c, bus, bus, n, k);
      NoLoop(b, c, bus, n - k, k);
    }
  }

  /** No way leads from behind a bridge back to where the scan came from. */
  lemma NoWayBack(b: Build, c: Config, root: int, g: Fn, n: nat)
    requires Ends(b, c, root, n) && Scanned(b, c, g) && Descends(c, g) && Reaches(b, c, root, g.bus)
    ensures !Reaches(b, c, c(g).secondary, root)
  {
    if Reaches(b, c, c(g).secondary, root) {
      var j: nat :| Path(b, c, root, g.bus, j);
      var k: nat :| Path(b, c, c(g).secondary, root, k);
      PathThrough(b, c, g, root, k);
      PathJoin(b, c, root, g.bus, root, j, k + 1);
      NoLoop(b, c, root, n, j + k + 1);
      assert Loops(b, c, root, j + k + 1);
    }
  }

  ghost predicate Edge(b: Build, c: Config, from: int, bus: int) {
    exists g {:trigger Leads(b, c, g, bus)} :: Leads(b, c, g, bus) && g.bus == from
  }

  ghost predicate Chain(b: Build, c: Config, s: seq<int>) {
    forall i {:trigger s[i]} | 0 < i < |s| :: Edge(b, c, s[i - 1], s[i])
  }

  /** Where the scan does not end in time, there is a long way. */
  lemma {:induction false} LongWay(b: Build, c: Config, root: int, n: nat) returns (s: seq<int>)
    requires !Ends(b, c, root, n) && 0 <= root < 256
    ensures |s| == n + 2 && s[0] == root && Chain(b, c, s) && forall i | 0 <= i < |s| :: 0 <= s[i] < 256
    decreases n
  {
    var g :| Scanned(b, c, g) && Descends(c, g) && g.bus == root && (n == 0 || !Ends(b, c, c(g).secondary, n - 1));
    var next := c(g).secondary;
    assert Leads(b, c, g, next) && Edge(b, c, root, next);
    if n == 0 {
      s := [root, next];
    } else {
      var rest := LongWay(b, c, next, n - 1);
      s := [root] + rest;
      forall i | 0 < i < |s| ensures Edge(b, c, s[i - 1], s[i]) {
        if i > 1 { assert Edge(b, c, rest[i - 2], rest[i - 1]); }
      }
    }
  }

  lemma {:induction false} ChainPath(b: Build, c: Config, s: seq<int>, i: int, j: int)
    requires Chain(b, c, s) && 0 <= i <= j < |s|
    ensures Path(b, c, s[i], s[j], j - i)
    decreases j - i
  {
    if i < j {
      ChainPath(b, c, s, i, j - 1);
      assert Edge(b, c, s[j - 1], s[j]);
      var g :| Leads(b, c, g, s[j]) && g.bus == s[j - 1];
    }
  }

  /** Of more than n numbers below n two are equal. */
  lemma {:induction false} TwoEqual(s: seq<int>, n: nat) returns (i: int, j: int)
    requires |s| > n && forall k | 0 <= k < |s| :: 0 <= s[k] < n
    ensures 0 <= i < j < |s| && s[i] == s[j]
    decreases n
  {
    if k :| 0 <= k < |s| && s[k] == n - 1 {
      var rest := s[..k] + s[k + 1..];
      if m :| 0 <= m < |rest| && rest[m] == n - 1 {
        i, j := if m < k then m else k, if m < k then k else m + 1;
      } else {
        i, j := TwoEqual(rest, n - 1);
        i, j := if i < k then i else i + 1, if j < k then j else j + 1;
      }
    } else {
      assert 0 <= s[0] < n;
      i, j := TwoEqual(s, n - 1);
    }
  }

  /** No loop of bridges can be reached. */
  ghost predicate LoopFree(b: Build, c: Config, root: int) {
    forall bus, k: nat | Reaches(b, c, root, bus) :: !Loops(b, c, bus, k)
  }

  lemma {:induction false} EndsLoopFree(b: Build, c: Config, root: int, n: nat)
    requires Ends(b, c, root, n)
    ensures LoopFree(b, c, root)
  {
    forall bus, k: nat | Reaches(b, c, root, bus) ensures !Loops(b, c, bus, k) {
      var j: nat :| Path(b, c, root, bus, j);
      EndsAlong(b, c, root, bus, n, j);
      NoLoop(b, c, bus, n - j, k);
    }
  }

  lemma {:induction false} LoopFound(b: Build, c: Config, root: int, n: nat) returns (bus: int, k: nat)
    requires !Ends(b, c, root, n) && 0 <= root < 256 && n >= 255
    ensures Reaches(b, c, root, bus) && Loops(b, c, bus, k)
  {
    var s := LongWay(b, c, root, n);
    var i, j := TwoEqual(s, 256);
    ChainPath(b, c, s, 0, i);
    ChainPath(b, c, s, i, j);
    bus, k := s[i], j - i;
    assert Path(b, c, root, bus, i) && Path(b, c, bus, bus, k);
  }

  /**
   The recursion from a bus ends exactly if no loop of bridges can be reached from it, and then it is at most 255
   bridges deep. The code guards only against a bridge that leads to its own bus.
   */
  lemma {:induction false} ScanEnds(b: Build, c: Config, root: int, n: nat)
    requires 0 <= root < 256
    ensures Ends(b, c, root, n) ==> LoopFree(b, c, root)
    ensures LoopFree(b, c, root) && n >= 255 ==> Ends(b, c, root, n)
  {
    if Ends(b, c, root, n) {
      EndsLoopFree(b, c, root, n);
    } else if n >= 255 {
      var bus, k := LoopFound(b, c, root, n);
    }
  }

  /** Two bridges that lead to each other's bus. */
  function LoopConfig(f: Fn): Header {
    if f == Fn(0, 1, 0) then Header(0x8086, 6, 4, false, 1)
    else if f == Fn(1, 0, 0) then Header(0x8086, 6, 4, false, 0)
    else Header(0xFFFF, 0, 0, false, 0)
  }

  /** The scan of such a machine never ends. */
  lemma ScanLoops(b: Build)
    ensures forall n: nat :: !Ends(b, LoopConfig, 0, n)
  {
    var c, g, h := LoopConfig, Fn(0, 1, 0), Fn(1, 0, 0);
    assert Scanned(b, c, g) && Scanned(b, c, h) && Path(b, c, 0, 0, 0);
    PathOn(b, c, 0, g, 0);
    PathOn(b, c, 0, h, 1);
    assert Loops(b, c, 0, 2);
    forall n: nat ensures !Ends(b, c, 0, n) {
      if Ends(b, c, 0, n) { NoLoop(b, c, 0, n, 2); }
    }
  }

  // ----- Where the scan gets to -----

  /** Found from a place on: on this bus, or behind a bridge of this bus. */
  ghost predicate From(b: Build, c: Config, bus: int, pos: int, x: Fn) {
    && Scanned(b, c, x)
    && ((x.bus == bus && pos <= Pos(x)) || exists g :: Behind(b, c, bus, pos, g, x))
  }

  ghost predicate Behind(b: Build, c: Config, bus: int, pos: int, g: Fn, x: Fn) {
    Scanned(b, c, g) && Descends(c, g) && g.bus == bus && pos <= Pos(g) && Reaches(b, c, c(g).secondary, x.bus)
  }

  lemma FromReaches(b: Build, c: Config, bus: int, x: Fn)
    requires From(b, c, bus, 0, x)
    ensures Reaches(b, c, bus, x.bus)
  {
    if x.bus == bus {
      assert Path(b, c, bus, bus, 0);
    } else {
      var g :| Behind(b, c, bus, 0, g, x);
      var k: nat :| Path(b, c, c(g).secondary, x.bus, k);
      PathThrough(b, c, g, x.bus, k);
    }
  }

  lemma {:induction false} ListingFrom(b: Build, c: Config, bus: int, pos: int, x: Fn, n: nat)
    requires Ends(b, c, bus, n) && 0 <= pos <= 256 && x in Listing(b, c, bus, pos, n)
    ensures From(b, c, bus, pos, x)
    decreases n, 256 - pos
  {
    var f := At(bus, pos);
    if x in Found(b, c, f, n) {
      AtPos(f, pos);
      if x != f {
        ListingFrom(b, c, c(f).secondary, 0, x, n - 1);
        FromReaches(b, c, c(f).secondary, x);
        assert Behind(b, c, bus, pos, f, x);
      }
    } else {
      ListingFrom(b, c, bus, pos + 1, x, n);
      if !(x.bus == bus && pos + 1 <= Pos(x)) {
        var g :| Behind(b, c, bus, pos + 1, g, x);
        assert Behind(b, c, bus, pos, g, x);
      }
    }
  }

  lemma {:induction false} OwnBus(b: Build, c: Config, bus: int, pos: int, x: Fn, n: nat)
    requires Ends(b, c, bus, n) && Scanned(b, c, x) && x.bus == bus && 0 <= pos <= Pos(x)
    ensures x in Listing(b, c, bus, pos, n)
    decreases 256 - pos
  {
    AtPos(x, pos);
    if At(bus, pos) != x {
      OwnBus(b, c, bus, pos + 1, x, n);
    }
  }

  /** With a bridge, the functions of the bus behind it are found. */
  lemma {:induction false} BehindToo(b: Build, c: Config, bus: int, pos: int, g: Fn, x: Fn, n: nat)
    requires Ends(b, c, bus, n) && 0 <= pos <= 256 && g in Listing(b, c, bus, pos, n)
    requires Descends(c, g) && Scanned(b, c, x) && x.bus == c(g).secondary
    ensures x in Listing(b, c, bus, pos, n)
    decreases n, 256 - pos
  {
    var f := At(bus, pos);
    if g in Found(b, c, f, n) {
      if g == f {
        OwnBus(b, c, x.bus, 0, x, n - 1);
      } else {
        BehindToo(b, c, c(f).secondary, 0, g, x, n - 1);
      }
    } else {
      BehindToo(b, c, bus, pos + 1, g, x, n);
    }
  }

  lemma {:induction false} ReachedIsFound(b: Build, c: Config, root: int, x: Fn, n: nat, k: nat)
    requires Ends(b, c, root, n) && Scanned(b, c, x) && Path(b, c, root, x.bus, k)
    ensures x in Listing(b, c, root, 0, n)
    decreases k
  {
    if k == 0 {
      OwnBus(b, c, root, 0, x, n);
    } else {
      var g :| Leads(b, c, g, x.bus) && Path(b, c, root, g.bus, k - 1);
      ReachedIsFound(b, c, root, g, n, k - 1);
      BehindToo(b, c, root, 0, g, x, n);
    }
  }

  /** The scan finds exactly the functions it looks at on the buses it can reach. */
  lemma ListingComplete(b: Build, c: Config, root: int, x: Fn, n: nat)
    requires Ends(b, c, root, n)
    ensures x in Listing(b, c, root, 0, n) <==> Scanned(b, c, x) && Reaches(b, c, root, x.bus)
  {
    if x in Listing(b, c, root, 0, n) {
      ListingFrom(b, c, root, 0, x, n);
      FromReaches(b, c, root, x);
    }
    if Scanned(b, c, x) && Reaches(b, c, root, x.bus) {
      var k: nat :| Path(b, c, root, x.bus, k);
      ReachedIsFound(b, c, root, x, n, k);
    }
  }

  // ----- Once -----

  ghost predicate NoRepeats(s: seq<Fn>) {
    forall i, j | 0 <= i < j < |s| :: s[i] != s[j]
  }

  lemma NoRepeatsJoined(s: seq<Fn>, t: seq<Fn>)
    requires NoRepeats(s) && NoRepeats(t) && forall x | x in s :: x !in t
    ensures NoRepeats(s + t)
  {
    forall i, j | 0 <= i < j < |s + t| ensures (s + t)[i] != (s + t)[j] {
      if i < |s| <= j { assert s[i] in s && t[j - |s|] in t; }
    }
  }

  /** Of two ways to a bus the longer one passes through where the shorter one starts. */
  lemma {:induction false} OneWayUp(b: Build, c: Config, s: int, t: int, bus: int, j: nat, k: nat)
    requires OneParent(b, c) && Path(b, c, s, bus, j) && Path(b, c, t, bus, k) && j <= k
    ensures Path(b, c, t, s, k - j)
    decreases j
  {
    if j > 0 {
      var g :| Leads(b, c, g, bus) && Path(b, c, s, g.bus, j - 1);
      var h :| Leads(b, c, h, bus) && Path(b, c, t, h.bus, k - 1);
      assert g == h;
      OneWayUp(b, c, s, t, g.bus, j - 1, k - 1);
    }
  }

  /** No way leads from behind one bridge of a bus to behind another. */
  lemma NotAcross(b: Build, c: Config, f: Fn, g: Fn, n: nat, d: nat)
    requires OneParent(b, c) && Ends(b, c, f.bus, n) && f.bus == g.bus && f != g
    requires Scanned(b, c, f) && Descends(c, f) && Scanned(b, c, g) && Descends(c, g)
    ensures !Path(b, c, c(g).secondary, c(f).secondary, d)
  {
    if Path(b, c, c(g).secondary, c(f).secondary, d) && d > 0 {
      var h :| Leads(b, c, h, c(f).secondary) && Path(b, c, c(g).secondary, h.bus, d - 1);
      assert h == f;
      PathThrough(b, c, g, f.bus, d - 1);
      NoLoop(b, c, f.bus, n, d);
      assert Loops(b, c, f.bus, d);
    }
  }

  /** Nothing lies behind two bridges of the same bus. */
  lemma Apart(b: Build, c: Config, f: Fn, g: Fn, bus: int, n: nat)
    requires OneParent(b, c) && Ends(b, c, f.bus, n) && f.bus == g.bus && f != g
    requires Scanned(b, c, f) && Descends(c, f) && Scanned(b, c, g) && Descends(c, g)
    ensures !(Reaches(b, c, c(f).secondary, bus) && Reaches(b, c, c(g).secondary, bus))
  {
    if Reaches(b, c, c(f).secondary, bus) && Reaches(b, c, c(g).secondary, bus) {
      var j: nat :| Path(b, c, c(f).secondary, bus, j);
      var k: nat :| Path(b, c, c(g).secondary, bus, k);
      if j <= k {
        OneWayUp(b, c, c(f).secondary, c(g).secondary, bus, j, k);
        NotAcross(b, c, f, g, n, k - j);
      } else {
        OneWayUp(b, c, c(g).secondary, c(f).secondary, bus, k, j);
        NotAcross(b, c, g, f, n, j - k);
      }
    }
  }

  lemma NotBack(b: Build, c: Config, g: Fn, n: nat)
    requires Ends(b, c, g.bus, n) && Scanned(b, c, g) && Descends(c, g)
    ensures !Reaches(b, c, c(g).secondary, g.bus)
  {
    assert Path(b, c, g.bus, g.bus, 0);
    NoWayBack(b, c, g.bus, g, n);
  }

  /** What lies at or behind one place is not found from the next place on. */
  lemma FoundOnce(b: Build, c: Config, bus: int, pos: int, x: Fn, n: nat)
    requires Ends(b, c, bus, n) && OneParent(b, c) && 0 <= pos < 256
    requires x in Found(b, c, At(bus, pos), n)
    ensures x !in Listing(b, c, bus, pos + 1, n)
  {
    var f := At(bus, pos);
    AtPos(f, pos);
    if x in Listing(b, c, bus, pos + 1, n) {
      ListingFrom(b, c, bus, pos + 1, x, n);
      if x != f {
        ListingComplete(b, c, c(f).secondary, x, n - 1);
        NotBack(b, c, f, n);
      }
      var g :| Behind(b, c, bus, pos + 1, g, x);
      NotBack(b, c, g, n);
      Apart(b, c, f, g, x.bus, n);
    }
  }

  /** With one bridge at most to each bus, everything is found once. */
  lemma {:induction false} ListingOnce(b: Build, c: Config, bus: int, pos: int, n: nat)
    requires Ends(b, c, bus, n) && OneParent(b, c) && 0 <= pos <= 256
    ensures NoRepeats(Listing(b, c, bus, pos, n))
    decreases n, 256 - pos
  {
    if pos < 256 {
      var f := At(bus, pos);
      ListingOnce(b, c, bus, pos + 1, n);
      if Scanned(b, c, f) && Descends(c, f) {
        ListingOnce(b, c, c(f).secondary, 0, n - 1);
        NotBehindItself(b, c, f, n);
        NoRepeatsJoined([f], Listing(b, c, c(f).secondary, 0, n - 1));
      }
      forall x | x in Found(b, c, f, n) ensures x !in Listing(b, c, bus, pos + 1, n) {
        FoundOnce(b, c, bus, pos, x, n);
      }
      NoRepeatsJoined(Found(b, c, f, n), Listing(b, c, bus, pos + 1, n));
    }
  }

  lemma NotBehindItself(b: Build, c: Config, f: Fn, n: nat)
    requires Ends(b, c, f.bus, n) && Scanned(b, c, f) && Descends(c, f)
    ensures f !in Listing(b, c, c(f).secondary, 0, n - 1)
  {
    if f in Listing(b, c, c(f).secondary, 0, n - 1) {
      ListingComplete(b, c, c(f).secondary, f, n - 1);
      NotBack(b, c, f, n);
    }
  }

  // ----- What the scan misses as it stands -----

  /** Function 0 of a multifunction device. */
  predicate Skipped(c: Config, f: Fn) {
    Scanned(Repaired, c, f) && f.unit == 0 && c(f).multi
  }

  lemma SkippedOnly(c: Config, f: Fn)
    ensures Scanned(Shipped, c, f) <==> Scanned(Repaired, c, f) && !Skipped(c, f)
  {
    assert f.unit == 0 ==> f == Fn(f.bus, f.device, 0);
  }

  lemma {:induction false} EndsToo(c: Config, bus: int, n: nat)
    requires Ends(Repaired, c, bus, n)
    ensures Ends(Shipped, c, bus, n)
    decreases n
  {
    forall g | Scanned(Shipped, c, g) && Descends(c, g) && g.bus == bus
      ensures n > 0 && Ends(Shipped, c, c(g).secondary, n - 1) {
      SkippedOnly(c, g);
      EndsToo(c, c(g).secondary, n - 1);
    }
  }

  /** A skipped bridge on the way from one bus to another. */
  ghost predicate Blocks(c: Config, g: Fn, root: int, bus: int) {
    Skipped(c, g) && Descends(c, g) && Reaches(Repaired, c, root, g.bus) && Reaches(Repaired, c, c(g).secondary, bus)
  }

  /** A bus that is lost to the shipped scan lies behind a skipped bridge. */
  lemma {:induction false} LostBehind(c: Config, root: int, bus: int, k: nat) returns (g: Fn)
    requires Path(Repaired, c, root, bus, k) && !Reaches(Shipped, c, root, bus)
    ensures Blocks(c, g, root, bus)
    decreases k
  {
    assert !Path(Shipped, c, root, bus, 0);
    g :| Leads(Repaired, c, g, bus) && Path(Repaired, c, root, g.bus, k - 1);
    SkippedOnly(c, g);
    if Skipped(c, g) {
      assert Path(Repaired, c, bus, bus, 0);
    } else {
      var h := g;
      NotByShipped(c, root, h);
      g := LostBehind(c, root, h.bus, k - 1);
      var j: nat :| Path(Repaired, c, c(g).secondary, h.bus, j);
      PathOn(Repaired, c, c(g).secondary, h, j);
    }
  }

  lemma NotByShipped(c: Config, root: int, h: Fn)
    requires Scanned(Shipped, c, h) && Descends(c, h) && !Reaches(Shipped, c, root, c(h).secondary)
    ensures !Reaches(Shipped, c, root, h.bus)
  {
    if Reaches(Shipped, c, root, h.bus) {
      var k: nat :| Path(Shipped, c, root, h.bus, k);
      PathOn(Shipped, c, root, h, k);
    }
  }

  /** What lies behind a skipped bridge is lost, if no other bridge leads there. */
  lemma {:induction false} BehindIsLost(c: Config, root: int, bus: int, g: Fn, n: nat, j: nat, k: nat)
    requires Ends(Repaired, c, root, n) && OneParent(Repaired, c)
    requires Skipped(c, g) && Descends(c, g) && Reaches(Repaired, c, root, g.bus)
             && Path(Repaired, c, c(g).secondary, bus, j)
    ensures !Path(Shipped, c, root, bus, k)
    decreases j
  {
    if Path(Shipped, c, root, bus, k) {
      NoWayBack(Repaired, c, root, g, n);
      assert bus != root;
      var h :| Leads(Shipped, c, h, bus) && Path(Shipped, c, root, h.bus, k - 1);
      SkippedOnly(c, h);
      if j > 0 {
        var i :| Leads(Repaired, c, i, bus) && Path(Repaired, c, c(g).secondary, i.bus, j - 1);
        assert h == i;
        BehindIsLost(c, root, h.bus, g, n, j - 1, k - 1);
      }
    }
  }

  /**
   As it stands the scan misses, of what it would find from function 0 on, exactly function 0 of each multifunction
   device and whatever lies on a bus that it cannot reach without those functions.
   */
  lemma MissedFunctions(c: Config, root: int, x: Fn, n: nat)
    requires Ends(Repaired, c, root, n) && Ends(Shipped, c, root, n)
    ensures x in Listing(Repaired, c, root, 0, n) && x !in Listing(Shipped, c, root, 0, n)
            <==> x in Listing(Repaired, c, root, 0, n) && (Skipped(c, x) || !Reaches(Shipped, c, root, x.bus))
    ensures x in Listing(Shipped, c, root, 0, n) ==> x in Listing(Repaired, c, root, 0, n)
  {
    ListingComplete(Repaired, c, root, x, n);
    ListingComplete(Shipped, c, root, x, n);
    SkippedOnly(c, x);
    if Reaches(Shipped, c, root, x.bus) {
      var k: nat :| Path(Shipped, c, root, x.bus, k);
      PathMore(c, root, x.bus, k);
    }
  }

  lemma {:induction false} PathMore(c: Config, root: int, bus: int, k: nat)
    requires Path(Shipped, c, root, bus, k)
    ensures Path(Repaired, c, root, bus, k)
    decreases k
  {
    if k > 0 {
      var g :| Leads(Shipped, c, g, bus) && Path(Shipped, c, root, g.bus, k - 1);
      SkippedOnly(c, g);
      PathMore(c, root, g.bus, k - 1);
      assert Leads(Repaired, c, g, bus);
    }
  }

  /** With one bridge at most to each bus, a bus is lost exactly if a skipped bridge lies on the way to it. */
  lemma LostBuses(c: Config, root: int, bus: int, n: nat)
    requires Ends(Repaired, c, root, n) && OneParent(Repaired, c) && Reaches(Repaired, c, root, bus)
    ensures !Reaches(Shipped, c, root, bus) <==> exists g :: Blocks(c, g, root, bus)
  {
    if !Reaches(Shipped, c, root, bus) {
      var k: nat :| Path(Repaired, c, root, bus, k);
      var g := LostBehind(c, root, bus, k);
    }
    forall g | Blocks(c, g, root, bus) ensures !Reaches(Shipped, c, root, bus) {
      var j: nat :| Path(Repaired, c, c(g).secondary, bus, j);
      forall k: nat ensures !Path(Shipped, c, root, bus, k) { BehindIsLost(c, root, bus, g, n, j, k); }
    }
  }

  /** A multifunction device whose function 0 is a bridge to bus 1, and a device of one function behind it. */
  function BridgeConfig(f: Fn): Header {
    if f == Fn(0, 1, 0) then Header(0x8086, 6, 4, true, 1)
    else if f == Fn(1, 0, 0) then Header(0x8086, 2, 0, false, 0)
    else Header(0xFFFF, 0, 0, false, 0)
  }

  /** The device behind the bridge is missed, although it is no function 0 of a multifunction device. */
  lemma MissedBehindBridge()
    ensures Ends(Repaired, BridgeConfig, 0, 1) && Ends(Shipped, BridgeConfig, 0, 1) && OneParent(Repaired, BridgeConfig)
    ensures Scanned(Shipped, BridgeConfig, Fn(1, 0, 0)) && !Skipped(BridgeConfig, Fn(1, 0, 0))
    ensures Fn(1, 0, 0) in Listing(Repaired, BridgeConfig, 0, 0, 1)
            && Fn(1, 0, 0) !in Listing(Shipped, BridgeConfig, 0, 0, 1)
  {
    var c, g, x := BridgeConfig, Fn(0, 1, 0), Fn(1, 0, 0);
    forall f | Scanned(Repaired, c, f) && Descends(c, f) ensures f == g { assert Present(c, f); }
    assert Ends(Repaired, c, 1, 0) && Ends(Repaired, c, 0, 1);
    EndsToo(c, 0, 1);
    assert Path(Repaired, c, 0, 0, 0) && Path(Repaired, c, 1, 1, 0);
    PathOn(Repaired, c, 0, g, 0);
    assert Blocks(c, g, 0, 1);
    LostBuses(c, 0, 1, 1);
    ListingComplete(Repaired, c, 0, x, 1);
    MissedFunctions(c, 0, x, 1);
  }

  // ----- The code -----

  /** A line of the cache. */
  datatype Cached = Cached(fn: Fn, header: Header)

  /** The cache after the functions of the log: its length is an 8-bit counter. */
  ghost predicate CacheHolds(c: Config, cache: seq<Cached>, len: int, log: seq<Fn>) {
    && |cache| == 256 && len == |log| % 256
    && (|log| < 256 ==> forall i {:trigger log[i]} | 0 <= i < |log| :: cache[i] == Cached(log[i], c(log[i])))
  }

  lemma CacheNext(c: Config, cache: seq<Cached>, len: int, log: seq<Fn>, f: Fn)
    requires CacheHolds(c, cache, len, log)
    ensures 0 <= len < 256 && CacheHolds(c, cache[len := Cached(f, c(f))], (len + 1) % 256, log + [f])
  {
    var log' := log + [f];
    if |log'| < 256 {
      forall i | 0 <= i < |log'| ensures cache[len := Cached(f, c(f))][i] == Cached(log'[i], c(log'[i])) {
        if i < |log| { assert log'[i] == log[i]; }
      }
    }
  }

  /** What the scan finds in a device from a function on. */
  ghost function Units(b: Build, c: Config, bus: int, d: int, u: int, n: nat): seq<Fn>
    requires Ends(b, c, bus, n) && 0 <= u <= 8
    decreases 8 - u
  {
    if u == 8 then [] else Found(b, c, Fn(bus, d, u), n) + Units(b, c, bus, d, u + 1, n)
  }

  lemma {:induction false} UnitsListed(b: Build, c: Config, bus: int, d: int, u: int, n: nat)
    requires Ends(b, c, bus, n) && 0 <= d < 32 && 0 <= u <= 8
    ensures Listing(b, c, bus, 8 * d + u, n) == Units(b, c, bus, d, u, n) + Listing(b, c, bus, 8 * d + 8, n)
    decreases 8 - u
  {
    if u < 8 {
      UnitsListed(b, c, bus, d, u + 1, n);
      AtPos(Fn(bus, d, u), 8 * d + u);
    }
  }

  lemma {:induction false} UnitsSkip(b: Build, c: Config, bus: int, d: int, u: int, v: int, n: nat)
    requires Ends(b, c, bus, n) && 0 <= u <= v <= 8
    requires forall k | u <= k < v :: !Scanned(b, c, Fn(bus, d, k))
    ensures Units(b, c, bus, d, u, n) == Units(b, c, bus, d, v, n)
    decreases v - u
  {
    if u < v {
      UnitsSkip(b, c, bus, d, u + 1, v, n);
      assert !Scanned(b, c, Fn(bus, d, u));
    }
  }

  lemma Regroup(log: seq<Fn>, done: seq<Fn>, found: seq<Fn>, rest: seq<Fn>)
    ensures (log + done) + found == log + (done + found) && done + (found + rest) == (done + found) + rest
  {
  }

  /** The lines of the cache with a class and a subclass, in order. */
  function Matches(lines: seq<Cached>, classId: int, subclass: int): seq<Fn> {
    if lines == [] then []
    else
      var last := lines[|lines| - 1];
      Matches(lines[..|lines| - 1], classId, subclass)
      + if last.header.classId == classId && last.header.subclass == subclass then [last.fn] else []
  }

  lemma {:induction false} MatchesNext(lines: seq<Cached>, i: int, classId: int, subclass: int)
    requires 0 <= i < |lines|
    ensures var hit := lines[i].header.classId == classId && lines[i].header.subclass == subclass;
            Matches(lines[..i + 1], classId, subclass) ==
            Matches(lines[..i], classId, subclass) + if hit then [lines[i].fn] else []
  {
    assert lines[..i + 1][..i] == lines[..i];
  }

  lemma {:induction false} MatchesBound(lines: seq<Cached>, n: int, classId: int, subclass: int)
    requires 0 <= n <= |lines|
    ensures |Matches(lines, classId, subclass)| <= |lines|
    ensures Matches(lines[..n], classId, subclass) <= Matches(lines, classId, subclass)
  {
    if n == |lines| {
      assert lines[..n] == lines;
    } else {
      assert lines[..|lines| - 1][..n] == lines[..n];
    }
    if lines != [] { MatchesBound(lines[..|lines| - 1], if n < |lines| then n else n - 1, classId, subclass); }
  }

  predicate HasClass(c: Config, x: Fn, classId: int, subclass: int) {
    c(x).classId == classId && c(x).subclass == subclass
  }

  /** The lines of a class are those of the found functions that have it, each once if each was found once. */
  lemma {:induction false} MatchesExact(c: Config, lines: seq<Cached>, log: seq<Fn>, classId: int, subclass: int)
    requires |lines| == |log| && forall i {:trigger log[i]} | 0 <= i < |log| :: lines[i] == Cached(log[i], c(log[i]))
    ensures forall x :: x in Matches(lines, classId, subclass) <==> x in log && HasClass(c, x, classId, subclass)
    ensures NoRepeats(log) ==> NoRepeats(Matches(lines, classId, subclass))
  {
    if log != [] {
      var n := |log| - 1;
      var before := Matches(lines[..n], classId, subclass);
      MatchesExact(c, lines[..n], log[..n], classId, subclass);
      assert log == log[..n] + [log[n]];
      assert lines[n] == Cached(log[n], c(log[n]));
      if NoRepeats(log) {
        assert log[n] !in log[..n];
        NoRepeatsJoined(before, [log[n]]);
      }
    }
  }

  // ----- The bytes of the cache -----

  /** What `pci_init` allocates for the cache, 256 pointers, and what a line takes. */
  const CACHE_BYTES: int := 256 * 8
  const LINE_BYTES: int := 12

  predicate LineInside(i: int) {
    0 <= LINE_BYTES * i && LINE_BYTES * i + LINE_BYTES <= CACHE_BYTES
  }

  /** The lines that a scan with this log has written lie inside the allocation. */
  ghost predicate LinesInside(log: seq<Fn>) {
    forall i {:trigger log[i]} | 0 <= i < |log| :: LineInside(i % 256)
  }

  /** So they do for up to 170 functions; the line of the 171st is the first to reach beyond. */
  lemma LinesFit(log: seq<Fn>)
    ensures LinesInside(log) <==> |log| <= 170
  {
    if |log| > 170 {
      assert log[170] in log && !LineInside(170 % 256);
    } else {
      forall i | 0 <= i < |log| ensures LineInside(i % 256) { assert i % 256 == i; }
    }
  }

  /** 32 devices of eight functions each on the first bus. */
  function CrowdedConfig(f: Fn): Header {
    if f.bus == 0 then Header(0x8086, 2, 0, true, 0) else Header(0xFFFF, 0, 0, false, 0)
  }

  /** The places from pos on that the shipped scan finds: of every device all but function 0. */
  lemma {:induction false} CrowdedFrom(pos: int)
    requires 0 <= pos <= 256 && Ends(Shipped, CrowdedConfig, 0, 0)
    ensures |Listing(Shipped, CrowdedConfig, 0, pos, 0)| == 256 - pos - (32 - (pos + 7) / 8)
    decreases 256 - pos
  {
    if pos < 256 {
      var c, f := CrowdedConfig, At(0, pos);
      CrowdedFrom(pos + 1);
      CrowdedAt(pos);
      assert |Found(Shipped, c, f, 0)| == if pos % 8 != 0 then 1 else 0;
    }
  }

  lemma CrowdedAt(pos: int)
    requires 0 <= pos < 256
    ensures (Scanned(Shipped, CrowdedConfig, At(0, pos)) <==> pos % 8 != 0) && !Descends(CrowdedConfig, At(0, pos))
    ensures (pos + 8) / 8 == (pos + 7) / 8 + if pos % 8 == 0 then 1 else 0
  {
  }

  // ----- The host controllers -----

  /** The buses of the host controllers: bus 0; if its function 0 says so, each of eight that has a function 0. */
  predicate Starts(c: Config, bus: int) {
    if c(Fn(0, 0, 0)).multi then 0 <= bus < 8 && c(Fn(bus, 0, 0)).vendor != 0xFFFF else bus == 0
  }

  /** The scans from the host controllers end. */
  ghost predicate HostsEnd(b: Build, c: Config, n: nat) {
    forall bus {:trigger Starts(c, bus)} | Starts(c, bus) :: Ends(b, c, bus, n)
  }

  /** What the host controllers of the first buses lead to. */
  ghost function HostsTo(b: Build, c: Config, buses: int, n: nat): seq<Fn>
    requires HostsEnd(b, c, n) && 0 <= buses
  {
    if buses == 0 then []
    else HostsTo(b, c, buses - 1, n) + if Starts(c, buses - 1) then Listing(b, c, buses - 1, 0, n) else []
  }

  ghost function Hosts(b: Build, c: Config, n: nat): seq<Fn>
    requires HostsEnd(b, c, n)
  {
    HostsTo(b, c, if c(Fn(0, 0, 0)).multi then 8 else 1, n)
  }

  lemma {:induction false} OneHost(b: Build, c: Config, n: nat)
    requires HostsEnd(b, c, n) && !c(Fn(0, 0, 0)).multi
    ensures Ends(b, c, 0, n) && Hosts(b, c, n) == Listing(b, c, 0, 0, n)
  {
    assert Starts(c, 0);
    assert HostsTo(b, c, 0, n) == [];
    assert [] + Listing(b, c, 0, 0, n) == Listing(b, c, 0, 0, n);
  }

  /** Bridges lead from a host controller to a bus. */
  ghost predicate FromHost(b: Build, c: Config, buses: int, bus: int) {
    exists h {:trigger Starts(c, h)} :: 0 <= h < buses && Starts(c, h) && Reaches(b, c, h, bus)
  }

  lemma {:induction false} HostsToComplete(b: Build, c: Config, buses: int, x: Fn, n: nat)
    requires HostsEnd(b, c, n) && 0 <= buses
    ensures x in HostsTo(b, c, buses, n) <==> Scanned(b, c, x) && FromHost(b, c, buses, x.bus)
  {
    if buses > 0 {
      HostsToComplete(b, c, buses - 1, x, n);
      if Starts(c, buses - 1) { ListingComplete(b, c, buses - 1, x, n); }
      if Scanned(b, c, x) && FromHost(b, c, buses, x.bus) {
        var h :| 0 <= h < buses && Starts(c, h) && Reaches(b, c, h, x.bus);
      }
    }
  }

  /** A function the scan looks at, on a bus to which some host controller leads. */
  ghost predicate Reachable(b: Build, c: Config, x: Fn) {
    Scanned(b, c, x) && exists h {:trigger Starts(c, h)} :: Starts(c, h) && Reaches(b, c, h, x.bus)
  }

  /** The scan as a whole finds exactly these. */
  lemma HostsComplete(b: Build, c: Config, x: Fn, n: nat)
    requires HostsEnd(b, c, n)
    ensures x in Hosts(b, c, n) <==> Reachable(b, c, x)
  {
    HostsToComplete(b, c, if c(Fn(0, 0, 0)).multi then 8 else 1, x, n);
  }

  /** Bridges lead from one host controller's bus to that of another, where there is something to find. */
  ghost predicate Meets(b: Build, c: Config, g: int, h: int) {
    g != h && Reaches(b, c, g, h) && exists x {:trigger Scanned(b, c, x)} :: Scanned(b, c, x) && x.bus == h
  }

  /** No host controller's bus lies behind a bridge of another's. */
  ghost predicate HostsApart(b: Build, c: Config) {
    forall g, h {:trigger Meets(b, c, g, h)} | Starts(c, g) && Starts(c, h) :: !Meets(b, c, g, h)
  }

  ghost predicate ApartBelow(b: Build, c: Config, buses: int) {
    forall g, h {:trigger Meets(b, c, g, h)} |
      Starts(c, g) && Starts(c, h) && 0 <= g < buses && 0 <= h < buses :: !Meets(b, c, g, h)
  }

  /** A way to another bus starts at a bridge that is found. */
  lemma {:induction false} FirstBridge(b: Build, c: Config, from: int, bus: int, k: nat) returns (g: Fn)
    requires Path(b, c, from, bus, k) && k > 0
    ensures Scanned(b, c, g) && g.bus == from
    decreases k
  {
    g :| Leads(b, c, g, bus) && Path(b, c, from, g.bus, k - 1);
    if k > 1 { g := FirstBridge(b, c, from, g.bus, k - 1); }
  }

  /** What is found from the buses g and h, on a way from h that is no longer than the one from g. */
  lemma MeetAt(b: Build, c: Config, g: int, h: int, x: Fn, j: nat, k: nat)
    requires OneParent(b, c) && Scanned(b, c, x) && g != h && j <= k
    requires Path(b, c, h, x.bus, j) && Path(b, c, g, x.bus, k)
    ensures Meets(b, c, g, h)
  {
    OneWayUp(b, c, h, g, x.bus, j, k);
    assert Reaches(b, c, g, h);
    if j > 0 { var f := FirstBridge(b, c, h, x.bus, j); }
  }

  lemma FoundFromBoth(b: Build, c: Config, g: int, h: int, x: Fn)
    requires OneParent(b, c) && Scanned(b, c, x) && g != h && Reaches(b, c, g, x.bus) && Reaches(b, c, h, x.bus)
    ensures Meets(b, c, g, h) || Meets(b, c, h, g)
  {
    var k: nat :| Path(b, c, g, x.bus, k);
    var j: nat :| Path(b, c, h, x.bus, j);
    if j <= k { MeetAt(b, c, g, h, x, j, k); } else { MeetAt(b, c, h, g, x, k, j); }
  }

  /** Where two host controllers meet, something is found from both. */
  lemma MetIsFound(b: Build, c: Config, g: int, h: int) returns (x: Fn)
    requires Meets(b, c, g, h)
    ensures Scanned(b, c, x) && Reaches(b, c, g, x.bus) && Reaches(b, c, h, x.bus)
  {
    x :| Scanned(b, c, x) && x.bus == h;
    assert Path(b, c, h, h, 0);
  }

  lemma JoinedRepeats(s: seq<Fn>, t: seq<Fn>)
    ensures NoRepeats(s + t) <==> NoRepeats(s) && NoRepeats(t) && forall x | x in s :: x !in t
  {
    var u := s + t;
    if NoRepeats(s) && NoRepeats(t) && forall x | x in s :: x !in t { NoRepeatsJoined(s, t); }
    if NoRepeats(u) {
      forall i, j | 0 <= i < j < |s| ensures s[i] != s[j] { assert u[i] == s[i] && u[j] == s[j]; }
      forall i, j | 0 <= i < j < |t| ensures t[i] != t[j] { assert u[|s| + i] == t[i] && u[|s| + j] == t[j]; }
      forall x | x in s ensures x !in t { NotInBoth(s, t, x); }
    }
  }

  lemma NotInBoth(s: seq<Fn>, t: seq<Fn>, x: Fn)
    requires NoRepeats(s + t) && x in s
    ensures x !in t
  {
    var i :| 0 <= i < |s| && s[i] == x;
    forall j | 0 <= j < |t| ensures t[j] != x { assert (s + t)[i] != (s + t)[|s| + j]; }
  }

  /** The next host controller meets one of those before it. */
  ghost predicate MeetsBefore(b: Build, c: Config, h: int) {
    exists g {:trigger Starts(c, g)} :: 0 <= g < h && Starts(c, g) && (Meets(b, c, g, h) || Meets(b, c, h, g))
  }

  lemma FoundBefore(b: Build, c: Config, h: int, x: Fn, n: nat)
    requires HostsEnd(b, c, n) && OneParent(b, c) && 0 <= h && Starts(c, h)
    requires x in HostsTo(b, c, h, n) && x in Listing(b, c, h, 0, n)
    ensures MeetsBefore(b, c, h)
  {
    HostsToComplete(b, c, h, x, n);
    ListingComplete(b, c, h, x, n);
    var g :| 0 <= g < h && Starts(c, g) && Reaches(b, c, g, x.bus);
    FoundFromBoth(b, c, g, h, x);
  }

  lemma BothFind(b: Build, c: Config, h: int, n: nat) returns (x: Fn)
    requires HostsEnd(b, c, n) && 0 <= h && Starts(c, h) && MeetsBefore(b, c, h)
    ensures x in HostsTo(b, c, h, n) && x in Listing(b, c, h, 0, n)
  {
    var g :| 0 <= g < h && Starts(c, g) && (Meets(b, c, g, h) || Meets(b, c, h, g));
    if Meets(b, c, g, h) { x := MetIsFound(b, c, g, h); } else { x := MetIsFound(b, c, h, g); }
    assert FromHost(b, c, h, x.bus);
    HostsToComplete(b, c, h, x, n);
    ListingComplete(b, c, h, x, n);
  }

  /** What the first host controllers find is not found from the next one, unless the two meet. */
  lemma NextApart(b: Build, c: Config, h: int, n: nat)
    requires HostsEnd(b, c, n) && OneParent(b, c) && 0 <= h && Starts(c, h)
    ensures (forall x | x in HostsTo(b, c, h, n) :: x !in Listing(b, c, h, 0, n)) <==> !MeetsBefore(b, c, h)
  {
    if MeetsBefore(b, c, h) {
      var x := BothFind(b, c, h, n);
    } else {
      forall x | x in HostsTo(b, c, h, n) ensures x !in Listing(b, c, h, 0, n) {
        if x in Listing(b, c, h, 0, n) { FoundBefore(b, c, h, x, n); }
      }
    }
  }

  /**
   With one bridge at most to each bus, nothing is found twice exactly if no host controller's bus lies behind a
   bridge of another's.
   */
  lemma {:induction false} HostsOnce(b: Build, c: Config, buses: int, n: nat)
    requires HostsEnd(b, c, n) && OneParent(b, c) && 0 <= buses
    ensures NoRepeats(HostsTo(b, c, buses, n)) <==> ApartBelow(b, c, buses)
  {
    if buses > 0 {
      var h := buses - 1;
      HostsOnce(b, c, h, n);
      NextBelow(b, c, h);
      if Starts(c, h) {
        ListingOnce(b, c, h, 0, n);
        JoinedRepeats(HostsTo(b, c, h, n), Listing(b, c, h, 0, n));
        NextApart(b, c, h, n);
      } else {
        assert HostsTo(b, c, buses, n) == HostsTo(b, c, h, n);
      }
    }
  }

  lemma NextBelow(b: Build, c: Config, h: int)
    requires 0 <= h
    ensures ApartBelow(b, c, h + 1) <==>
            ApartBelow(b, c, h) && (Starts(c, h) ==> !MeetsBefore(b, c, h))
  {
  }

  /** The lines of the cache are those of the log. */
  lemma LinesOnce(c: Config, cache: seq<Cached>, len: int, log: seq<Fn>)
    requires |log| < 256 && CacheHolds(c, cache, len, log)
    ensures (forall i, j | 0 <= i < j < len :: cache[i].fn != cache[j].fn) <==> NoRepeats(log)
  {
    forall i | 0 <= i < len ensures cache[i].fn == log[i] { assert cache[i] == Cached(log[i], c(log[i])); }
  }

  /**
   With at most one bridge to each bus and fewer than 256 functions, the cache holds each function the scan can reach
   from a host controller, and nothing else; no function has two lines exactly if no host controller's bus lies behind
   a bridge of another's. The lines stay inside the bytes allocated for them exactly if there are at most 170.
   */
  lemma {:induction false} CachedOnce(b: Build, c: Config, cache: seq<Cached>, len: int, x: Fn, n: nat)
    requires HostsEnd(b, c, n) && OneParent(b, c)
    requires |Hosts(b, c, n)| < 256 && CacheHolds(c, cache, len, Hosts(b, c, n))
    ensures LinesInside(Hosts(b, c, n)) <==> len <= 170
    ensures x in Matches(cache[..len], c(x).classId, c(x).subclass) <==> Reachable(b, c, x)
    ensures (forall i, j | 0 <= i < j < len :: cache[i].fn != cache[j].fn) <==> HostsApart(b, c)
    ensures HostsApart(b, c) ==> NoRepeats(Matches(cache[..len], c(x).classId, c(x).subclass))
  {
    var log := Hosts(b, c, n);
    LinesFit(log);
    HostsOnce(b, c, if c(Fn(0, 0, 0)).multi then 8 else 1, n);
    assert HostsApart(b, c) <==> NoRepeats(log);
    HostsComplete(b, c, x, n);
    LinesOnce(c, cache, len, log);
    MatchesExact(c, cache[..len], log, c(x).classId, c(x).subclass);
  }

  /** A host bridge that says there are several, a bridge to bus 1, and a device behind it. */
  function TwiceConfig(f: Fn): Header {
    if f == Fn(0, 0, 0) then Header(0x8086, 6, 0, true, 0)
    else if f == Fn(0, 1, 0) then Header(0x8086, 6, 4, false, 1)
    else if f == Fn(1, 0, 0) then Header(0x8086, 2, 0, false, 0)
    else Header(0xFFFF, 0, 0, false, 0)
  }

  /** An input: the device is taken for a host controller of its bus, and found a second time. */
  lemma CachedTwice(b: Build)
    ensures OneParent(b, TwiceConfig) && HostsEnd(b, TwiceConfig, 1)
    ensures Fn(1, 0, 0) in Hosts(b, TwiceConfig, 1) && !NoRepeats(Hosts(b, TwiceConfig, 1))
  {
    var c, g, x := TwiceConfig, Fn(0, 1, 0), Fn(1, 0, 0);
    forall f | Scanned(b, c, f) && Descends(c, f) ensures f == g { assert Present(c, f); }
    assert Ends(b, c, 1, 0) && Ends(b, c, 1, 1) && Ends(b, c, 0, 1);
    forall bus | Starts(c, bus) ensures bus == 0 || bus == 1 { assert c(Fn(bus, 0, 0)).vendor != 0xFFFF; }
    assert Scanned(b, c, x) && Scanned(b, c, g) && Path(b, c, 0, 0, 0) && Path(b, c, 1, 1, 0);
    PathOn(b, c, 0, g, 0);
    assert Starts(c, 0) && Starts(c, 1) && Meets(b, c, 0, 1);
    HostsOnce(b, c, 8, 1);
    HostsComplete(b, c, x, 1);
  }

  /** An input: a second host controller on bus 5. */
  function TwoHostsConfig(f: Fn): Header {
    if f == Fn(0, 0, 0) then Header(0x8086, 6, 0, true, 0)
    else if f == Fn(5, 0, 0) then Header(0x8086, 6, 0, false, 0)
    else Header(0xFFFF, 0, 0, false, 0)
  }

  lemma SecondHostFound(b: Build)
    ensures HostsEnd(b, TwoHostsConfig, 0) && Fn(5, 0, 0) in Hosts(b, TwoHostsConfig, 0)
  {
    var c := TwoHostsConfig;
    assert forall f :: !Descends(c, f);
    assert Starts(c, 5) && Path(b, c, 5, 5, 0) && Reaches(b, c, 5, 5);
    HostsComplete(b, c, Fn(5, 0, 0), 0);
  }

  /** An input: the crowded machine, of which the shipped scan caches 224 functions. */
  lemma CacheOverrun()
    ensures HostsEnd(Shipped, CrowdedConfig, 0) && |Hosts(Shipped, CrowdedConfig, 0)| == 224
    ensures !LinesInside(Hosts(Shipped, CrowdedConfig, 0))
  {
    var c := CrowdedConfig;
    assert Ends(Shipped, c, 0, 0);
    assert forall bus | 0 < bus < 8 :: !Present(c, Fn(bus, 0, 0));
    CrowdedFrom(0);
    CrowdedHosts(8);
    LinesFit(Hosts(Shipped, c, 0));
  }

  lemma {:induction false} CrowdedHosts(buses: int)
    requires 1 <= buses <= 8 && HostsEnd(Shipped, CrowdedConfig, 0) && Ends(Shipped, CrowdedConfig, 0, 0)
    ensures HostsTo(Shipped, CrowdedConfig, buses, 0) == Listing(Shipped, CrowdedConfig, 0, 0, 0)
  {
    if buses > 1 { CrowdedHosts(buses - 1); } else { assert Starts(CrowdedConfig, 0); }
  }

  class Scanner {
    const build: Build
    const config: Config
    const cache: array<Cached>
    var cacheLen: int
    ghost var log: seq<Fn>

    constructor (build: Build, config: Config)
      ensures this.build == build && this.config == config && log == [] && Valid() && fresh(cache)
    {
      this.build, this.config, this.cacheLen, this.log := build, config, 0, [];
      this.cache := new Cached[256](_ => Cached(Fn(0, 0, 0), Header(0, 0, 0, false, 0)));
    }

    ghost predicate Valid()
      reads this, cache
    {
      CacheHolds(config, cache[..], cacheLen, log)
    }

    method EnumBus(bus: int, ghost n: nat)
      requires Valid() && Ends(build, config, bus, n) && 0 <= bus < 256
      modifies this`cacheLen, this`log, cache
      ensures Valid() && log == old(log) + Listing(build, config, bus, 0, n)
      decreases n, 2
    {
      ghost var done := [];
      var device := 0;
      while device < 32
        invariant 0 <= device <= 32 && Valid() && log == old(log) + done
        invariant done + Listing(build, config, bus, 8 * device, n) == Listing(build, config, bus, 0, n)
      {
        ghost var found := Units(build, config, bus, device, 0, n);
        UnitsListed(build, config, bus, device, 0, n);
        EnumDevice(bus, device, n);
        Regroup(old(log), done, found, Listing(build, config, bus, 8 * device + 8, n));
        done := done + found;
        device := device + 1;
      }
    }

    method EnumDevice(bus: int, device: int, ghost n: nat)
      requires Valid() && Ends(build, config, bus, n) && 0 <= bus < 256 && 0 <= device < 32
      modifies this`cacheLen, this`log, cache
      ensures Valid() && log == old(log) + Units(build, config, bus, device, 0, n)
      decreases n, 1, 1
    {
      var header := config(Fn(bus, device, 0));
      if header.vendor != 0xFFFF {
        var first := FirstFunction(build, config, bus, device);
        if header.multi {
          UnitsSkip(build, config, bus, device, 0, first, n);
          EnumUnits(bus, device, first, n);
        } else {
          EnumFunction(bus, device, 0, n);
          UnitsSkip(build, config, bus, device, 1, 8, n);
        }
      } else {
        UnitsSkip(build, config, bus, device, 0, 8, n);
      }
    }

    /** The loop over the functions of a multifunction device. */
    method EnumUnits(bus: int, device: int, first: int, ghost n: nat)
      requires Valid() && Ends(build, config, bus, n) && 0 <= bus < 256 && 0 <= device < 32 && 0 <= first <= 8
      requires Present(config, Fn(bus, device, 0)) && FirstFunction(build, config, bus, device) <= first
      requires config(Fn(bus, device, 0)).multi
      modifies this`cacheLen, this`log, cache
      ensures Valid() && log == old(log) + Units(build, config, bus, device, first, n)
      decreases n, 1, 0
    {
      ghost var done := [];
      var unit := first;
      while unit < 8
        invariant first <= unit <= 8 && Valid() && log == old(log) + done
        invariant done + Units(build, config, bus, device, unit, n) == Units(build, config, bus, device, first, n)
      {
        ghost var found := Found(build, config, Fn(bus, device, unit), n);
        EnumFunction(bus, device, unit, n);
        Regroup(old(log), done, found, Units(build, config, bus, device, unit + 1, n));
        done := done + found;
        unit := unit + 1;
      }
    }

    method EnumFunction(bus: int, device: int, unit: int, ghost n: nat)
      requires Valid() && Ends(build, config, bus, n) && 0 <= bus < 256 && 0 <= device < 32 && 0 <= unit < 8
      requires Present(config, Fn(bus, device, 0)) && FirstFunction(build, config, bus, device) <= unit
      requires config(Fn(bus, device, 0)).multi || unit == 0
      modifies this`cacheLen, this`log, cache
      ensures Valid() && log == old(log) + Found(build, config, Fn(bus, device, unit), n)
      decreases n, 0, 1
    {
      var f := Fn(bus, device, unit);
      var header := config(f);
      FoundNext(build, config, log, f, n);
      if header.vendor != 0xFFFF {
        Record(f, header);
        EnumBridge(f, header, n);
      }
    }

    /** Behind a bridge the scan goes on. */
    method EnumBridge(f: Fn, header: Header, ghost n: nat)
      requires Valid() && Ends(build, config, f.bus, n) && header == config(f) && Scanned(build, config, f)
      modifies this`cacheLen, this`log, cache
      ensures Valid() && log ==
              old(log) + if Descends(config, f) then Listing(build, config, header.secondary, 0, n - 1) else []
      decreases n, 0, 0
    {
      if header.classId == 0x06 && header.subclass == 0x04 {
        var secondary := header.secondary;
        if secondary != f.bus {
          EnumBus(secondary, n - 1);
        }
      }
    }

    method Record(f: Fn, header: Header)
      requires Valid() && header == config(f)
      modifies this`cacheLen, this`log, cache
      ensures Valid() && log == old(log) + [f]
    {
      CacheNext(config, cache[..], cacheLen, log, f);
      ghost var lines := cache[..];
      cache[cacheLen] := Cached(f, header);
      assert cache[..] == lines[cacheLen := Cached(f, header)];
      log, cacheLen := log + [f], (cacheLen + 1) % 256;
    }

    /**
     `pci_init`: the scan from the host controllers finds what it looks at on the buses to which one of them leads. It
     fails if it found nothing, or a multiple of 256 functions.
     */
    method PciInit(ghost n: nat) returns (ok: bool)
      requires Valid() && log == [] && HostsEnd(build, config, n)
      modifies this`cacheLen, this`log, cache
      ensures Valid() && log == Hosts(build, config, n) && (ok <==> |log| % 256 != 0)
      ensures forall x :: x in log <==> Reachable(build, config, x)
    {
      if config(Fn(0, 0, 0)).multi {
        var bus := 0;
        while bus < 8
          invariant 0 <= bus <= 8 && Valid() && log == HostsTo(build, config, bus, n)
        {
          if config(Fn(bus, 0, 0)).vendor != 0xFFFF {
            assert Starts(config, bus);
            EnumBus(bus, n);
          }
          bus := bus + 1;
        }
      } else {
        OneHost(build, config, n);
        EnumBus(0, n);
      }
      ok := cacheLen > 0;
      forall x ensures x in log <==> Reachable(build, config, x) {
        HostsComplete(build, config, x, n);
      }
    }

    /** `pci_num_device` */
    method NumDevice(classId: int, subclass: int) returns (x: int)
      requires Valid()
      ensures x == |Matches(cache[..cacheLen], classId, subclass)|
    {
      var i := 0;
      x := 0;
      while i < cacheLen
        invariant 0 <= i <= cacheLen < 256 && x == |Matches(cache[..i], classId, subclass)| <= i
      {
        MatchesNext(cache[..], i, classId, subclass);
        if cache[i].header.classId == classId && cache[i].header.subclass == subclass {
          x := (x + 1) % 256;
        }
        i := i + 1;
      }
    }

    /** `pci_get_device` succeeds exactly for indices below `pci_num_device`, each with a line of its own. */
    method GetDevice(classId: int, subclass: int, idx: int) returns (ok: bool, f: Fn)
      requires Valid() && 0 <= idx < 256
      ensures ok <==> idx < |Matches(cache[..cacheLen], classId, subclass)|
      ensures ok ==> f == Matches(cache[..cacheLen], classId, subclass)[idx]
    {
      var i, x := 0, 0;
      ok, f := false, Fn(0, 0, 0);
      while i < cacheLen
        invariant 0 <= i <= cacheLen < 256 && x == |Matches(cache[..i], classId, subclass)| <= i && x <= idx
      {
        MatchesNext(cache[..], i, classId, subclass);
        if cache[i].header.classId == classId && cache[i].header.subclass == subclass {
          if x == idx {
            MatchesBound(cache[..cacheLen], i + 1, classId, subclass);
            assert cache[..cacheLen][..i + 1] == cache[..i + 1];
            return true, cache[i].fn;
          }
          x := (x + 1) % 256;
        }
        i := i + 1;
      }
    }
  }
}
