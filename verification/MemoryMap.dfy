/** The E820 memory map: the bubble sort both `sort_e820` functions share, and the totals the kernel's one takes. */
module MemoryMap {
  import opened Machine

  const MEM_OK: int := 1
  const MEM_RESERVED: int := 2

  datatype Region = Region(base: int, length: int, kind: int)

  ghost predicate Sorted(s: seq<Region>) {
    forall i, j | 0 <= i < j < |s| :: s[i].base <= s[j].base
  }

  /** The entries with a given base, in order. */
  function WithBase(s: seq<Region>, b: int): seq<Region> {
    if s == [] then [] else WithBase(s[..|s| - 1], b) + if s[|s| - 1].base == b then [s[|s| - 1]] else []
  }

  /** The same entries, those of equal base in the same order. */
  ghost predicate StablePermutation(s: seq<Region>, t: seq<Region>) {
    multiset(s) == multiset(t) && forall b {:trigger WithBase(t, b)} :: WithBase(s, b) == WithBase(t, b)
  }

  function Swapped(s: seq<Region>, i: int): seq<Region>
    requires 0 <= i < |s| - 1
  {
    s[i := s[i + 1]][i + 1 := s[i]]
  }

  lemma {:induction false} SwapStable(s: seq<Region>, i: int, b: int)
    requires 0 <= i < |s| - 1 && s[i].base != s[i + 1].base
    ensures WithBase(Swapped(s, i), b) == WithBase(s, b)
  {
    var n, t := |s| - 1, Swapped(s, i);
    if i + 1 < n {
      SwapStable(s[..n], i, b);
      assert t[..n] == Swapped(s[..n], i);
    } else {
      assert t[..n][..n - 1] == s[..n][..n - 1];
      assert WithBase(s, b) == WithBase(s[..n], b) + if s[n].base == b then [s[n]] else [];
      assert WithBase(t, b) == WithBase(t[..n], b) + if s[i].base == b then [s[i]] else [];
    }
  }

  lemma SwapMultiset(t: seq<Region>, i: int)
    requires 0 <= i < |t| - 1
    ensures multiset(Swapped(t, i)) == multiset(t)
  {
  }

  lemma SwapPermutes(s: seq<Region>, t: seq<Region>, i: int)
    requires 0 <= i < |t| - 1 && t[i].base != t[i + 1].base && StablePermutation(s, t)
    ensures StablePermutation(s, Swapped(t, i))
  {
    SwapMultiset(t, i);
    forall b ensures WithBase(s, b) == WithBase(Swapped(t, i), b) { SwapStable(t, i, b); }
  }

  /** Nothing before a place in the tail is larger than what is there. */
  ghost predicate TailDone(s: seq<Region>, count: int) {
    forall i, j | 0 <= i < j < |s| && count <= j :: s[i].base <= s[j].base
  }

  /** The first places up to i are in order. */
  ghost predicate HeadSorted(s: seq<Region>, i: int) {
    forall j, k | 0 <= j < k <= i && k < |s| :: s[j].base <= s[k].base
  }

  /** Place i holds a largest of the first entries. */
  ghost predicate LargestAt(s: seq<Region>, i: int) {
    i < |s| && forall k | 0 <= k < i :: s[k].base <= s[i].base
  }

  /** One comparison of the bubble sort. */
  function Exchanged(s: seq<Region>, i: int): seq<Region>
    requires 0 <= i < |s| - 1
  {
    if s[i].base > s[i + 1].base then Swapped(s, i) else s
  }

  method Exchange(entries: array<Region>, i: int) returns (swapped: bool)
    requires 0 <= i < entries.Length - 1
    modifies entries
    ensures entries[..] == Exchanged(old(entries[..]), i) && (swapped <==> old(entries[i].base > entries[i + 1].base))
  {
    swapped := entries[i].base > entries[i + 1].base;
    if swapped {
      entries[i], entries[i + 1] := entries[i + 1], entries[i];
    }
  }

  lemma ExchangeLargest(s: seq<Region>, i: int, count: int)
    requires 0 <= i < count - 1 && count <= |s| && TailDone(s, count) && LargestAt(s, i)
    ensures TailDone(Exchanged(s, i), count) && LargestAt(Exchanged(s, i), i + 1)
  {
  }

  lemma ExchangePermutes(s: seq<Region>, t: seq<Region>, i: int)
    requires 0 <= i < |t| - 1 && StablePermutation(s, t)
    ensures StablePermutation(s, Exchanged(t, i))
  {
    if t[i].base > t[i + 1].base { SwapPermutes(s, t, i); }
  }

  /** One round of the bubble sort. */
  method Pass(entries: array<Region>, count: int) returns (swapped: bool)
    requires 0 < count <= entries.Length && TailDone(entries[..], count)
    modifies entries
    ensures StablePermutation(old(entries[..]), entries[..]) && TailDone(entries[..], count - 1)
    ensures !swapped ==> Sorted(entries[..])
  {
    ghost var s := entries[..];
    ghost var t := s;
    var i := 0;
    swapped := false;
    while i < count - 1
      invariant 0 <= i <= count - 1 && entries[..] == t
      invariant PassState(s, t, i, count, swapped)
    {
      PassStep(s, t, i, count, swapped);
      var now := Exchange(entries, i);
      t := Exchanged(t, i);
      swapped := swapped || now;
      i := i + 1;
    }
    PassDone(t, count);
  }

  /** Within a round that has reached place i. */
  ghost predicate PassState(s: seq<Region>, t: seq<Region>, i: int, count: int, swapped: bool) {
    StablePermutation(s, t) && TailDone(t, count) && LargestAt(t, i) && (!swapped ==> HeadSorted(t, i))
  }

  lemma PassStep(s: seq<Region>, t: seq<Region>, i: int, count: int, swapped: bool)
    requires 0 <= i < count - 1 && count <= |t| && PassState(s, t, i, count, swapped)
    ensures PassState(s, Exchanged(t, i), i + 1, count, swapped || t[i].base > t[i + 1].base)
  {
    ExchangeLargest(t, i, count);
    ExchangePermutes(s, t, i);
  }

  lemma PassDone(s: seq<Region>, count: int)
    requires 0 < count <= |s| && TailDone(s, count) && LargestAt(s, count - 1)
    ensures TailDone(s, count - 1) && (HeadSorted(s, count - 1) ==> Sorted(s))
  {
  }

  /**
   `sort_e820` up to the totals: it sorts by base and keeps entries of equal base in order, in spite of leaving
   early.
   */
  method SortE820(entries: array<Region>)
    modifies entries
    ensures Sorted(entries[..]) && StablePermutation(old(entries[..]), entries[..])
  {
    var count, swapped := entries.Length, true;
    while count > 0 && swapped
      invariant 0 <= count <= entries.Length
      invariant StablePermutation(old(entries[..]), entries[..]) && TailDone(entries[..], count)
      invariant !swapped ==> Sorted(entries[..])
    {
      ghost var s, t := old(entries[..]), entries[..];
      swapped := Pass(entries, count);
      PermutesThen(s, t, entries[..]);
      count := count - 1;
    }
  }

  lemma PermutesThen(s: seq<Region>, t: seq<Region>, u: seq<Region>)
    requires StablePermutation(s, t) && StablePermutation(t, u)
    ensures StablePermutation(s, u)
  {
    forall b ensures WithBase(s, b) == WithBase(u, b) { assert WithBase(s, b) == WithBase(t, b); }
  }

  lemma {:induction false} WithBaseMember(s: seq<Region>, e: Region)
    ensures e in WithBase(s, e.base) <==> e in s
  {
    if s != [] {
      WithBaseMember(s[..|s| - 1], e);
      assert s == s[..|s| - 1] + [s[|s| - 1]];
    }
  }

  /** There is only one sorted stable permutation: the bubble sort computes what any stable sort would. */
  lemma {:induction false} SortedUnique(s: seq<Region>, t: seq<Region>)
    requires Sorted(s) && Sorted(t) && forall b :: WithBase(s, b) == WithBase(t, b)
    ensures s == t
  {
    if s == [] || t == [] {
      if s != [] { WithBaseMember(s, s[0]); WithBaseMember(t, s[0]); }
      if t != [] { WithBaseMember(s, t[0]); WithBaseMember(t, t[0]); }
    } else {
      LastSame(s, t);
      var s', t' := s[..|s| - 1], t[..|t| - 1];
      forall c ensures WithBase(s', c) == WithBase(t', c) { LastOut(s, t, c); }
      SortedUnique(s', t');
      assert s == s' + [s[|s| - 1]] && t == t' + [t[|t| - 1]];
    }
  }

  /** The last entry has the largest base. */
  lemma LastLargest(s: seq<Region>, t: seq<Region>)
    requires s != [] && t != [] && Sorted(t) && forall b :: WithBase(s, b) == WithBase(t, b)
    ensures s[|s| - 1].base <= t[|t| - 1].base
  {
    var a := s[|s| - 1];
    WithBaseMember(s, a);
    WithBaseMember(t, a);
    var j :| 0 <= j < |t| && t[j] == a;
  }

  lemma LastSame(s: seq<Region>, t: seq<Region>)
    requires s != [] && t != [] && Sorted(s) && Sorted(t) && forall b :: WithBase(s, b) == WithBase(t, b)
    ensures s[|s| - 1] == t[|t| - 1]
  {
    LastLargest(s, t);
    LastLargest(t, s);
    var c := s[|s| - 1].base;
    assert WithBase(s, c) == WithBase(t, c);
    LastSameAt(s, t, c);
  }

  lemma LastSameAt(s: seq<Region>, t: seq<Region>, c: int)
    requires s != [] && t != [] && WithBase(s, c) == WithBase(t, c) && s[|s| - 1].base == t[|t| - 1].base == c
    ensures s[|s| - 1] == t[|t| - 1]
  {
    LastEqual(WithBase(s[..|s| - 1], c), s[|s| - 1], WithBase(t[..|t| - 1], c), t[|t| - 1]);
  }

  lemma LastEqual(p: seq<Region>, a: Region, q: seq<Region>, b: Region)
    requires p + [a] == q + [b]
    ensures a == b
  {
    assert (p + [a])[|p + [a]| - 1] == a && (q + [b])[|q + [b]| - 1] == b;
  }

  lemma LastDropped(p: seq<Region>, q: seq<Region>, last: Region)
    requires p + [last] == q + [last]
    ensures p == q
  {
    assert |p + [last]| == |p| + 1 && |q + [last]| == |q| + 1;
    forall i | 0 <= i < |p| ensures p[i] == q[i] { assert (p + [last])[i] == (q + [last])[i]; }
  }

  lemma {:induction false} LastIn(s: seq<Region>, c: int)
    requires s != []
    ensures WithBase(s, c) == if s[|s| - 1].base == c then WithBase(s[..|s| - 1], c) + [s[|s| - 1]]
                              else WithBase(s[..|s| - 1], c)
  {
  }

  lemma {:induction false} LastOut(s: seq<Region>, t: seq<Region>, c: int)
    requires s != [] && t != [] && s[|s| - 1] == t[|t| - 1] && WithBase(s, c) == WithBase(t, c)
    ensures WithBase(s[..|s| - 1], c) == WithBase(t[..|t| - 1], c)
  {
    var p, q := WithBase(s[..|s| - 1], c), WithBase(t[..|t| - 1], c);
    LastIn(s, c);
    LastIn(t, c);
    if s[|s| - 1].base == c { LastDropped(p, q, s[|s| - 1]); }
  }

  // ----- Totals -----

  /** What the kernel's total counts: every entry but those of type 2 (reserved), up to its end modulo 2^64. */
  predicate Counted(e: Region, end: int) {
    e.kind != 2 && end == (e.base + e.length) % 0x1_0000_0000_0000_0000
  }

  /** Bytes of usable memory in a region: type 1. */
  function Bytes(e: Region): int {
    if e.kind == 1 then e.length else 0
  }

  function Sum(s: seq<Region>, f: Region -> int): int {
    if s == [] then 0 else Sum(s[..|s| - 1], f) + f(s[|s| - 1])
  }

  lemma {:induction false} SumSplit(s: seq<Region>, t: seq<Region>, f: Region -> int)
    ensures Sum(s + t, f) == Sum(s, f) + Sum(t, f)
  {
    if t == [] {
      assert s + t == s;
    } else {
      SumSplit(s, t[..|t| - 1], f);
      assert (s + t)[..|s + t| - 1] == s + t[..|t| - 1];
    }
  }

  lemma WithoutOne(s: seq<Region>, e: Region, l: seq<Region>, r: seq<Region>)
    requires multiset(s + [e]) == multiset(l + [e] + r)
    ensures multiset(s) == multiset(l + r)
  {
    var a, b := multiset(s), multiset(l + r);
    assert multiset(s + [e]) == a + multiset{e};
    assert multiset(l + [e] + r) == b + multiset{e};
    assert a == (a + multiset{e}) - multiset{e};
    assert b == (b + multiset{e}) - multiset{e};
  }

  /** A sum over the map does not depend on its order. */
  lemma {:induction false} SumAnyOrder(s: seq<Region>, t: seq<Region>, f: Region -> int)
    requires multiset(s) == multiset(t)
    ensures Sum(s, f) == Sum(t, f)
  {
    if s == [] {
      assert |multiset(t)| == 0;
    } else {
      var e, s' := s[|s| - 1], s[..|s| - 1];
      assert s == s' + [e];
      assert e in multiset(t);
      var i :| 0 <= i < |t| && t[i] == e;
      var l, r := t[..i], t[i + 1..];
      assert t == l + [e] + r;
      WithoutOne(s', e, l, r);
      SumAnyOrder(s', l + r, f);
      SumSplit(l, r, f);
      SumSplit(l, [e], f);
      SumSplit(l + [e], r, f);
    }
  }

  /** A total is the largest end of the counted entries, or zero if there are none. */
  ghost predicate LargestEnd(s: seq<Region>, total: int) {
    && (forall e, end {:trigger Counted(e, end)} | e in s && Counted(e, end) :: end <= total)
    && (total == 0 || exists e :: e in s && Counted(e, total))
  }

  /** The largest end does not depend on the order of the map. */
  lemma LargestEndAnyOrder(s: seq<Region>, t: seq<Region>, m: int, n: int)
    requires multiset(s) == multiset(t) && LargestEnd(s, m) && LargestEnd(t, n) && 0 <= m && 0 <= n
    ensures m == n
  {
    assert forall e :: e in s <==> e in multiset(s);
    assert forall e :: e in t <==> e in multiset(t);
    if m != 0 {
      var e :| e in s && Counted(e, m);
      assert e in t && Counted(e, m);
    }
    if n != 0 {
      var e :| e in t && Counted(e, n);
      assert e in s && Counted(e, n);
    }
  }

  lemma LargestEndKept(s: seq<Region>, t: seq<Region>, m: int)
    requires multiset(s) == multiset(t) && LargestEnd(s, m)
    ensures LargestEnd(t, m)
  {
    assert forall e :: e in s <==> e in multiset(s);
    assert forall e :: e in t <==> e in multiset(t);
  }

  lemma LargestEndNext(s: seq<Region>, e: Region, m: int)
    requires LargestEnd(s, m) && 0 <= m
    ensures var end := Add64(e.base, e.length);
            LargestEnd(s + [e], if e.kind != MEM_RESERVED && end > m then end else m)
  {
    var end := Add64(e.base, e.length);
    var n := if e.kind != MEM_RESERVED && end > m then end else m;
    if n != m {
      assert e in s + [e] && Counted(e, n);
    } else if m != 0 {
      var f :| f in s && Counted(f, m);
      assert f in s + [e];
    }
  }

  lemma SumNext(s: seq<Region>, e: Region, f: Region -> int)
    ensures Sum(s + [e], f) == Sum(s, f) + f(e)
  {
    assert (s + [e])[..|s + [e]| - 1] == s;
  }

  lemma AddMod(u: int, n: int)
    ensures (u % W64 + n) % W64 == (u + n) % W64
  {
    var q, r := u / W64, u % W64;
    assert u == W64 * q + r;
    WholeTurns(q, r + n);
  }

  lemma WholeTurns(q: int, x: int)
    ensures (W64 * q + x) % W64 == x % W64
  {
    var p := x / W64;
    assert W64 * q + x == W64 * (q + p) + x % W64;
  }

  /** The kernel's totals. */
  class Totals {
    var total: int
    var available: int

    constructor ()
      ensures total == 0 && available == 0
    {
      total, available := 0, 0;
    }

    /** One entry of the counting loop. */
    method Count(e: Region, ghost s: seq<Region>)
      requires 0 <= total && LargestEnd(s, total) && available == Sum(s, Bytes) % W64
      modifies this
      ensures 0 <= total && LargestEnd(s + [e], total) && available == Sum(s + [e], Bytes) % W64
    {
      LargestEndNext(s, e, total);
      SumNext(s, e, Bytes);
      AddMod(Sum(s, Bytes), e.length);
      if e.kind != MEM_RESERVED {
        if Add64(e.base, e.length) > total {
          total := Add64(e.base, e.length);
        }
        if e.kind == MEM_OK {
          available := Add64(available, e.length);
        }
      }
    }

    /** The counting loop. */
    method CountAll(entries: array<Region>)
      requires total == 0 && available == 0
      modifies this
      ensures 0 <= total && LargestEnd(entries[..], total) && available == Sum(entries[..], Bytes) % W64
    {
      var i := 0;
      while i < entries.Length
        invariant 0 <= i <= entries.Length && 0 <= total
        invariant LargestEnd(entries[..i], total) && available == Sum(entries[..i], Bytes) % W64
      {
        assert entries[..i + 1] == entries[..i] + [entries[i]];
        Count(entries[i], entries[..i]);
        i := i + 1;
      }
      assert entries[..i] == entries[..];
    }

    /**
     The kernel's `sort_e820`: it sorts the map. Whatever the order it came in, the total is the largest end of the
     entries that are not of type 2, and the available memory is the length of all entries of type 1.
     */
    method SortAndCount(entries: array<Region>)
      requires total == 0 && available == 0
      modifies this, entries
      ensures Sorted(entries[..]) && StablePermutation(old(entries[..]), entries[..])
      ensures 0 <= total && LargestEnd(old(entries[..]), total)
      ensures available == Sum(old(entries[..]), Bytes) % W64
    {
      ghost var s := entries[..];
      SortE820(entries);
      ghost var t := entries[..];
      CountAll(entries);
      assert entries[..] == t;
      SumAnyOrder(s, t, Bytes);
      LargestEndKept(t, s, total);
    }
  }
}
