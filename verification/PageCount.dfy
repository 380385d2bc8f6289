/** Exact table accounting: the tables in existence are the root and one for each prefix in use. */
module PageCount {
  import opened Machine
  import opened PageTree

  /** The prefixes of the mapped pages at a level: vpn >> (9 * level). */
  function PrefixesUsed(T: Tree, level: nat): set<int> {
    set v | v in T.pages :: Shift(v, level)
  }

  function KeysAt(level: int, prefixes: set<int>): set<Key> {
    set p | p in prefixes :: Key(level, p)
  }

  lemma Member<T>(s: set<T>) returns (x: T)
    requires s != {}
    ensures x in s
  {
    x :| x in s;
  }

  lemma {:induction false} KeysAtCount(level: int, prefixes: set<int>)
    ensures |KeysAt(level, prefixes)| == |prefixes|
    decreases prefixes
  {
    if prefixes == {} {
      assert KeysAt(level, prefixes) == {};
    } else {
      var p := Member(prefixes);
      KeysAtCount(level, prefixes - {p});
      assert KeysAt(level, prefixes) == KeysAt(level, prefixes - {p}) + {Key(level, p)};
    }
  }

  function AllKeys(T: Tree): set<Key> {
    {Key(4, 0)} + KeysAt(3, PrefixesUsed(T, 3)) + KeysAt(2, PrefixesUsed(T, 2)) + KeysAt(1, PrefixesUsed(T, 1))
  }

  /** A table exists exactly if it is the root or some mapped page needs it. */
  lemma TablesAreNeeded(m: Memory, root: int, T: Tree, k: Key)
    requires TreeOk(m, root, T) && Needed(T, T.pages.Keys)
    ensures k in T.at <==> k in AllKeys(T)
  {
    if k in T.at {
      assert KeyOk(T, k) && k == Key(k.level, k.prefix);
      if k.level < 4 {
        var v :| v in T.pages.Keys && Shift(v, k.level) == k.prefix;
        assert k.prefix in PrefixesUsed(T, k.level);
      }
    }
    if k in AllKeys(T) && k != Key(4, 0) {
      var v :| v in T.pages && Shift(v, k.level) == k.prefix;
      assert PageOk(T, v);
      MappedPath(m, root, T, v, k.level);
    }
  }

  lemma TableCount(m: Memory, root: int, T: Tree)
    requires TreeOk(m, root, T) && Needed(T, T.pages.Keys)
    ensures |T.at| == 1 + |PrefixesUsed(T, 3)| + |PrefixesUsed(T, 2)| + |PrefixesUsed(T, 1)|
  {
    forall k ensures k in T.at.Keys <==> k in AllKeys(T) { TablesAreNeeded(m, root, T, k); }
    assert T.at.Keys == AllKeys(T);
    AllKeysCount(T);
  }

  lemma AllKeysCount(T: Tree)
    ensures |AllKeys(T)| == 1 + |PrefixesUsed(T, 3)| + |PrefixesUsed(T, 2)| + |PrefixesUsed(T, 1)|
  {
    var r, d3, d2, d1 := {Key(4, 0)}, KeysAt(3, PrefixesUsed(T, 3)), KeysAt(2, PrefixesUsed(T, 2)),
      KeysAt(1, PrefixesUsed(T, 1));
    KeysAtCount(3, PrefixesUsed(T, 3));
    KeysAtCount(2, PrefixesUsed(T, 2));
    KeysAtCount(1, PrefixesUsed(T, 1));
    assert r !! d3 && (r + d3) !! d2 && (r + d3 + d2) !! d1;
  }

  /** A cleared root table is a tree that maps nothing. */
  lemma EmptyRoot(m: Memory, root: int)
    requires 0 <= root < FRAMES
             && forall i {:trigger EntryAddr(root, i)} | 0 <= i < 512 :: Rd(m, EntryAddr(root, i)) == 0
    ensures var T := Tree(map[Key(4, 0) := root], map[]); TreeOk(m, root, T) && Needed(T, T.pages.Keys) && |T.at| == 1
  {
    var T := Tree(map[Key(4, 0) := root], map[]);
    forall i | 0 <= i < 512 ensures EntryOk(m, T, Key(4, 0), i) { assert Rd(m, EntryAddr(root, i)) == 0; }
    forall k, i | k in T.at && 0 <= i < 512 ensures EntryOk(m, T, k, i) { assert k == Key(4, 0); }
    assert T.at.Keys == {Key(4, 0)};
  }
}
