/** The trie as a value: which bit strings have a node, and the leaf stored there. */
module TrieShape {
  import opened Words
  import opened Routes
  import opened Rib
  import opened Reading

  type Shape = map<Bits, nat>

  ghost predicate HasParent(keys: set<Bits>, p: Bits) {
    p != [] ==> p[..|p| - 1] in keys
  }

  ghost predicate PrefixClosed(keys: set<Bits>) {
    [] in keys && forall p {:trigger HasParent(keys, p)} :: p in keys ==> HasParent(keys, p)
  }

  ghost function EmptyShape(): Shape {
    map[[] := NH_INVALID]
  }

  /** Nodes for the first `level` bits of a base, new ones without a leaf. */
  ghost function Grown(s: Shape, base: Word, level: nat): Shape
    requires level <= 32
  {
    if level == 0 then s
    else
      var g := Grown(s, base, level - 1);
      if base[..level] in g then g else g[base[..level] := NH_INVALID]
  }

  ghost function InsertShape(s: Shape, base: Word, len: nat, index: nat): Shape
    requires len <= 32
  {
    Grown(s, base, len)[base[..len] := index]
  }

  ghost function InsertLevel(s: Shape, level: Level, len: nat): Shape
    requires len <= 32
  {
    if level == [] then s
    else
      var k := |level| - 1;
      InsertShape(InsertLevel(s, level[..k], len), level[k].base, len, level[k].index)
  }

  /** The shape after inserting the first `len` levels of a table. */
  ghost function BuiltShape(t: Table, len: nat): Shape
    requires |t| == 33 && len <= 33
  {
    if len == 0 then EmptyShape() else InsertLevel(BuiltShape(t, len - 1), t[len - 1], len - 1)
  }

  /** The last leaf met when walking the first `depth` bits of an address. */
  ghost function Walk(s: Shape, a: Word, depth: nat): nat
    requires depth <= 32 && [] in s
  {
    if depth == 0 then s[[]]
    else if a[..depth] in s && s[a[..depth]] != NH_INVALID then s[a[..depth]]
    else Walk(s, a, depth - 1)
  }

  /** Below a missing node there is nothing to meet. */
  lemma {:induction false} MissingBelow(keys: set<Bits>, a: Word, pos: nat, depth: nat)
    requires PrefixClosed(keys) && pos < depth <= 32 && a[..pos + 1] !in keys
    ensures a[..depth] !in keys
  {
    if depth > pos + 1 {
      MissingBelow(keys, a, pos, depth - 1);
      assert a[..depth][..depth - 1] == a[..depth - 1];
      assert a[..depth] in keys ==> HasParent(keys, a[..depth]);
    }
  }

  lemma WalkStops(s: Shape, a: Word, pos: nat)
    requires PrefixClosed(s.Keys) && pos <= 32 && (pos < 32 ==> a[..pos + 1] !in s)
    ensures Walk(s, a, 32) == Walk(s, a, pos)
  {
    var d := pos;
    while d < 32
      invariant pos <= d <= 32 && Walk(s, a, d) == Walk(s, a, pos)
    {
      MissingBelow(s.Keys, a, pos, d + 1);
      d := d + 1;
    }
  }

  /** The leaf at a bit string, NH_INVALID where there is no node. */
  ghost function Leaf(s: Shape, p: Bits): nat {
    if p in s then s[p] else NH_INVALID
  }

  /** Index of the last route of a level with the given prefix, or NH_INVALID. */
  ghost function LastIndex(level: Level, p: Bits): nat
    requires |p| <= 32
  {
    IndexIn(LastRoute(level, p))
  }

  lemma {:induction false} GrownNodes(s: Shape, base: Word, level: nat, p: Bits)
    requires level <= 32
    ensures p in Grown(s, base, level) <==> p in s || (0 < |p| <= level && p <= base)
    ensures Leaf(Grown(s, base, level), p) == Leaf(s, p)
  {
    if level > 0 {
      GrownNodes(s, base, level - 1, p);
      assert |p| == level && p <= base ==> p == base[..level];
    }
  }

  lemma {:induction false} LevelNodes(s: Shape, level: Level, len: nat, p: Bits)
    requires len <= 32 && [] in s
    ensures p in InsertLevel(s, level, len) <==>
            p in s || exists r :: r in level && |p| <= len && p <= r.base
    ensures (|p| != len || forall r :: r in level ==> !(p <= r.base)) ==> Leaf(InsertLevel(s, level, len), p) == Leaf(s, p)
    ensures |p| == len && (exists r :: r in level && p <= r.base) ==> Leaf(InsertLevel(s, level, len), p) == LastIndex(level, p)
  {
    if level != [] {
      var k := |level| - 1;
      assert forall r :: r in level <==> r in level[..k] || r == level[k] by {
        assert level == level[..k] + [level[k]];
      }
      LevelNodes(s, level[..k], len, p);
      GrownNodes(InsertLevel(s, level[..k], len), level[k].base, len, p);
    }
  }

  lemma LastIndexNone(level: Level, p: Bits)
    requires |p| <= 32 && forall r :: r in level ==> !(p <= r.base)
    ensures LastIndex(level, p) == NH_INVALID
  {
  }

  /** Shape of the built trie: a node for every prefix of a route, and the root. */
  lemma {:induction false} BuiltNodes(t: Table, len: nat, p: Bits)
    requires |t| == 33 && len <= 33
    ensures p in BuiltShape(t, len) <==>
            p == [] || exists k, r :: 0 <= k < len && r in t[k] && |p| <= k && p <= r.base
  {
    if len > 0 {
      BuiltNodes(t, len - 1, p);
      BuiltNodes(t, len - 1, []);
      LevelNodes(BuiltShape(t, len - 1), t[len - 1], len - 1, p);
      assert p in BuiltShape(t, len) <==>
             p in BuiltShape(t, len - 1) || exists r :: r in t[len - 1] && |p| <= len - 1 && p <= r.base;
    }
  }

  /** Leaves of the built trie: the last route inserted with exactly that prefix. */
  lemma {:induction false} BuiltLeaves(t: Table, len: nat, p: Bits)
    requires |t| == 33 && len <= 33 && |p| <= 32
    ensures Leaf(BuiltShape(t, len), p) == if |p| < len then LastIndex(t[|p|], p) else NH_INVALID
  {
    if len > 0 {
      BuiltLeaves(t, len - 1, p);
      BuiltNodes(t, len - 1, []);
      LevelNodes(BuiltShape(t, len - 1), t[len - 1], len - 1, p);
      if |p| == len - 1 && forall r :: r in t[len - 1] ==> !(p <= r.base) {
        LastIndexNone(t[len - 1], p);
      }
    }
  }

  /** No node lies deeper than 32. */
  lemma BuiltDepth(t: Table)
    requires |t| == 33
    ensures forall p :: p in BuiltShape(t, 33) ==> |p| <= 32
  {
    forall p | p in BuiltShape(t, 33) ensures |p| <= 32 {
      BuiltNodes(t, 33, p);
    }
  }

  /** On every table the walk ends at the longest level whose last matching route has a valid index. */
  lemma {:induction false} WalkMeaning(t: Table, a: Word, d: nat) returns (k: nat)
    requires |t| == 33 && d <= 32 && [] in BuiltShape(t, 33)
    ensures var x := Walk(BuiltShape(t, 33), a, d);
            if x == NH_INVALID then forall j :: 0 <= j <= d ==> LastIndex(t[j], a[..j]) == NH_INVALID
            else k <= d && x == LastIndex(t[k], a[..k]) && forall j :: k < j <= d ==> LastIndex(t[j], a[..j]) == NH_INVALID
  {
    BuiltLeaves(t, 33, a[..d]);
    k := d;
    if Leaf(BuiltShape(t, 33), a[..d]) == NH_INVALID && d > 0 {
      k := WalkMeaning(t, a, d - 1);
    }
  }

  /** With valid indices the trie answers with the last route of the longest matching level, whatever
      the table; on well-formed tables with the longest match. */
  lemma TrieIsLongestMatch(t: Table, a: Word)
    requires CanonicalTable(t) && ValidIndices(t)
    ensures [] in BuiltShape(t, 33) && IsRead(t, a, Walk(BuiltShape(t, 33), a, 32))
    ensures WellFormed(t) ==> IsLookup(t, a, Walk(BuiltShape(t, 33), a, 32))
  {
    BuiltNodes(t, 33, []);
    WalkReads(t, a, 32);
    if WellFormed(t) {
      ReadIsLookup(t, a, Walk(BuiltShape(t, 33), a, 32));
    }
  }

  lemma {:induction false} WalkReads(t: Table, a: Word, d: nat)
    requires |t| == 33 && d <= 32 && ValidIndices(t) && [] in BuiltShape(t, 33)
    ensures Walk(BuiltShape(t, 33), a, d) == IndexIn(Read(t, a, d))
  {
    BuiltLeaves(t, 33, a[..d]);
    if d > 0 {
      WalkReads(t, a, d - 1);
    }
  }

  ghost predicate Matches(t: Table, a: Word, r: Route)
    requires CanonicalTable(t)
  {
    r.prefixLength <= 32 && r in t[r.prefixLength] && PrefixOf(r) <= a
  }

  /** In a well-formed table the walk ends with the longest match that has a valid index. */
  lemma WalkRoute(t: Table, a: Word) returns (r: Route)
    requires WellFormed(t) && [] in BuiltShape(t, 33)
    ensures var x := Walk(BuiltShape(t, 33), a, 32);
            if x == NH_INVALID then forall q :: Matches(t, a, q) ==> q.index == NH_INVALID
            else Matches(t, a, r) && r.index == x &&
                 forall q :: Matches(t, a, q) && r.prefixLength < q.prefixLength ==> q.index == NH_INVALID
  {
    var k := WalkMeaning(t, a, 32);
    forall q | Matches(t, a, q) ensures LastRoute(t[q.prefixLength], a[..q.prefixLength]) == Some(q) {
      OnlyMatch(t, a, q);
    }
    if Walk(BuiltShape(t, 33), a, 32) != NH_INVALID {
      r := LastRoute(t[k], a[..k]).value;
    } else {
      r := Route(ZERO, ZERO, 0, 0, NH_INVALID);
    }
  }

  lemma OnlyMatch(t: Table, a: Word, q: Route)
    requires WellFormed(t) && Matches(t, a, q)
    ensures LastRoute(t[q.prefixLength], a[..q.prefixLength]) == Some(q)
  {
    var k := q.prefixLength;
    MatchIsPrefix(q, k, a);
    var r := LastRoute(t[k], a[..k]).value;
    SameBase(r, q, k);
  }

  /** A visible route without a valid index lies under a route with one. */
  ghost predicate Hides(t: Table, k: nat, l: nat, r: Route, q: Route)
    requires CanonicalTable(t)
  {
    && k < l < 33 && r in t[l] && q in t[k] && r.index == NH_INVALID && q.index != NH_INVALID
    && Visible(RibOf(t), EntryOf(r)) && PrefixOf(q) <= PrefixOf(r)
  }

  ghost predicate InvalidIsClosed(t: Table)
    requires CanonicalTable(t)
  {
    forall k: nat, l: nat, r, q :: !Hides(t, k, l, r, q)
  }

  /** On every well-formed table, trie and scan agree on every address exactly when no visible
      route without a valid index lies under a route with one. */
  lemma AgreementExact(t: Table)
    requires WellFormed(t)
    ensures [] in BuiltShape(t, 33)
    ensures (forall a: Word :: IsLookup(t, a, Walk(BuiltShape(t, 33), a, 32))) <==> InvalidIsClosed(t)
  {
    BuiltNodes(t, 33, []);
    if InvalidIsClosed(t) {
      forall a: Word ensures IsLookup(t, a, Walk(BuiltShape(t, 33), a, 32)) {
        AgreesWhenClosed(t, a);
      }
    } else {
      var k: nat, l: nat, r, q :| Hides(t, k, l, r, q);
      var a := DisagreesBelow(t, k, l, r, q);
    }
  }

  lemma DisagreesBelow(t: Table, k: nat, l: nat, r: Route, q: Route) returns (a: Word)
    requires WellFormed(t) && [] in BuiltShape(t, 33) && Hides(t, k, l, r, q)
    ensures !IsLookup(t, a, Walk(BuiltShape(t, 33), a, 32))
  {
    a :| Best(RibOf(t), a, EntryOf(r));
    var b := BestRouteExists(t, a, EntryOf(r));
    SameBase(b, r, l);
    var w := WalkRoute(t, a);
    assert Matches(t, a, q);
  }

  lemma AgreesWhenClosed(t: Table, a: Word)
    requires WellFormed(t) && InvalidIsClosed(t) && [] in BuiltShape(t, 33)
    ensures IsLookup(t, a, Walk(BuiltShape(t, 33), a, 32))
  {
    var x := Walk(BuiltShape(t, 33), a, 32);
    var w := WalkRoute(t, a);
    forall q | BestRoute(t, a, q) ensures x == q.index {
      assert Matches(t, a, q);
      BestRouteIsBest(t, a, q);
      if x != NH_INVALID {
        assert PrefixOf(w) <= PrefixOf(q);
        assert !Hides(t, w.prefixLength, q.prefixLength, q, w);
        if w.prefixLength == q.prefixLength {
          SameBase(w, q, q.prefixLength);
        }
      }
    }
  }
}
