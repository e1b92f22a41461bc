/** Lookup in the path-compressed trie: down by single bits, then back up over the leaf pointers
    (src/pcTrie.cpp, `PCTrie::route`). */
module PCLookup {
  import opened Words
  import opened Routes
  import opened PCShape

  ghost predicate Match(r: Route, a: Word) {
    r.prefixLength <= 32 && PrefixOf(r) <= a
  }

  /** The first entry of a leaf that matches the address. */
  ghost predicate FirstMatch(entries: Level, a: Word, e: Route) {
    exists i :: 0 <= i < |entries| && entries[i] == e && Match(e, a) && forall j :: 0 <= j < i ==> !Match(entries[j], a)
  }

  ghost predicate NoneMatches(entries: Level, a: Word) {
    forall r :: r in entries ==> !Match(r, a)
  }

  /** `m` leaves the path of the address at a node above `c`. */
  ghost predicate Diverges(t: Trie, c: Bits, a: Word, m: Bits) {
    exists p :: p in t && p < c && p <= m && |p| < 32 && |p| < |m| && m[|p|] != a[|p|]
  }

  /** The descent has reached `c`: it followed the address at every split, and every leaf that
      is not below left the path at some node above. */
  ghost predicate Descent(t: Trie, c: Bits, a: Word) {
    && c in t && |c| <= 32
    && (forall q :: q in t && q < c ==> c[|q|] == a[|q|])
    && (forall m :: m in t && |m| == 32 ==> c <= m || Diverges(t, c, a, m))
  }

  lemma DescentStart(t: Trie, root: Link, a: Word)
    requires Structured(t, root) && root.To?
    ensures Descent(t, root.name, a)
  {
    assert CellOk(t, root.name);
  }

  lemma DescentLeaf(t: Trie, c: Bits, ch: Bits, a: Word, m: Bits)
    requires Descent(t, c, a) && |c| < |ch| <= 32 && ChildAt(t, c, a[|c|], ch)
    requires m in t && |m| == 32
    ensures ch <= m || Diverges(t, ch, a, m)
  {
  }

  lemma DescentAbove(t: Trie, c: Bits, ch: Bits, a: Word, q: Bits)
    requires Descent(t, c, a) && |c| < |ch| <= 32 && ChildAt(t, c, a[|c|], ch)
    requires q in t && q < ch
    ensures ch[|q|] == a[|q|]
  {
  }

  lemma DescentDown(t: Trie, root: Link, c: Bits, a: Word)
    requires Structured(t, root) && Descent(t, c, a) && t[c].SplitCell? && |c| < 32
    ensures var ch := SideOf(t[c], a[|c|]); Descent(t, ch, a) && c < ch
  {
    assert CellOk(t, c);
    var ch := SideOf(t[c], a[|c|]);
    assert ChildAt(t, c, a[|c|], ch) && CellOk(t, ch);
    forall q | q in t && q < ch ensures ch[|q|] == a[|q|] {
      DescentAbove(t, c, ch, a, q);
    }
    forall m | m in t && |m| == 32 ensures ch <= m || Diverges(t, ch, a, m) {
      DescentLeaf(t, c, ch, a, m);
    }
  }

  /** A matching route parts from the address only past its length, where it has zero bits. */
  lemma PartsAt(r: Route, a: Word, p: Bits)
    requires Match(r, a) && Canonical(r, r.prefixLength)
    requires p <= r.base && |p| < 32 && r.base[|p|] != a[|p|]
    ensures r.prefixLength <= |p| && r.base == Pad(p) && a[|p|]
  {
  }

  lemma PointerExists(t: Trie, root: Link, p: Bits, r: Route) returns (j: Bits)
    requires Structured(t, root) && Covering(t) && p in t && |p| < 32
    requires Holds(t, r) && r.base == Pad(p) && r.prefixLength <= |p|
    ensures j in t && j <= p && t[j].SplitCell? && t[j].leaf == To(r.base)
  {
    assert CellOk(t, p);
    var entries := t[Pad(p)].entries;
    var i :| 0 <= i < |entries| && entries[i] == r;
    assert entries[i].prefixLength <= |p|;
    assert Owed(t, p);
    j :| j in t && j <= p && t[j].SplitCell? && t[j].leaf == To(Pad(p));
  }

  /** A matching route stored elsewhere than the reached leaf: it parts from the path at a node
      `p` it covers entirely, and a node `j` at or above `p` points to its leaf. */
  lemma CoveredPoint(t: Trie, root: Link, x: Bits, a: Word, r: Route) returns (p: Bits, j: Bits)
    requires Structured(t, root) && Covering(t) && Descent(t, x, a) && |x| == 32
    requires Holds(t, r) && Match(r, a) && r.base != x
    ensures p in t && p < x && p <= r.base && |p| < 32 && r.prefixLength <= |p| && x[|p|]
    ensures j in t && j <= p && t[j].SplitCell? && t[j].leaf == To(r.base)
  {
    assert CellOk(t, r.base);
    assert Diverges(t, x, a, r.base);
    p :| p in t && p < x && p <= r.base && |p| < 32 && r.base[|p|] != a[|p|];
    PartsAt(r, a, p);
    j := PointerExists(t, root, p, r);
  }

  /** A matching entry whose base has a one bit at `i` is longer than `i`. */
  lemma LongerThan(e: Route, base: Bits, i: nat)
    requires e.base == base && Canonical(e, e.prefixLength) && i < 32 && base[i]
    ensures e.prefixLength > i
  {
  }

  lemma FirstIsLongest(base: Bits, entries: Level, a: Word, e: Route, r: Route)
    requires EntriesOk(base, entries) && FirstMatch(entries, a, e) && r in entries && Match(r, a)
    ensures e.prefixLength >= r.prefixLength
  {
  }

  /** A match in the reached leaf is a longest match. */
  lemma FoundInLeaf(t: Trie, root: Link, x: Bits, a: Word, e: Route, r: Route)
    requires Structured(t, root) && Covering(t) && Descent(t, x, a) && t[x].LeafCell?
    requires FirstMatch(t[x].entries, a, e) && Holds(t, r) && Match(r, a)
    ensures e.prefixLength >= r.prefixLength
  {
    assert CellOk(t, x);
    if r.base == x {
      FirstIsLongest(x, t[x].entries, a, e, r);
    } else {
      var p, j := CoveredPoint(t, root, x, a, r);
      LongerThan(e, x, |p|);
    }
  }

  /** The leaf a node points to, if any, has no match. */
  ghost predicate Fruitless(t: Trie, q: Bits, a: Word) {
    q in t && t[q].SplitCell? && t[q].leaf.To? ==>
      t[q].leaf.name in t && t[t[q].leaf.name].LeafCell? && NoneMatches(t[t[q].leaf.name].entries, a)
  }

  /** The way back up has reached `cur`: no pointer below it led to a match. */
  ghost predicate Climbed(t: Trie, x: Bits, a: Word, cur: Link) {
    && x in t && t[x].LeafCell? && NoneMatches(t[x].entries, a)
    && (cur.To? ==> cur.name in t && cur.name < x && t[cur.name].SplitCell?)
    && forall q {:trigger Fruitless(t, q, a)} :: q in t && q < x && (cur.To? ==> |cur.name| < |q|) ==> Fruitless(t, q, a)
  }

  lemma PointedIsLeaf(t: Trie, root: Link, k: Bits)
    requires Structured(t, root) && k in t && t[k].SplitCell? && t[k].leaf.To?
    ensures |k| < 32 && t[k].leaf.name == Pad(k) && Pad(k) in t && t[Pad(k)].LeafCell? && EntriesOk(Pad(k), t[Pad(k)].entries)
  {
    assert CellOk(t, k) && CellOk(t, Pad(k));
  }

  /** A match met on the way up is a longest match. */
  lemma FoundAbove(t: Trie, root: Link, x: Bits, a: Word, k: Bits, e: Route, r: Route)
    requires Structured(t, root) && Covering(t) && Descent(t, x, a) && |x| == 32
    requires Climbed(t, x, a, To(k)) && t[k].leaf.To? && |k| < 32 && Pad(k) in t && t[Pad(k)].LeafCell?
    requires EntriesOk(Pad(k), t[Pad(k)].entries) && t[k].leaf.name == Pad(k)
    requires FirstMatch(t[Pad(k)].entries, a, e) && Holds(t, r) && Match(r, a)
    ensures e.prefixLength >= r.prefixLength
  {
    assert r.base != x;
    var p, j := CoveredPoint(t, root, x, a, r);
    PointedIsLeaf(t, root, j);
    assert r in t[Pad(j)].entries;
    assert j < x && (|j| <= |k| || Fruitless(t, j, a));
    Comparable(j, k, x);
    if |k| <= |p| {
      Comparable(k, p, x);
      SamePad(j, k, r.base);
      FirstIsLongest(Pad(k), t[Pad(k)].entries, a, e, r);
    } else {
      Comparable(p, k, x);
      assert Pad(k)[|p|] == k[|p|] == x[|p|];
      LongerThan(e, Pad(k), |p|);
    }
  }

  lemma SamePad(j: Bits, k: Bits, base: Bits)
    requires j <= k <= base && |k| <= 32 && Pad(j) == base
    ensures Pad(k) == base
  {
  }

  /** As long as something matches, the way up does not end without a match. */
  lemma FoundSomewhere(t: Trie, root: Link, x: Bits, a: Word, r: Route)
    requires Structured(t, root) && Covering(t) && Descent(t, x, a) && |x| == 32
    requires Holds(t, r) && Match(r, a)
    ensures !Climbed(t, x, a, Nowhere)
  {
    if r.base != x {
      var p, j := CoveredPoint(t, root, x, a, r);
      assert !Fruitless(t, j, a);
    }
  }

  lemma ClimbStart(t: Trie, root: Link, x: Bits, a: Word)
    requires Structured(t, root) && x in t && t[x].LeafCell? && NoneMatches(t[x].entries, a)
    ensures Climbed(t, x, a, t[x].parent)
  {
    assert CellOk(t, x);
    forall q | q in t && q < x ensures t[x].parent.To? && |q| <= |t[x].parent.name| {
      assert root.name <= q;
      ParentLowest(t, root, x, q);
    }
  }

  lemma ClimbUp(t: Trie, root: Link, x: Bits, a: Word, k: Bits)
    requires Structured(t, root) && Climbed(t, x, a, To(k)) && Fruitless(t, k, a)
    ensures Climbed(t, x, a, t[k].parent)
    ensures t[k].parent.To? ==> |t[k].parent.name| < |k|
  {
    assert CellOk(t, k);
    forall q | q in t && q < x && (t[k].parent.To? ==> |t[k].parent.name| < |q|) ensures Fruitless(t, q, a) {
      if |q| < |k| {
        Comparable(q, k, x);
        assert root.name <= q;
        ParentLowest(t, root, k, q);
      } else if |q| == |k| {
        Comparable(q, k, x);
        assert q == k;
      }
    }
  }
}
