/** The path-compressed trie as linked nodes (src/pcTrie.cpp, code that is compiled out). */
module PCTries {
  import opened Words
  import opened Routes
  import opened PCShape
  import opened PCLookup
  import opened PCInsert
  import Numbering

  /** A leaf or an internal node; `isLeaf` is the node type tag. */
  class Node {
    const isLeaf: bool
    const base: Word
    const splitPos: nat
    var parent: Node?
    var left: Node?
    var right: Node?
    var leaf: Node?
    var entries: Level
    ghost const name: Bits

    constructor Leaf(parent: Node?, base: Word)
      ensures isLeaf && this.parent == parent && this.base == base && entries == [] && name == base
    {
      isLeaf, this.parent, this.base, splitPos, name := true, parent, base, 0, base;
      left, right, leaf, entries := null, null, null, [];
    }

    constructor Internal(parent: Node?, base: Word, splitPos: nat)
      requires splitPos <= 32
      ensures !isLeaf && this.parent == parent && this.base == base && this.splitPos == splitPos
      ensures left == null && right == null && leaf == null && name == base[..splitPos]
    {
      isLeaf, this.parent, this.base, this.splitPos, name := false, parent, base, splitPos, base[..splitPos];
      left, right, leaf, entries := null, null, null, [];
    }
  }

  type Nodes = map<Bits, Node>

  ghost predicate Points(nodes: Nodes, l: Link, n: Node?) {
    match l
    case Nowhere => n == null
    case To(k) => k in nodes && n == nodes[k]
  }

  /** The fields of a node. */
  datatype View = View(name: Bits, isLeaf: bool, base: Word, splitPos: nat, entries: Level,
                       parent: Node?, left: Node?, right: Node?, leaf: Node?)

  ghost function ViewOf(n: Node): View
    reads n
  {
    View(n.name, n.isLeaf, n.base, n.splitPos, n.entries, n.parent, n.left, n.right, n.leaf)
  }

  /** A node with these fields is laid out as the cell of `k` says. */
  ghost predicate Fits(nodes: Nodes, cell: Cell, k: Bits, v: View) {
    && v.name == k && Points(nodes, cell.parent, v.parent)
    && match cell
       case LeafCell(_, entries) => v.isLeaf && v.base == k && v.entries == entries
       case SplitCell(_, left, right, leaf) =>
         && !v.isLeaf && |k| <= 32 && v.splitPos == |k| && v.base == Pad(k)
         && Points(nodes, To(left), v.left) && Points(nodes, To(right), v.right) && Points(nodes, leaf, v.leaf)
  }

  ghost predicate Linked(nodes: Nodes, t: Trie, k: Bits)
    requires k in nodes
    reads nodes[k]
  {
    k in t && Fits(nodes, t[k], k, ViewOf(nodes[k]))
  }

  ghost predicate Named(nodes: Nodes) {
    forall x :: x in nodes ==> nodes[x].name == x
  }

  /** The masked comparison of the code is the prefix test on names. */
  lemma MaskedCompare(c: Bits, base: Word)
    requires |c| <= 32
    ensures Xor(Pad(c), And(base, PrefixMask(|c|))) == ZERO <==> c <= base
  {
    PrefixMaskCuts(base, |c|);
    XorZero(Pad(c), Pad(base[..|c|]));
    assert Pad(c)[..|c|] == c && Pad(base[..|c|])[..|c|] == base[..|c|];
  }

  lemma XorZero(a: Word, b: Word)
    ensures Xor(a, b) == ZERO <==> a == b
  {
    if Xor(a, b) == ZERO {
      forall i | 0 <= i < 32 ensures a[i] == b[i] {
        assert !Xor(a, b)[i];
      }
    }
  }

  /** The highest one bit of an exclusive-or is the first difference. */
  lemma FirstDifference(a: Word, b: Word, pos: nat)
    requires pos < 32 && Xor(a, b)[pos] && Xor(a, b)[..pos] == Zeros(pos)
    ensures a[..pos] == b[..pos] && a[pos] != b[pos]
  {
    forall i | 0 <= i < pos ensures a[i] == b[i] {
      assert Xor(a, b)[i] == Xor(a, b)[..pos][i];
    }
  }

  class PCTrie {
    var root: Node?
    ghost var nodes: Nodes
    ghost var repr: set<Node>
    ghost var trie: Trie
    ghost var top: Link
    ghost var len: nat

    /** The linked nodes are laid out as the value `trie` says. */
    ghost predicate Laid()
      reads this, repr
    {
      && nodes.Keys == trie.Keys && Points(nodes, top, root)
      && Inside(nodes, repr)
      && (forall k {:trigger Linked(nodes, trie, k)} :: k in nodes ==> Linked(nodes, trie, k))
    }

    ghost predicate Valid()
      reads this, repr
    {
      Laid() && PCValid(trie, top, len)
    }

    constructor ()
      ensures Valid() && fresh(repr) && trie == map[] && len == 0
    {
      root := null;
      nodes, repr, trie, top, len := map[], {}, map[], Nowhere, 0;
    }

    /** Go down to the first conflict with the base, or to a leaf. */
    method Search(base: Word) returns (cur: Node, ghost c: Bits)
      requires Valid() && root != null
      ensures c in nodes && nodes[c] == cur && OnPath(trie, c, base)
      ensures cur.isLeaf || !(c <= base)
    {
      cur, c := root, top.name;
      PathStart(trie, top, base);
      while !cur.isLeaf
        invariant c in nodes && nodes[c] == cur && OnPath(trie, c, base)
        decreases 32 - |c|
      {
        assert Linked(nodes, trie, c) && CellOk(trie, c);
        MaskedCompare(c, base);
        if Xor(cur.base, And(base, PrefixMask(cur.splitPos))) != ZERO {
          break;
        }
        ExtractBitReads(base, cur.splitPos);
        PathDown(trie, top, c, base);
        var next := if ExtractBit(base, cur.splitPos) then cur.right else cur.left;
        c := SideOf(trie[c], base[|c|]);
        assert CellOk(trie, c);
        cur := next;
      }
    }

    /** Insert one route; lengths come in increasing order. */
    method Insert(route: Route)
      requires Valid() && Canonical(route, route.prefixLength) && len <= route.prefixLength
      requires forall q :: Holds(trie, q) && q.base == route.base ==> q.prefixLength != route.prefixLength
      modifies this, repr
      ensures Valid() && fresh(repr - old(repr)) && len == route.prefixLength
      ensures HoldsAlso(old(trie), trie, route)
    {
      if root == null {
        InsertFirst(route);
        return;
      }
      var cur, c := Search(route.base);
      assert Linked(nodes, trie, c) && CellOk(trie, c);
      if cur.isLeaf && cur.base == route.base {
        Push(cur, route);
        return;
      }
      InsertBeside(cur, route, c);
    }

    method InsertBeside(cur: Node, route: Route, ghost c: Bits)
      requires Valid() && Canonical(route, route.prefixLength) && len <= route.prefixLength
      requires c in nodes && nodes[c] == cur && OnPath(trie, c, route.base) && !(c <= route.base)
      modifies this, repr
      ensures Valid() && fresh(repr - old(repr)) && len == route.prefixLength
      ensures HoldsAlso(old(trie), trie, route)
    {
      var pos, u, newTop := PlanSplit(cur, route, c);
      SplitNode(cur, route, pos, c, u, newTop);
    }

    /** Where to split, and the trie that results. */
    method PlanSplit(cur: Node, route: Route, ghost c: Bits) returns (pos: nat, ghost u: Trie, ghost newTop: Link)
      requires Valid() && Canonical(route, route.prefixLength) && len <= route.prefixLength
      requires c in nodes && nodes[c] == cur && OnPath(trie, c, route.base) && !(c <= route.base)
      ensures SplitNeeds(trie, c, route, pos) && SplitResult(trie, u, c, route, pos)
      ensures newTop == NewRoot(trie, top, c, route.base[..pos])
      ensures PCValid(u, newTop, route.prefixLength) && HoldsAlso(trie, u, route)
    {
      assert CellOk(trie, c);
      pos := ConflictAt(cur, route.base, c);
      u, newTop := SplitReady(trie, top, len, c, route, pos);
    }

    /** The first bit in which the node's shared prefix and the base differ. */
    method ConflictAt(cur: Node, base: Word, ghost c: Bits) returns (pos: nat)
      requires Laid() && c in nodes && nodes[c] == cur && CellOk(trie, c) && !(c <= base)
      ensures pos < |c| <= 32 && c[..pos] == base[..pos] && c[pos] != base[pos]
    {
      assert Linked(nodes, trie, c);
      var diff: Word;
      if !cur.isLeaf {
        MaskedCompare(c, base);
        PrefixMaskCuts(base, |c|);
        diff := Xor(cur.base, And(base, PrefixMask(cur.splitPos)));
      } else {
        XorZero(cur.base, base);
        diff := Xor(cur.base, base);
      }
      var first := MostSigOne(diff);
      DifferenceInName(c, base, cur.base, cur.isLeaf, first);
      pos := first;
    }

    method InsertFirst(route: Route)
      requires Valid() && root == null && Canonical(route, route.prefixLength)
      modifies this
      ensures Valid() && fresh(repr) && len == route.prefixLength
      ensures HoldsAlso(old(trie), trie, route)
    {
      assert top == Nowhere by {
        if top.To? {
          assert Points(nodes, top, root);
        }
      }
      assert trie == map[];
      var leaf := new Node.Leaf(null, route.base);
      leaf.entries := PushRoute(leaf.entries, route);
      root := leaf;
      nodes, repr, trie, top, len :=
        map[route.base := leaf], {leaf}, map[route.base := LeafCell(Nowhere, [route])], To(route.base), route.prefixLength;
      FirstKeeps(route);
      assert Linked(nodes, trie, route.base);
    }

    method Push(cur: Node, route: Route)
      requires Valid() && Canonical(route, route.prefixLength) && len <= route.prefixLength
      requires forall q :: Holds(trie, q) && q.base == route.base ==> q.prefixLength != route.prefixLength
      requires route.base in nodes && nodes[route.base] == cur && cur.isLeaf
      modifies this`trie, this`len, cur
      ensures Valid() && len == route.prefixLength
      ensures HoldsAlso(old(trie), trie, route)
    {
      var c := route.base;
      assert Linked(nodes, trie, c) && CellOk(trie, c);
      forall q | q in trie[c].entries ensures q.prefixLength != route.prefixLength {
        assert Holds(trie, q);
      }
      PushKeeps(trie, top, len, route);
      var entries := PushRoute(cur.entries, route);
      SetEntries(cur, entries, c);
      len := route.prefixLength;
    }

    method SetEntries(cur: Node, entries: Level, ghost c: Bits)
      requires Laid() && c in nodes && nodes[c] == cur && trie[c].LeafCell?
      modifies this`trie, cur
      ensures Laid() && trie == old(trie)[c := LeafCell(old(trie)[c].parent, entries)]
    {
      assert Linked(nodes, trie, c);
      cur.entries := entries;
      trie := trie[c := LeafCell(trie[c].parent, entries)];
      forall k | k in nodes ensures Linked(nodes, trie, k) {
        assert old(Linked(nodes, trie, k));
      }
    }

    /** Put a new internal node and a new leaf above `cur`. */
    method SplitNode(cur: Node, route: Route, pos: nat, ghost c: Bits, ghost u: Trie, ghost newTop: Link)
      requires Laid() && c in nodes && nodes[c] == cur && SplitNeeds(trie, c, route, pos)
      requires SplitResult(trie, u, c, route, pos) && newTop == NewRoot(trie, top, c, route.base[..pos])
      requires PCValid(u, newTop, route.prefixLength)
      modifies this, repr
      ensures Valid() && fresh(repr - old(repr)) && len == route.prefixLength && trie == u
    {
      Rewire(cur, route, pos, c, u, newTop);
      len := route.prefixLength;
    }

    /** The two new nodes, with the leaf pointer handed up from the left child. */
    method NewNodes(cur: Node, route: Route, pos: nat, ghost c: Bits) returns (newInt: Node, newLeaf: Node)
      requires c in nodes && nodes[c] == cur && SplitNeeds(trie, c, route, pos) && LinkedAround(nodes, trie, c)
      modifies cur`leaf
      ensures fresh(newInt) && fresh(newLeaf) && newInt != newLeaf
      ensures NewPair(nodes, trie, c, route, pos, old(ViewOf(cur)), newInt, newLeaf)
      ensures cur.leaf == if !cur.isLeaf && route.base[pos] && Handed(trie, c, route, pos).To? then null else old(cur.leaf)
    {
      assert Linked(nodes, trie, c);
      PrefixMaskCuts(route.base, pos);
      var newBase := And(route.base, PrefixMask(pos));
      newInt := new Node.Internal(cur.parent, newBase, pos);
      newLeaf := new Node.Leaf(newInt, route.base);
      newLeaf.entries := PushRoute(newLeaf.entries, route);
      ExtractBitReads(route.base, pos);
      if ExtractBit(route.base, pos) {
        newInt.right := newLeaf;
        newInt.left := cur;
      } else {
        newInt.left := newLeaf;
        newInt.right := cur;
      }
      var left := newInt.left;
      PrefixMaskCuts(left.base, pos);
      if left.isLeaf {
        var general := HasMoreGeneralRoute(left, pos);
        if newBase == And(left.base, PrefixMask(pos)) && general {
          newInt.leaf := left;
        }
      }
      if !left.isLeaf && left.leaf != null {
        var general := HasMoreGeneralRoute(left.leaf, pos);
        if general {
          newInt.leaf := left.leaf;
          left.leaf := null;
        }
      }
    }

    method HasMoreGeneralRoute(n: Node, len: nat) returns (found: bool)
      ensures found == HasMoreGeneral(n.entries, len)
    {
      for i := 0 to |n.entries|
        invariant forall j :: 0 <= j < i ==> n.entries[j].prefixLength > len
      {
        if n.entries[i].prefixLength <= len {
          return true;
        }
      }
      return false;
    }

    lemma NodesNamed()
      requires Laid()
      ensures Named(nodes)
    {
      forall x | x in nodes ensures nodes[x].name == x {
        assert Linked(nodes, trie, x);
      }
    }

    /** Hang the new internal node where `cur` was. */
    method Attach(cur: Node, newInt: Node)
      requires newInt != cur && newInt.parent != newInt && newInt.parent != cur
      modifies this`root, cur`parent, newInt.parent
      ensures ViewOf(cur) == old(ViewOf(cur)).(parent := newInt)
      ensures newInt.parent == old(newInt.parent)
      ensures root == if newInt.parent == null then newInt else old(root)
      ensures newInt.parent != null && old(newInt.parent.left) == cur ==>
                ViewOf(newInt.parent) == old(ViewOf(newInt.parent)).(left := newInt)
      ensures newInt.parent != null && old(newInt.parent.left) != cur ==>
                ViewOf(newInt.parent) == old(ViewOf(newInt.parent)).(right := newInt)
    {
      cur.parent := newInt;
      if newInt.parent != null {
        var parent := newInt.parent;
        if parent.left == cur {
          parent.left := newInt;
        } else {
          parent.right := newInt;
        }
      } else {
        root := newInt;
      }
    }

    /** Create the new nodes and link them in between `cur` and its parent. */
    method LinkIn(cur: Node, route: Route, pos: nat, ghost c: Bits, ghost before: Views)
      returns (newInt: Node, newLeaf: Node)
      requires Inside(nodes, repr) && Named(nodes) && IsSnapshot(nodes, repr, before)
      requires c in nodes && nodes[c] == cur && SplitNeeds(trie, c, route, pos) && LinkedAround(nodes, trie, c)
      modifies this`root, repr
      ensures NewPair(nodes, trie, c, route, pos, before[c], newInt, newLeaf)
      ensures fresh(newInt) && fresh(newLeaf) && newInt != newLeaf
      ensures AllMoved(nodes, repr, before, newInt, trie, c, route, pos)
      ensures root == if trie[c].parent.To? then old(root) else newInt
    {
      newInt, newLeaf := NewNodes(cur, route, pos, c);
      assert trie[c].parent.To? ==> nodes[trie[c].parent.name] == newInt.parent && newInt.parent.name != c;
      assert newInt.parent != newInt && newInt.parent != newLeaf;
      Attach(cur, newInt);
      assert NewPair(nodes, trie, c, route, pos, before[c], newInt, newLeaf);
      forall k | k in nodes ensures Moved(cur, newInt, trie, c, route, pos, k, before[k], ViewOf(nodes[k])) {
        assert nodes[k].name == k && before[k] == old(ViewOf(nodes[k]));
      }
    }

    /** Link the new nodes in: the enlarged node map is laid out as the split trie. */
    method LinkSplit(cur: Node, route: Route, pos: nat, ghost c: Bits, ghost u: Trie)
      returns (newInt: Node, newLeaf: Node, ghost now: Nodes)
      requires Laid() && c in nodes && nodes[c] == cur && SplitNeeds(trie, c, route, pos)
      requires SplitResult(trie, u, c, route, pos)
      modifies this`root, repr
      ensures fresh(newInt) && fresh(newLeaf)
      ensures now == nodes[route.base[..pos] := newInt][route.base := newLeaf]
      ensures forall k {:trigger Linked(now, u, k)} :: k in now ==> Linked(now, u, k)
      ensures root == if trie[c].parent.To? then old(root) else newInt
    {
      ghost var before := TakeViews(nodes, repr);
      NodesNamed();
      AllFitNow(nodes, repr, trie, before);
      assert Linked(nodes, trie, c) && (trie[c].SplitCell? && trie[c].leaf.To? ==> Linked(nodes, trie, trie[c].leaf.name));
      newInt, newLeaf := LinkIn(cur, route, pos, c, before);
      now := nodes[route.base[..pos] := newInt][route.base := newLeaf];
      SplitLinked(nodes, repr, now, before, trie, u, c, route, pos);
    }

    /** Link the new nodes in between `cur` and its parent. */
    method Rewire(cur: Node, route: Route, pos: nat, ghost c: Bits, ghost u: Trie, ghost newTop: Link)
      requires Laid() && c in nodes && nodes[c] == cur && SplitNeeds(trie, c, route, pos)
      requires SplitResult(trie, u, c, route, pos) && newTop == NewRoot(trie, top, c, route.base[..pos])
      modifies this`root, this`nodes, this`repr, this`trie, this`top, repr
      ensures Laid() && fresh(repr - old(repr))
      ensures trie == u && top == newTop
    {
      var newInt, newLeaf, now := LinkSplit(cur, route, pos, c, u);
      assert u.Keys == now.Keys;
      assert Points(now, newTop, root);
      Publish(u, newTop, now, repr + {newInt, newLeaf});
      assert repr - old(repr) <= {newInt, newLeaf};
    }

    /** Follow the address down to a leaf, looking only at the split bits. */
    method Descend(addr: Word) returns (cur: Node, ghost x: Bits)
      requires Valid() && root != null
      ensures x in nodes && nodes[x] == cur && trie[x].LeafCell? && Descent(trie, x, addr) && |x| == 32
    {
      cur, x := root, top.name;
      DescentStart(trie, top, addr);
      while !cur.isLeaf
        invariant x in nodes && nodes[x] == cur && Descent(trie, x, addr)
        decreases 32 - |x|
      {
        assert Linked(nodes, trie, x) && CellOk(trie, x);
        ExtractBitReads(addr, cur.splitPos);
        DescentDown(trie, top, x, addr);
        var next := if ExtractBit(addr, cur.splitPos) then cur.right else cur.left;
        x := SideOf(trie[x], addr[|x|]);
        assert CellOk(trie, x);
        cur := next;
      }
      assert Linked(nodes, trie, x) && CellOk(trie, x);
    }

    /** The first entry of a leaf that matches. */
    method MatchEntries(n: Node, addr: Word) returns (found: bool, e: Route)
      requires n.isLeaf && EntriesOk(n.base, n.entries)
      ensures found ==> FirstMatch(n.entries, addr, e)
      ensures !found ==> NoneMatches(n.entries, addr)
    {
      e := n.entries[0];
      for i := 0 to |n.entries|
        invariant forall j :: 0 <= j < i ==> !Match(n.entries[j], addr)
      {
        e := n.entries[i];
        assert e in n.entries;
        PrefixMaskCuts(addr, e.prefixLength);
        CanonicalMatch(e, e.prefixLength, addr);
        if And(addr, PrefixMask(e.prefixLength)) == n.base {
          return true, e;
        }
      }
      return false, e;
    }

    /** Longest match: the reached leaf first, then the leaves pointed to on the way up. */
    method Route(addr: Word) returns (found: bool, r: Route)
      requires Valid()
      ensures found ==> Longest(trie, addr, r)
      ensures !found ==> forall q :: Holds(trie, q) ==> !Match(q, addr)
    {
      if root == null {
        return false, InvalidRoute();
      }
      var leaf, x := Descend(addr);
      assert Linked(nodes, trie, x) && CellOk(trie, x);
      found, r := MatchEntries(leaf, addr);
      if found {
        LongestInLeaf(trie, top, x, addr, r);
        return;
      }
      found, r := Climb(leaf, addr, x);
    }

    method Climb(leaf: Node, addr: Word, ghost x: Bits) returns (found: bool, r: Route)
      requires Valid() && x in nodes && nodes[x] == leaf && trie[x].LeafCell? && Descent(trie, x, addr) && |x| == 32
      requires NoneMatches(trie[x].entries, addr)
      ensures found ==> Longest(trie, addr, r)
      ensures !found ==> forall q :: Holds(trie, q) ==> !Match(q, addr)
    {
      assert Linked(nodes, trie, x);
      var cur := leaf.parent;
      ghost var link := trie[x].parent;
      ClimbStart(trie, top, x, addr);
      while cur != null
        invariant Points(nodes, link, cur) && Climbed(trie, x, addr, link)
        decreases if link.To? then |link.name| + 1 else 0
      {
        ghost var k := link.name;
        assert Linked(nodes, trie, k);
        if cur.leaf != null {
          PointedIsLeaf(trie, top, k);
          assert Linked(nodes, trie, Pad(k));
          found, r := MatchEntries(cur.leaf, addr);
          if found {
            LongestAbove(trie, top, x, addr, k, r);
            return;
          }
        }
        ClimbUp(trie, top, x, addr, k);
        link := trie[k].parent;
        cur := cur.parent;
      }
      forall q | Holds(trie, q) ensures !Match(q, addr) {
        if Match(q, addr) {
          FoundSomewhere(trie, top, x, addr, q);
        }
      }
      return false, InvalidRoute();
    }

    /** Give the linked nodes their new abstract value. */
    ghost method Publish(u: Trie, newTop: Link, now: Nodes, newRepr: set<Node>)
      requires u.Keys == now.Keys && Points(now, newTop, root) && Inside(now, newRepr)
      requires forall k {:trigger Linked(now, u, k)} :: k in now ==> Linked(now, u, k)
      modifies this`trie, this`top, this`nodes, this`repr
      ensures Laid() && trie == u && top == newTop && nodes == now && repr == newRepr
    {
      trie, top, nodes, repr := u, newTop, now, newRepr;
    }
  }

  type Views = map<Bits, View>

  ghost predicate Inside(nodes: Nodes, repr: set<Node>) {
    forall k :: k in nodes ==> nodes[k] in repr
  }

  ghost function TakeViews(nodes: Nodes, repr: set<Node>): (v: Views)
    requires Inside(nodes, repr)
    reads repr
    ensures IsSnapshot(nodes, repr, v)
  {
    map k | k in nodes :: ViewOf(nodes[k])
  }

  ghost predicate IsSnapshot(nodes: Nodes, repr: set<Node>, v: Views)
    requires Inside(nodes, repr)
    reads repr
  {
    v.Keys == nodes.Keys && forall k {:trigger v[k]} :: k in nodes ==> v[k] == ViewOf(nodes[k])
  }

  ghost predicate AllFit(nodes: Nodes, t: Trie, v: Views) {
    && v.Keys == nodes.Keys == t.Keys
    && forall k {:trigger Fits(nodes, t[k], k, v[k])} :: k in nodes ==> Fits(nodes, t[k], k, v[k])
  }

  ghost predicate AllMoved(nodes: Nodes, repr: set<Node>, before: Views, newInt: Node, t: Trie, c: Bits, r: Route, pos: nat)
    requires Inside(nodes, repr)
    reads repr
  {
    && pos < 32 && c in t && c in nodes && before.Keys == nodes.Keys
    && forall k {:trigger Moved(nodes[c], newInt, t, c, r, pos, k, before[k], ViewOf(nodes[k]))} :: k in nodes ==>
         Moved(nodes[c], newInt, t, c, r, pos, k, before[k], ViewOf(nodes[k]))
  }

  lemma AllFitNow(nodes: Nodes, repr: set<Node>, t: Trie, v: Views)
    requires nodes.Keys == t.Keys && Inside(nodes, repr) && IsSnapshot(nodes, repr, v)
    requires forall k {:trigger Linked(nodes, t, k)} :: k in nodes ==> Linked(nodes, t, k)
    ensures AllFit(nodes, t, v)
  {
    forall k | k in nodes ensures Fits(nodes, t[k], k, v[k]) {
      assert Linked(nodes, t, k);
    }
  }

  lemma SplitLinked(was: Nodes, repr: set<Node>, now: Nodes, before: Views, t: Trie, u: Trie, c: Bits, r: Route, pos: nat)
    requires c in t && pos < 32 && SplitResult(t, u, c, r, pos) && AllFit(was, t, before)
    requires Added(was, now, r.base[..pos], r.base) && Named(was)
    requires NewPair(was, t, c, r, pos, before[c], now[r.base[..pos]], now[r.base])
    requires Inside(was, repr) && AllMoved(was, repr, before, now[r.base[..pos]], t, c, r, pos)
    ensures forall k {:trigger Linked(now, u, k)} :: k in now ==> Linked(now, u, k)
  {
    assert Fits(was, t[c], c, before[c]);
    FitsNew(was, now, t, u, c, r, pos, before[c], now[r.base[..pos]], now[r.base]);
    forall k | k in was ensures Linked(now, u, k) {
      assert Fits(was, t[k], k, before[k]);
      assert Moved(was[c], now[r.base[..pos]], t, c, r, pos, k, before[k], ViewOf(was[k]));
      FitsOld(was, now, t, u, c, r, pos, k, before[k], ViewOf(was[k]));
    }
  }

  function InvalidRoute(): Routes.Route {
    Routes.Route(Ones(32), Ones(32), 0xffffffff, 0, NH_INVALID)
  }

  /** The route is stored, matches, and no stored match is longer. */
  ghost predicate Longest(t: Trie, a: Word, r: Route) {
    Holds(t, r) && Match(r, a) && forall q :: Holds(t, q) && Match(q, a) ==> q.prefixLength <= r.prefixLength
  }

  lemma LongestInLeaf(t: Trie, top: Link, x: Bits, a: Word, e: Route)
    requires Structured(t, top) && Covering(t) && Descent(t, x, a) && t[x].LeafCell? && FirstMatch(t[x].entries, a, e)
    ensures Longest(t, a, e)
  {
    assert CellOk(t, x);
    assert e in t[x].entries && e.base == x;
    forall q | Holds(t, q) && Match(q, a) ensures q.prefixLength <= e.prefixLength {
      FoundInLeaf(t, top, x, a, e, q);
    }
  }

  lemma LongestAbove(t: Trie, top: Link, x: Bits, a: Word, k: Bits, e: Route)
    requires Structured(t, top) && Covering(t) && Descent(t, x, a) && |x| == 32
    requires Climbed(t, x, a, To(k)) && t[k].leaf.To? && |k| < 32 && Pad(k) in t && t[Pad(k)].LeafCell?
    requires EntriesOk(Pad(k), t[Pad(k)].entries) && t[k].leaf.name == Pad(k) && FirstMatch(t[Pad(k)].entries, a, e)
    ensures Longest(t, a, e)
  {
    assert e in t[Pad(k)].entries && e.base == Pad(k);
    forall q | Holds(t, q) && Match(q, a) ensures q.prefixLength <= e.prefixLength {
      FoundAbove(t, top, x, a, k, e, q);
    }
  }

  /** Build the trie from a table, shortest prefixes first. */
  method BuildTrie(table: Table) returns (p: PCTrie)
    requires WellFormed(table)
    ensures p.Valid() && fresh(p) && fresh(p.repr)
    ensures HoldsExactly(p.trie, Numbering.AllRoutes(table))
  {
    p := new PCTrie();
    Numbering.VisitedNone(table);
    for len := 0 to 33
      invariant p.Valid() && fresh(p) && fresh(p.repr) && p.len <= len
      invariant HoldsExactly(p.trie, Numbering.Visited(table, len, 0))
    {
      InsertLevel(p, table, len);
    }
  }

  method InsertLevel(p: PCTrie, table: Table, len: nat)
    requires WellFormed(table) && len < 33 && p.Valid() && p.len <= len
    requires HoldsExactly(p.trie, Numbering.Visited(table, len, 0))
    modifies p, p.repr
    ensures p.Valid() && fresh(p.repr - old(p.repr)) && p.len <= len
    ensures HoldsExactly(p.trie, Numbering.Visited(table, len + 1, 0))
  {
    for i := 0 to |table[len]|
      invariant p.Valid() && fresh(p.repr - old(p.repr)) && p.len <= len
      invariant HoldsExactly(p.trie, Numbering.Visited(table, len, i))
    {
      NotYetInserted(table, len, i);
      VisitedStep(table, len, i);
      p.Insert(table[len][i]);
    }
    Numbering.VisitedLevel(table, len);
  }

  /** The second trie holds the routes of the first and one more. */
  ghost predicate HoldsAlso(t: Trie, u: Trie, r: Route) {
    forall q :: Holds(u, q) <==> Holds(t, q) || q == r
  }

  ghost predicate HoldsExactly(t: Trie, routes: set<Route>) {
    forall q :: Holds(t, q) <==> q in routes
  }

  lemma VisitedStep(table: Table, len: nat, i: nat)
    requires len < |table| && i < |table[len]|
    ensures Numbering.Visited(table, len, i + 1) == Numbering.Visited(table, len, i) + {table[len][i]}
  {
  }

  /** In a well-formed table no earlier route has the same base and length. */
  lemma NotYetInserted(table: Table, len: nat, i: nat)
    requires WellFormed(table) && len < 33 && i < |table[len]|
    ensures table[len][i].prefixLength == len && Canonical(table[len][i], len)
    ensures forall q :: q in Numbering.Visited(table, len, i) && q.base == table[len][i].base ==> q.prefixLength != len
  {
    var r := table[len][i];
    assert r in table[len];
    forall q | q in Numbering.Visited(table, len, i) && q.base == r.base ensures q.prefixLength != len {
      if q in table[len][..i] {
        var j :| 0 <= j < i && table[len][..i][j] == q;
        CountTwo(table[len], j, i);
      } else {
        var k :| 0 <= k < len && q in table[k];
        assert Canonical(q, k);
      }
    }
  }

  /** Lookup in a trie built from a table is longest match in that table. */
  method RouteInTable(table: Table, addr: Word) returns (found: bool, r: Route)
    requires WellFormed(table)
    ensures found ==> BestRoute(table, addr, r)
    ensures !found ==> NoMatch(table, addr)
  {
    var p := BuildTrie(table);
    found, r := p.Route(addr);
    forall len, q | 0 <= len < 33 && q in table[len] ensures Holds(p.trie, q) && q.prefixLength == len {
      assert q in Numbering.AllRoutes(table);
    }
    if found {
      assert r in Numbering.AllRoutes(table);
    }
  }

  /** The two new nodes of a split, before the node map knows them. */
  ghost predicate NewPair(nodes: Nodes, t: Trie, c: Bits, r: Route, pos: nat, cur: View, newInt: Node, newLeaf: Node)
    requires pos < 32 && c in t && c in nodes
    reads newInt, newLeaf
  {
    && !newInt.isLeaf && newInt.name == r.base[..pos] && newInt.base == Pad(r.base[..pos])
    && newInt.splitPos == pos && newInt.parent == cur.parent
    && newInt.left == (if r.base[pos] then nodes[c] else newLeaf)
    && newInt.right == (if r.base[pos] then newLeaf else nodes[c])
    && Points(nodes, Handed(t, c, r, pos), newInt.leaf)
    && newLeaf.isLeaf && newLeaf.name == r.base == newLeaf.base && newLeaf.entries == [r] && newLeaf.parent == newInt
  }

  /** The node, and the leaf it points to, are laid out. */
  ghost predicate LinkedAround(nodes: Nodes, t: Trie, c: Bits)
    requires c in nodes && c in t
    reads nodes[c], if t[c].SplitCell? && t[c].leaf.To? && t[c].leaf.name in nodes then {nodes[t[c].leaf.name]} else {}
  {
    && Linked(nodes, t, c)
    && (t[c].SplitCell? && t[c].leaf.To? ==> t[c].leaf.name in nodes && Linked(nodes, t, t[c].leaf.name))
  }

  /** What the pointer operations of a split rely on. */
  ghost predicate SplitNeeds(t: Trie, c: Bits, r: Route, pos: nat) {
    && c in t && pos < |c| <= 32 && c[..pos] == r.base[..pos] && pos < r.prefixLength
    && r.base[..pos] !in t && r.base !in t
    && (t[c].parent.To? ==> t[c].parent.name != c && t[c].parent.name in t && t[t[c].parent.name].SplitCell?)
    && (t[c].SplitCell? && t[c].leaf.To? ==> t[c].leaf.name in t && t[t[c].leaf.name].LeafCell?)
    && (t[c].LeafCell? ==> |c| == 32)
    && (Handed(t, c, r, pos).To? ==> r.base[pos])
  }

  /** Everything the split method needs, in one place. */
  lemma SplitReady(t: Trie, top: Link, len: nat, c: Bits, r: Route, pos: nat) returns (u: Trie, newTop: Link)
    requires SplitsAt(t, top, len, c, r, pos) && pos < 32
    ensures SplitNeeds(t, c, r, pos)
    ensures SplitResult(t, u, c, r, pos) && newTop == NewRoot(t, top, c, r.base[..pos])
    ensures PCValid(u, newTop, r.prefixLength)
    ensures HoldsAlso(t, u, r)
  {
    SplitKeeps(t, top, len, c, r, pos);
    SplitIsFresh(t, top, len, c, r, pos);
    SplitBelowLength(t, top, len, c, r, pos);
    assert CellOk(t, c) && (Pad(c) in t ==> CellOk(t, Pad(c)));
    SplitGives(t, c, r, pos);
    HandedIsPad(t, c, r, pos);
    u, newTop := Split(t, c, r, pos), NewRoot(t, top, c, r.base[..pos]);
  }

  /** The node map after a split. */
  ghost predicate Added(was: Nodes, now: Nodes, n: Bits, base: Bits) {
    n in now && base in now && n !in was && base !in was && n != base && now == was[n := now[n]][base := now[base]]
  }

  lemma FitsNew(was: Nodes, now: Nodes, t: Trie, u: Trie, c: Bits, r: Route, pos: nat, cur: View, newInt: Node, newLeaf: Node)
    requires c in t && was.Keys == t.Keys && pos < 32 && SplitResult(t, u, c, r, pos)
    requires Added(was, now, r.base[..pos], r.base) && now[r.base[..pos]] == newInt && now[r.base] == newLeaf
    requires Fits(was, t[c], c, cur) && NewPair(was, t, c, r, pos, cur, newInt, newLeaf)
    ensures Linked(now, u, r.base[..pos]) && Linked(now, u, r.base)
  {
  }

  /** The fields of an old node change only as the split says. */
  ghost predicate Moved(cur: Node, newInt: Node, t: Trie, c: Bits, r: Route, pos: nat, k: Bits, f: View, g: View)
    requires pos < 32 && c in t
  {
    if k == c then
      g == f.(parent := newInt, leaf := if !f.isLeaf && r.base[pos] && Handed(t, c, r, pos).To? then null else f.leaf)
    else if t[c].parent == To(k) then
      if f.left == cur then g == f.(left := newInt) else g == f.(right := newInt)
    else g == f
  }

  lemma FitsOld(was: Nodes, now: Nodes, t: Trie, u: Trie, c: Bits, r: Route, pos: nat, k: Bits, f: View, g: View)
    requires c in t && was.Keys == t.Keys && pos < 32 && SplitResult(t, u, c, r, pos)
    requires Added(was, now, r.base[..pos], r.base) && k in t && Fits(was, t[k], k, f)
    requires Named(was)
    requires Moved(was[c], now[r.base[..pos]], t, c, r, pos, k, f, g)
    ensures Fits(now, u[k], k, g)
  {
  }

  lemma DifferenceInName(c: Bits, base: Word, curBase: Word, isLeaf: bool, pos: nat)
    requires |c| <= 32 && pos < 32 && curBase == Pad(c) && (isLeaf ==> |c| == 32)
    requires var other := if isLeaf then base else Pad(base[..|c|]);
             Xor(curBase, other)[pos] && Xor(curBase, other)[..pos] == Zeros(pos)
    ensures pos < |c| && c[..pos] == base[..pos] && c[pos] != base[pos]
  {
    var other: Word := if isLeaf then base else Pad(base[..|c|]);
    FirstDifference(curBase, other, pos);
    assert forall i :: |c| <= i < 32 ==> !curBase[i] && (isLeaf || !other[i]);
    assert forall i :: 0 <= i < |c| ==> curBase[i] == c[i] && other[i] == base[i];
    assert forall i :: 0 <= i < pos ==> curBase[i] == curBase[..pos][i] && other[i] == other[..pos][i];
  }
}
