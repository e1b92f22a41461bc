/** The pointer trie used for forwarding (src/basicTrie.cpp). */
module BasicTries {
  import opened Words
  import opened Routes
  import opened TrieShape

  class Internal {
    var left: Internal?
    var right: Internal?
    var parent: Internal?
    var leaf: nat
    ghost const path: Bits  // the bits that lead from the root to this node

    constructor (left: Internal?, right: Internal?, parent: Internal?, ghost path: Bits)
      ensures this.left == left && this.right == right && this.parent == parent
      ensures leaf == NH_INVALID && this.path == path
    {
      this.left, this.right, this.parent, this.path := left, right, parent, path;
      leaf := NH_INVALID;
    }
  }

  /** Hang a new node below another. */
  method Hang(cur: Internal, bit: bool, ghost path: Bits) returns (next: Internal)
    modifies cur`left, cur`right
    ensures fresh(next) && next.left == null && next.right == null && next.parent == cur
    ensures next.leaf == NH_INVALID && next.path == path
    ensures cur.left == (if bit then old(cur.left) else next) && cur.right == (if bit then next else old(cur.right))
  {
    next := new Internal(null, null, cur, path);
    if bit {
      cur.right := next;
    } else {
      cur.left := next;
    }
  }

  /** Every node, keyed by its path. */
  type Nodes = map<Bits, Internal>

  ghost function Child(nodes: Nodes, p: Bits, bit: bool): Internal? {
    if p + [bit] in nodes then nodes[p + [bit]] else null
  }

  /** The node at a path is linked to its children and its parent, and holds its leaf. */
  ghost predicate Linked(nodes: Nodes, shape: Shape, p: Bits)
    requires p in nodes
    reads nodes[p]
  {
    var n := nodes[p];
    && n.path == p
    && n.left == Child(nodes, p, false) && n.right == Child(nodes, p, true)
    && HasParent(nodes.Keys, p)
    && (p == [] ==> n.parent == null)
    && (p != [] ==> n.parent == nodes[p[..|p| - 1]])
    && p in shape && shape[p] == n.leaf
  }

  class BasicTrie {
    var root: Internal
    ghost var nodes: Nodes
    ghost var repr: set<Internal>
    ghost var shape: Shape

    ghost predicate Valid()
      reads this, repr
    {
      && [] in nodes && nodes[[]] == root && shape.Keys == nodes.Keys
      && (forall p :: p in nodes ==> nodes[p] in repr)
      && forall p {:trigger Linked(nodes, shape, p)} :: p in nodes ==> Linked(nodes, shape, p)
    }

    lemma ShapeClosed()
      requires Valid()
      ensures PrefixClosed(shape.Keys)
    {
      forall p | p in shape.Keys ensures HasParent(shape.Keys, p) {
        assert Linked(nodes, shape, p);
      }
    }

    constructor (table: Table)
      requires |table| == 33
      ensures Valid() && fresh(repr)
      ensures shape == BuiltShape(table, 33)
    {
      root := new Internal(null, null, null, []);
      new;
      nodes, repr, shape := map[[] := root], {root}, EmptyShape();
      assert Linked(nodes, shape, []);
      BuildTrie(table);
    }

    method BuildTrie(table: Table)
      requires |table| == 33 && Valid() && shape == EmptyShape()
      modifies this`nodes, this`repr, this`shape, repr
      ensures Valid() && fresh(repr - old(repr)) && shape == BuiltShape(table, 33)
    {
      for len := 0 to 33
        invariant Valid() && fresh(repr - old(repr)) && shape == BuiltShape(table, len)
      {
        InsertRoutes(table[len], len);
      }
    }

    method InsertRoutes(level: Level, len: nat)
      requires Valid() && len <= 32
      modifies this`nodes, this`repr, this`shape, repr
      ensures Valid() && fresh(repr - old(repr)) && shape == InsertLevel(old(shape), level, len)
    {
      for i := 0 to |level|
        invariant Valid() && fresh(repr - old(repr)) && shape == InsertLevel(old(shape), level[..i], len)
      {
        assert level[..i + 1][..i] == level[..i];
        Insert(level[i].base, len, level[i].index);
      }
      assert level[..|level|] == level;
    }

    /** Walk down the prefix, creating missing nodes, and set the leaf at its end. */
    method Insert(base: Word, len: nat, index: nat)
      requires Valid() && len <= 32
      modifies this`nodes, this`repr, this`shape, repr
      ensures Valid() && fresh(repr - old(repr))
      ensures shape == InsertShape(old(shape), base, len, index)
    {
      var cur := root;
      for level := 0 to len
        invariant Valid() && fresh(repr - old(repr))
        invariant base[..level] in nodes && nodes[base[..level]] == cur
        invariant shape == Grown(old(shape), base, level)
      {
        ghost var p := base[..level];
        ExtractBitReads(base, level);
        var bit := ExtractBit(base, level);
        assert base[..level + 1] == p + [bit];
        assert Linked(nodes, shape, p);
        var next := if bit then cur.right else cur.left;
        if next == null {
          next := Grow(cur, bit, p);
        }
        cur := next;
      }
      SetLeaf(cur, index, base[..len]);
    }

    method SetLeaf(cur: Internal, index: nat, ghost p: Bits)
      requires Valid() && p in nodes && nodes[p] == cur
      modifies this`shape, cur`leaf
      ensures Valid() && shape == old(shape)[p := index]
    {
      cur.leaf := index;
      shape := shape[p := index];
      forall q | q in nodes ensures Linked(nodes, shape, q) {
        assert old(Linked(nodes, shape, q));
        assert q != p ==> nodes[q] != cur by { assert old(Linked(nodes, shape, p)); }
      }
    }

    /** Create the missing child of a node. */
    method Grow(cur: Internal, bit: bool, ghost p: Bits) returns (next: Internal)
      requires Valid() && p in nodes && nodes[p] == cur && p + [bit] !in nodes
      modifies this`nodes, this`repr, this`shape, cur
      ensures Valid() && fresh(next)
      ensures nodes == old(nodes)[p + [bit] := next] && repr == old(repr) + {next}
      ensures shape == old(shape)[p + [bit] := NH_INVALID]
    {
      ShapeClosed();
      assert Linked(nodes, shape, p);
      next := Hang(cur, bit, p + [bit]);
      nodes, repr, shape := nodes[p + [bit] := next], repr + {next}, shape[p + [bit] := NH_INVALID];
      forall q | q in nodes ensures Linked(nodes, shape, q) {
        LinkedAfterGrow(old(nodes), nodes, p, bit, q);
        if q != p + [bit] {
          assert old(Linked(nodes, shape, q));
        }
      }
    }

    /** Lookup. Reading a bit past the word yields an arbitrary value; it does not matter
        because no node lies deeper than 32. */
    method Route(addr: Word) returns (lastLeaf: nat)
      requires Valid() && forall p :: p in shape ==> |p| <= 32
      ensures lastLeaf == Walk(shape, addr, 32)
    {
      var cur := root;
      var pos := 0;
      var bit := ReadBit(addr, pos);
      var next := if bit then cur.right else cur.left;
      assert Linked(nodes, shape, []);
      assert addr[..0] == [];
      lastLeaf := root.leaf;
      while next != null
        invariant 0 <= pos <= 32 && addr[..pos] in nodes && nodes[addr[..pos]] == cur
        invariant next == Child(nodes, addr[..pos], bit) && (pos < 32 ==> bit == addr[pos])
        invariant lastLeaf == Walk(shape, addr, pos)
        decreases 32 - pos
      {
        assert |addr[..pos] + [bit]| == pos + 1;
        assert addr[..pos + 1] == addr[..pos] + [addr[pos]];
        cur := next;
        assert Linked(nodes, shape, addr[..pos + 1]);
        if cur.leaf != NH_INVALID {
          lastLeaf := cur.leaf;
        }
        pos := pos + 1;
        bit := ReadBit(addr, pos);
        next := if bit then cur.right else cur.left;
      }
      if pos < 32 {
        assert addr[..pos + 1] == addr[..pos] + [addr[pos]];
      }
      ShapeClosed();
      WalkStops(shape, addr, pos);
    }

    method ReadBit(addr: Word, pos: nat) returns (bit: bool)
      ensures pos < 32 ==> bit == addr[pos]
    {
      if pos < 32 {
        ExtractBitReads(addr, pos);
        bit := ExtractBit(addr, pos);
      } else {
        bit := *;
      }
    }
  }

  /** Adding the child of `p` changes the child of `p` on that side and no other. */
  lemma LinkedAfterGrow(was: Nodes, now: Nodes, p: Bits, bit: bool, q: Bits)
    requires p in was && p + [bit] !in was && p + [bit] in now && now == was[p + [bit] := now[p + [bit]]]
    requires PrefixClosed(was.Keys) && q in now
    ensures forall b :: !(q == p && b == bit) && q != p + [bit] ==> Child(now, q, b) == Child(was, q, b)
    ensures Child(now, p, bit) == now[p + [bit]]
    ensures Child(now, p + [bit], false) == null && Child(now, p + [bit], true) == null
    ensures (p + [bit])[..|p|] == p
  {
    forall b | !(q == p && b == bit) ensures q + [b] != p + [bit] {
      assert (q + [b])[..|q|] == q && (q + [b])[|q|] == b;
      assert (p + [bit])[..|p|] == p && (p + [bit])[|p|] == bit;
    }
    forall b: bool ensures p + [bit] + [b] !in was {
      var c := p + [bit] + [b];
      assert c[..|c| - 1] == p + [bit];
      assert c in was.Keys ==> HasParent(was.Keys, c);
    }
  }
}
