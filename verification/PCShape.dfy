/** The path-compressed trie as a value (src/pcTrie.cpp, code that is compiled out).
    A node is named by the bits all its routes share: the first `splitPos` bits of the base
    for an internal node, the whole base for a leaf. One node lies below another exactly when
    its name extends the other's. */
module PCShape {
  import opened Words
  import opened Routes

  datatype Link = Nowhere | To(name: Bits)

  datatype Cell =
    | LeafCell(parent: Link, entries: Level)
    | SplitCell(parent: Link, left: Bits, right: Bits, leaf: Link)

  type Trie = map<Bits, Cell>

  /** `hasMoreGeneralRoute` */
  predicate HasMoreGeneral(entries: Level, len: nat) {
    exists i :: 0 <= i < |entries| && entries[i].prefixLength <= len
  }

  /** `pushRoute`: append and sort, longest prefix first. */
  function PushRoute(entries: Level, r: Route): Level {
    if entries == [] || r.prefixLength > entries[0].prefixLength then [r] + entries
    else [entries[0]] + PushRoute(entries[1..], r)
  }

  /** Routes of one base, longest first, no length twice. */
  ghost predicate EntriesOk(base: Bits, entries: Level) {
    && entries != []
    && (forall r :: r in entries ==> r.base == base && Canonical(r, r.prefixLength))
    && forall i, j :: 0 <= i < j < |entries| ==> entries[i].prefixLength > entries[j].prefixLength
  }

  /** Among the given names, everything that starts with `s` starts with `c`. */
  ghost predicate Tops(names: set<Bits>, s: Bits, c: Bits) {
    forall m :: m in names && s <= m ==> c <= m
  }

  /** `c` is the node below `k` on side `d`, above everything else there. */
  ghost predicate ChildAt(t: Trie, k: Bits, d: bool, c: Bits) {
    c in t && k + [d] <= c && t[c].parent == To(k) && Tops(t.Keys, k + [d], c)
  }

  ghost predicate ParentOk(t: Trie, k: Bits, parent: Link) {
    parent.To? ==>
      && parent.name in t && parent.name < k
      && t[parent.name].SplitCell?
      && (t[parent.name].left == k || t[parent.name].right == k)
  }

  ghost predicate CellOk(t: Trie, k: Bits)
    requires k in t
  {
    && ParentOk(t, k, t[k].parent)
    && match t[k]
       case LeafCell(_, entries) => |k| == 32 && EntriesOk(k, entries)
       case SplitCell(_, left, right, leaf) =>
         && |k| < 32 && ChildAt(t, k, false, left) && ChildAt(t, k, true, right)
         && (leaf.To? ==> leaf.name == Pad(k) && leaf.name in t)
  }

  ghost predicate Rooted(t: Trie, root: Link) {
    && (root == Nowhere <==> t == map[])
    && (root.To? ==> root.name in t && forall m :: m in t ==> root.name <= m)
    && forall k :: k in t ==> (t[k].parent == Nowhere <==> root == To(k))
  }

  /** A node whose prefix some route covers entirely. */
  ghost predicate Owed(t: Trie, k: Bits) {
    && k in t && t[k].SplitCell? && |k| < 32
    && Pad(k) in t && t[Pad(k)].LeafCell? && HasMoreGeneral(t[Pad(k)].entries, |k|)
  }

  /** The node or one above it points to the leaf of its covering routes. */
  ghost predicate PointedAbove(t: Trie, k: Bits)
    requires |k| <= 32
  {
    exists j :: j in t && j <= k && t[j].SplitCell? && t[j].leaf == To(Pad(k))
  }

  ghost predicate Structured(t: Trie, root: Link) {
    && Rooted(t, root)
    && forall k {:trigger CellOk(t, k)} :: k in t ==> CellOk(t, k)
  }

  ghost predicate Covering(t: Trie) {
    forall k {:trigger Owed(t, k)} :: Owed(t, k) ==> PointedAbove(t, k)
  }

  /** No split position reaches `len`, no route is longer than `len`. */
  ghost predicate Bounded(t: Trie, len: nat) {
    && (forall k :: k in t && t[k].SplitCell? ==> |k| < len)
    && (forall k, r :: k in t && t[k].LeafCell? && r in t[k].entries ==> r.prefixLength <= len)
  }

  ghost predicate PCValid(t: Trie, root: Link, len: nat) {
    Structured(t, root) && Covering(t) && Bounded(t, len)
  }

  /** The routes stored in the trie. */
  ghost predicate Holds(t: Trie, r: Route) {
    r.base in t && t[r.base].LeafCell? && r in t[r.base].entries
  }

  /** The state of the downward search for `base`: everything above `c` agrees with it. */
  ghost predicate OnPath(t: Trie, c: Bits, base: Word) {
    && c in t && |c| <= 32
    && (forall q :: q in t && q < c ==> q <= base && c[|q|] == base[|q|])
    && (forall q :: q in t && q <= base ==> q < c || c <= q)
  }

  lemma PathStart(t: Trie, root: Link, base: Word)
    requires Structured(t, root) && root.To?
    ensures OnPath(t, root.name, base)
  {
    assert CellOk(t, root.name);
  }

  function SideOf(cell: Cell, d: bool): Bits
    requires cell.SplitCell?
  {
    if d then cell.right else cell.left
  }

  /** Prefixes of one string are ordered by length. */
  lemma Comparable(p: Bits, q: Bits, k: Bits)
    requires p <= k && q <= k && |p| <= |q|
    ensures p <= q
  {
  }

  lemma PathDownAbove(t: Trie, c: Bits, ch: Bits, base: Word, q: Bits)
    requires OnPath(t, c, base) && |c| < |ch| <= 32 && c <= base && ChildAt(t, c, base[|c|], ch)
    requires q in t && q < ch
    ensures q <= base && ch[|q|] == base[|q|]
  {
  }

  lemma PathDownBelow(t: Trie, c: Bits, ch: Bits, base: Word, q: Bits)
    requires OnPath(t, c, base) && |c| < |ch| <= 32 && c <= base && ChildAt(t, c, base[|c|], ch)
    requires q in t && q <= base
    ensures q < ch || ch <= q
  {
  }

  /** The search goes down the side of the next bit of the base. */
  lemma PathDown(t: Trie, root: Link, c: Bits, base: Word)
    requires Structured(t, root) && OnPath(t, c, base) && t[c].SplitCell? && c <= base && |c| < 32
    ensures var ch := SideOf(t[c], base[|c|]); OnPath(t, ch, base) && c < ch
  {
    assert CellOk(t, c);
    var ch := SideOf(t[c], base[|c|]);
    assert ChildAt(t, c, base[|c|], ch) && CellOk(t, ch);
    forall q | q in t && q < ch ensures q <= base && ch[|q|] == base[|q|] {
      PathDownAbove(t, c, ch, base, q);
    }
    forall q | q in t && q <= base ensures q < ch || ch <= q {
      PathDownBelow(t, c, ch, base, q);
    }
  }

  /** The parent is the lowest node above. */
  lemma ParentLowest(t: Trie, root: Link, k: Bits, q: Bits)
    requires Structured(t, root) && k in t && t[k].parent.To? && q in t && q < k
    ensures t[k].parent.name in t && t[k].parent.name < k && t[t[k].parent.name].SplitCell?
    ensures q <= t[k].parent.name
  {
    assert CellOk(t, k) && CellOk(t, t[k].parent.name);
    var p := t[k].parent.name;
    var d := t[p].right == k;
    assert ChildAt(t, p, d, k);
    assert |q| > |p| ==> p + [d] <= q;
  }
}
