/** Insertion into the path-compressed trie (src/pcTrie.cpp, `PCTrie::buildTrie`). */
module PCInsert {
  import opened Words
  import opened Routes
  import opened PCShape

  function WithParent(cell: Cell, parent: Link): Cell {
    match cell
    case LeafCell(_, entries) => LeafCell(parent, entries)
    case SplitCell(_, left, right, leaf) => SplitCell(parent, left, right, leaf)
  }

  function WithoutLeaf(cell: Cell): Cell {
    match cell
    case LeafCell(_, _) => cell
    case SplitCell(parent, left, right, _) => SplitCell(parent, left, right, Nowhere)
  }

  /** The parent's pointer to `c` now points to `n`. */
  function WithChild(cell: Cell, c: Bits, n: Bits): Cell
    requires cell.SplitCell?
  {
    if cell.left == c then cell.(left := n) else cell.(right := n)
  }

  /** Whether the node pointed to by a link is a leaf with a route no longer than `pos`. */
  predicate General(t: Trie, l: Link, pos: nat) {
    l.To? && l.name in t && t[l.name].LeafCell? && HasMoreGeneral(t[l.name].entries, pos)
  }

  /** The leaf pointer of the new internal node above `c`: the left child itself, or the pointer
      the left child gives up, when it has a route that covers the new node. */
  function Handed(t: Trie, c: Bits, r: Route, pos: nat): Link
    requires c in t && pos < 32
  {
    if !r.base[pos] then
      if HasMoreGeneral([r], pos) then To(r.base) else Nowhere
    else if t[c].LeafCell? then
      if HasMoreGeneral(t[c].entries, pos) then To(c) else Nowhere
    else
      if General(t, t[c].leaf, pos) then t[c].leaf else Nowhere
  }

  /** The node `c` below its new parent `n`. */
  function Lowered(t: Trie, c: Bits, r: Route, pos: nat): Cell
    requires c in t && pos < 32
  {
    var cell := WithParent(t[c], To(r.base[..pos]));
    if r.base[pos] && Handed(t, c, r, pos).To? then WithoutLeaf(cell) else cell
  }

  function NewSplit(t: Trie, c: Bits, r: Route, pos: nat): Cell
    requires c in t && pos < 32
  {
    if r.base[pos] then SplitCell(t[c].parent, c, r.base, Handed(t, c, r, pos))
    else SplitCell(t[c].parent, r.base, c, Handed(t, c, r, pos))
  }

  /** A new internal node at bit `pos` between `c` and its parent, with a new leaf beside `c`. */
  function Split(t: Trie, c: Bits, r: Route, pos: nat): Trie
    requires c in t && pos < 32
    requires t[c].parent.To? ==> t[c].parent.name in t && t[t[c].parent.name].SplitCell?
  {
    var n := r.base[..pos];
    var u := t[c := Lowered(t, c, r, pos)][r.base := LeafCell(To(n), [r])][n := NewSplit(t, c, r, pos)];
    if t[c].parent.To? then
      u[t[c].parent.name := WithChild(t[t[c].parent.name], c, n)]
    else u
  }

  /** The search for the route's base stopped at `c`, which differs from it first at `pos`. */
  ghost predicate SplitsAt(t: Trie, root: Link, len: nat, c: Bits, r: Route, pos: nat) {
    && PCValid(t, root, len)
    && Canonical(r, r.prefixLength) && r.prefixLength >= len
    && OnPath(t, c, r.base)
    && pos < |c| && c[..pos] == r.base[..pos] && c[pos] != r.base[pos]
  }

  /** What the search gives for the new name `n` above `c`: it is new, and so is the base. */
  ghost predicate Fresh(names: set<Bits>, c: Bits, n: Bits, base: Bits) {
    && c in names && n !in names && base !in names && n < c && n < base && c[|n|] != base[|n|]
    && Tops(names, n, c)
    && (forall q :: q in names && q <= base ==> q < n)
    && (forall q :: q in names && q < c ==> q < n)
  }

  /** A side that was not headed by `c` keeps its head. */
  lemma TopsKept(names: set<Bits>, c: Bits, n: Bits, base: Bits, k: Bits, d: bool, ch: Bits)
    requires Fresh(names, c, n, base) && k in names && ch in names && ch != c
    requires k + [d] <= ch && Tops(names, k + [d], ch)
    ensures Tops(names + {n, base}, k + [d], ch)
  {
  }

  /** A side headed by `c` is now headed by the new name. */
  lemma TopsReplaced(names: set<Bits>, c: Bits, n: Bits, base: Bits, k: Bits, d: bool)
    requires Fresh(names, c, n, base) && k in names
    requires k + [d] <= c && Tops(names, k + [d], c)
    ensures k + [d] <= n && Tops(names + {n, base}, k + [d], n)
  {
  }

  /** The new name heads `c` on one side and the new leaf on the other. */
  lemma TopsNew(names: set<Bits>, c: Bits, n: Bits, base: Bits)
    requires Fresh(names, c, n, base)
    ensures n + [c[|n|]] <= c && Tops(names + {n, base}, n + [c[|n|]], c)
    ensures n + [base[|n|]] <= base && Tops(names + {n, base}, n + [base[|n|]], base)
  {
  }

  lemma AboveIsShort(t: Trie, c: Bits, r: Route, pos: nat, q: Bits)
    requires OnPath(t, c, r.base) && pos < |c| && c[pos] != r.base[pos]
    requires q in t && q < c
    ensures |q| < pos && q <= r.base
  {
  }

  /** Everything that starts with the new name lies below `c`. */
  lemma BelowNew(t: Trie, c: Bits, r: Route, pos: nat, m: Bits)
    requires OnPath(t, c, r.base) && pos < |c| && c[..pos] == r.base[..pos] && c[pos] != r.base[pos]
    requires CellOk(t, c) && (t[c].parent.To? ==> CellOk(t, t[c].parent.name)) && (t[c].parent == Nowhere ==> c <= m)
    requires m in t && r.base[..pos] <= m
    ensures c <= m
  {
    if t[c].parent.To? {
      var n, p := r.base[..pos], t[c].parent.name;
      AboveIsShort(t, c, r, pos, p);
      var d := t[p].right == c;
      assert ChildAt(t, p, d, c);
      Comparable(p + [d], n, c);
    }
  }

  lemma SplitIsFresh(t: Trie, root: Link, len: nat, c: Bits, r: Route, pos: nat)
    requires SplitsAt(t, root, len, c, r, pos)
    ensures pos < 32 && Fresh(t.Keys, c, r.base[..pos], r.base)
  {
    var n := r.base[..pos];
    assert n < c && !(c <= r.base);
    forall q | q in t && q < c ensures q < n {
      AboveIsShort(t, c, r, pos, q);
      Comparable(q, n, c);
    }
    assert CellOk(t, c) && (t[c].parent.To? ==> CellOk(t, t[c].parent.name));
    forall m | m in t && n <= m ensures c <= m {
      BelowNew(t, c, r, pos, m);
    }
    assert n in t ==> n < n;
  }

  /** The split position stays below the length of the new route. */
  lemma SplitBelowLength(t: Trie, root: Link, len: nat, c: Bits, r: Route, pos: nat)
    requires SplitsAt(t, root, len, c, r, pos)
    ensures pos < r.prefixLength
  {
    assert CellOk(t, c);
    if t[c].LeafCell? {
      var e := t[c].entries[0];
      assert e in t[c].entries;
      assert forall i :: r.prefixLength <= i < 32 ==> !c[i] && !r.base[i];
    }
  }

  /** The cells of the split trie. */
  ghost predicate SplitResult(t: Trie, u: Trie, c: Bits, r: Route, pos: nat)
    requires pos < 32 && c in t
  {
    var n, parent := r.base[..pos], t[c].parent;
    && u.Keys == t.Keys + {n, r.base}
    && u[n] == NewSplit(t, c, r, pos)
    && u[r.base] == LeafCell(To(n), [r])
    && u[c] == Lowered(t, c, r, pos)
    && (parent.To? ==> parent.name in t && parent.name < n && t[parent.name].SplitCell?
                       && u[parent.name] == WithChild(t[parent.name], c, n))
    && forall k :: k in t && k != c && To(k) != parent ==> u[k] == t[k]
  }

  lemma SplitCells(t: Trie, c: Bits, r: Route, pos: nat)
    requires c in t && pos < 32 && r.base[..pos] !in t && r.base !in t
    requires t[c].parent.To? ==>
               t[c].parent.name in t && t[t[c].parent.name].SplitCell? && c != t[c].parent.name < r.base[..pos]
    ensures SplitResult(t, Split(t, c, r, pos), c, r, pos)
  {
    assert Split(t, c, r, pos).Keys == t.Keys + {r.base[..pos], r.base};
  }

  lemma SplitGives(t: Trie, c: Bits, r: Route, pos: nat)
    requires c in t && pos < 32 && CellOk(t, c) && Fresh(t.Keys, c, r.base[..pos], r.base)
    ensures t[c].parent.To? ==> t[c].parent.name in t && t[t[c].parent.name].SplitCell?
    ensures SplitResult(t, Split(t, c, r, pos), c, r, pos)
  {
    assert t[c].parent.To? ==> t[c].parent.name < c && t[c].parent.name < r.base[..pos];
    SplitCells(t, c, r, pos);
  }

  lemma HandedIsPad(t: Trie, c: Bits, r: Route, pos: nat)
    requires c in t && pos < |c| <= 32 && c[..pos] == r.base[..pos] && CellOk(t, c) && pos < r.prefixLength
    requires Pad(c) in t ==> CellOk(t, Pad(c))
    ensures var h := Handed(t, c, r, pos);
            h.To? ==> h.name == Pad(r.base[..pos]) && h.name in t && r.base[pos]
  {
  }

  lemma NewLeafOk(t: Trie, u: Trie, c: Bits, r: Route, pos: nat)
    requires c in t && pos < 32 && SplitResult(t, u, c, r, pos) && Canonical(r, r.prefixLength)
    ensures CellOk(u, r.base)
  {
  }

  lemma NewSplitOk(t: Trie, u: Trie, c: Bits, r: Route, pos: nat)
    requires c in t && pos < |c| <= 32 && SplitResult(t, u, c, r, pos)
    requires Fresh(t.Keys, c, r.base[..pos], r.base) && CellOk(t, c) && pos < r.prefixLength
    requires Pad(c) in t ==> CellOk(t, Pad(c))
    ensures CellOk(u, r.base[..pos])
  {
    var n := r.base[..pos];
    HandedIsPad(t, c, r, pos);
    TopsNew(t.Keys, c, n, r.base);
    assert ChildAt(u, n, r.base[pos], r.base);
    assert ChildAt(u, n, c[pos], c);
  }

  lemma ChildKept(t: Trie, u: Trie, c: Bits, r: Route, pos: nat, k: Bits, d: bool, ch: Bits)
    requires c in t && pos < 32 && SplitResult(t, u, c, r, pos) && Fresh(t.Keys, c, r.base[..pos], r.base)
    requires k in t && ChildAt(t, k, d, ch) && ch != c
    ensures ChildAt(u, k, d, ch)
  {
    TopsKept(t.Keys, c, r.base[..pos], r.base, k, d, ch);
  }

  /** The node above which the split happened keeps its own children. */
  lemma LoweredOk(t: Trie, u: Trie, c: Bits, r: Route, pos: nat)
    requires c in t && pos < 32 && SplitResult(t, u, c, r, pos) && Fresh(t.Keys, c, r.base[..pos], r.base)
    requires CellOk(t, c)
    ensures CellOk(u, c)
  {
    if t[c].SplitCell? {
      ChildKept(t, u, c, r, pos, c, false, t[c].left);
      ChildKept(t, u, c, r, pos, c, true, t[c].right);
    }
  }

  lemma SidesDiffer(t: Trie, k: Bits)
    requires k in t && t[k].SplitCell? && CellOk(t, k)
    ensures t[k].left != t[k].right
  {
    assert (k + [false])[|k|] != (k + [true])[|k|];
  }

  /** The parent of the split node takes the new node in place of `c`. */
  lemma ParentCellOk(t: Trie, u: Trie, c: Bits, r: Route, pos: nat, k: Bits)
    requires c in t && pos < 32 && SplitResult(t, u, c, r, pos) && Fresh(t.Keys, c, r.base[..pos], r.base)
    requires t[c].parent == To(k) && CellOk(t, c) && CellOk(t, k)
    ensures CellOk(u, k)
  {
    var n := r.base[..pos];
    SidesDiffer(t, k);
    if t[k].left == c {
      TopsReplaced(t.Keys, c, n, r.base, k, false);
      ChildKept(t, u, c, r, pos, k, true, t[k].right);
    } else {
      TopsReplaced(t.Keys, c, n, r.base, k, true);
      ChildKept(t, u, c, r, pos, k, false, t[k].left);
    }
  }

  lemma OtherCellOk(t: Trie, u: Trie, c: Bits, r: Route, pos: nat, k: Bits)
    requires c in t && pos < 32 && SplitResult(t, u, c, r, pos) && Fresh(t.Keys, c, r.base[..pos], r.base)
    requires k in t && k != c && t[c].parent != To(k) && CellOk(t, k) && CellOk(t, c)
    ensures CellOk(u, k)
  {
    if t[k].SplitCell? {
      ChildKept(t, u, c, r, pos, k, false, t[k].left);
      ChildKept(t, u, c, r, pos, k, true, t[k].right);
    }
  }

  function NewRoot(t: Trie, root: Link, c: Bits, n: Bits): Link
    requires c in t
  {
    if t[c].parent.To? then root else To(n)
  }

  lemma SplitRooted(t: Trie, root: Link, u: Trie, c: Bits, r: Route, pos: nat)
    requires c in t && pos < 32 && SplitResult(t, u, c, r, pos) && Fresh(t.Keys, c, r.base[..pos], r.base)
    requires Rooted(t, root) && CellOk(t, c)
    ensures Rooted(u, NewRoot(t, root, c, r.base[..pos]))
  {
    var n, root' := r.base[..pos], NewRoot(t, root, c, r.base[..pos]);
    assert root.To? && (t[c].parent.To? ==> root.name < c && root.name < n);
    assert t[c].parent == Nowhere ==> root == To(c);
    forall m | m in u ensures root'.name <= m {
      if m in t && t[c].parent == Nowhere {
        assert c <= m;
      }
    }
    forall k | k in u ensures u[k].parent == Nowhere <==> root' == To(k) {
      assert k in t && k != c ==> u[k].parent == t[k].parent;
    }
  }

  /** Splitting keeps the structure of the trie. */
  lemma SplitStructured(t: Trie, root: Link, len: nat, c: Bits, r: Route, pos: nat)
    requires SplitsAt(t, root, len, c, r, pos) && pos < 32
    ensures t[c].parent.To? ==> t[c].parent.name in t && t[t[c].parent.name].SplitCell?
    ensures Structured(Split(t, c, r, pos), NewRoot(t, root, c, r.base[..pos]))
  {
    SplitIsFresh(t, root, len, c, r, pos);
    SplitBelowLength(t, root, len, c, r, pos);
    assert CellOk(t, c);
    SplitGives(t, c, r, pos);
    var u := Split(t, c, r, pos);
    SplitRooted(t, root, u, c, r, pos);
    forall k | k in u ensures CellOk(u, k) {
      if k == r.base[..pos] {
        assert Pad(c) in t ==> CellOk(t, Pad(c));
        NewSplitOk(t, u, c, r, pos);
      } else if k == r.base {
        NewLeafOk(t, u, c, r, pos);
      } else {
        assert CellOk(t, k);
        if k == c {
          LoweredOk(t, u, c, r, pos);
        } else if t[c].parent == To(k) {
          ParentCellOk(t, u, c, r, pos, k);
        } else {
          OtherCellOk(t, u, c, r, pos, k);
        }
      }
    }
  }

  lemma SplitBounded(t: Trie, u: Trie, len: nat, c: Bits, r: Route, pos: nat)
    requires c in t && pos < 32 && SplitResult(t, u, c, r, pos) && Fresh(t.Keys, c, r.base[..pos], r.base)
    requires Bounded(t, len) && len <= r.prefixLength && pos < r.prefixLength
    ensures Bounded(u, r.prefixLength)
  {
    forall k | k in u && u[k].SplitCell? ensures |k| < r.prefixLength {
      assert k in t ==> t[k].SplitCell?;
    }
    forall k, q | k in u && u[k].LeafCell? && q in u[k].entries ensures q.prefixLength <= r.prefixLength {
      assert k in t ==> t[k].LeafCell? && u[k].entries == t[k].entries;
    }
  }

  lemma OwedBefore(t: Trie, u: Trie, len: nat, c: Bits, r: Route, pos: nat, k: Bits)
    requires c in t && pos < 32 && SplitResult(t, u, c, r, pos) && Fresh(t.Keys, c, r.base[..pos], r.base)
    requires Bounded(t, len) && len <= r.prefixLength
    requires k != r.base[..pos] && Owed(u, k)
    ensures Owed(t, k)
  {
  }

  /** A pointer to a covering leaf survives the split, if need be one node higher. */
  lemma PointerKept(t: Trie, u: Trie, c: Bits, r: Route, pos: nat, k: Bits, j: Bits)
    requires c in t && pos < 32 && SplitResult(t, u, c, r, pos) && Fresh(t.Keys, c, r.base[..pos], r.base)
    requires |k| < 32 && j in t && j <= k && t[j].SplitCell? && t[j].leaf == To(Pad(k))
    ensures PointedAbove(u, k)
  {
  }

  lemma SplitCoversOld(t: Trie, u: Trie, len: nat, c: Bits, r: Route, pos: nat, k: Bits)
    requires c in t && pos < 32 && SplitResult(t, u, c, r, pos) && Fresh(t.Keys, c, r.base[..pos], r.base)
    requires Bounded(t, len) && len <= r.prefixLength && Covering(t)
    requires k != r.base[..pos] && Owed(u, k)
    ensures PointedAbove(u, k)
  {
    OwedBefore(t, u, len, c, r, pos, k);
    var j :| j in t && j <= k && t[j].SplitCell? && t[j].leaf == To(Pad(k));
    PointerKept(t, u, c, r, pos, k, j);
  }

  /** The leaf that covers the new node lies on its left, and is or was pointed to from there. */
  lemma OwedByNew(t: Trie, u: Trie, len: nat, c: Bits, r: Route, pos: nat)
    requires c in t && pos < |c| <= 32 && pos < 32 && SplitResult(t, u, c, r, pos)
    requires Fresh(t.Keys, c, r.base[..pos], r.base) && pos < r.prefixLength
    requires Owed(u, r.base[..pos])
    ensures var m := Pad(r.base[..pos]);
            m in t && t[m].LeafCell? && HasMoreGeneral(t[m].entries, pos) && c <= m && r.base[pos]
  {
  }

  lemma SplitCoversNew(t: Trie, u: Trie, len: nat, c: Bits, r: Route, pos: nat)
    requires c in t && pos < |c| <= 32 && pos < 32 && SplitResult(t, u, c, r, pos)
    requires Fresh(t.Keys, c, r.base[..pos], r.base) && pos < r.prefixLength
    requires CellOk(t, c) && Covering(t) && Owed(u, r.base[..pos])
    ensures PointedAbove(u, r.base[..pos])
  {
    var n := r.base[..pos];
    var m := Pad(n);
    OwedByNew(t, u, len, c, r, pos);
    if t[c].LeafCell? {
      assert c == m;
      assert u[n].leaf == To(m);
    } else {
      PadBetween(n, c, m);
      var i :| 0 <= i < |t[m].entries| && t[m].entries[i].prefixLength <= pos;
      assert HasMoreGeneral(t[m].entries, |c|);
      assert Owed(t, c);
      var j :| j in t && j <= c && t[j].SplitCell? && t[j].leaf == To(m);
      if j == c {
        assert u[n].leaf == To(m);
      } else {
        assert j < n && u[j].SplitCell? && u[j].leaf == To(m);
      }
    }
  }

  lemma PadBetween(n: Bits, c: Bits, m: Bits)
    requires n <= c && |c| <= 32 && m == Pad(n) && c <= m
    ensures Pad(c) == m
  {
  }

  /** Splitting keeps the whole invariant, with the new length as bound, and adds the route. */
  lemma SplitKeeps(t: Trie, root: Link, len: nat, c: Bits, r: Route, pos: nat)
    requires SplitsAt(t, root, len, c, r, pos) && pos < 32
    ensures t[c].parent.To? ==> t[c].parent.name in t && t[t[c].parent.name].SplitCell?
    ensures PCValid(Split(t, c, r, pos), NewRoot(t, root, c, r.base[..pos]), r.prefixLength)
    ensures forall q :: Holds(Split(t, c, r, pos), q) <==> Holds(t, q) || q == r
    ensures t[c].parent.To? ==> |t[c].parent.name| < pos
  {
    SplitStructured(t, root, len, c, r, pos);
    SplitIsFresh(t, root, len, c, r, pos);
    SplitBelowLength(t, root, len, c, r, pos);
    assert CellOk(t, c);
    SplitGives(t, c, r, pos);
    var u := Split(t, c, r, pos);
    SplitBounded(t, u, len, c, r, pos);
    SplitCovering(t, root, len, u, c, r, pos);
    SplitHolds(t, u, c, r, pos);
  }

  lemma SplitCovering(t: Trie, root: Link, len: nat, u: Trie, c: Bits, r: Route, pos: nat)
    requires c in t && pos < |c| <= 32 && pos < 32 && SplitResult(t, u, c, r, pos)
    requires Fresh(t.Keys, c, r.base[..pos], r.base) && pos < r.prefixLength
    requires CellOk(t, c) && Covering(t) && Bounded(t, len) && len <= r.prefixLength
    ensures Covering(u)
  {
    forall k | Owed(u, k) ensures PointedAbove(u, k) {
      if k == r.base[..pos] {
        SplitCoversNew(t, u, len, c, r, pos);
      } else {
        SplitCoversOld(t, u, len, c, r, pos, k);
      }
    }
  }

  lemma SplitHolds(t: Trie, u: Trie, c: Bits, r: Route, pos: nat)
    requires c in t && pos < 32 && SplitResult(t, u, c, r, pos) && Fresh(t.Keys, c, r.base[..pos], r.base)
    ensures forall q :: Holds(u, q) <==> Holds(t, q) || q == r
  {
  }

  /** Adding a longer route in front of the entries of its leaf. */
  lemma PushKeeps(t: Trie, root: Link, len: nat, r: Route)
    requires PCValid(t, root, len) && Canonical(r, r.prefixLength) && len <= r.prefixLength
    requires r.base in t && t[r.base].LeafCell?
    requires forall q :: q in t[r.base].entries ==> q.prefixLength != r.prefixLength
    ensures var u := t[r.base := LeafCell(t[r.base].parent, PushRoute(t[r.base].entries, r))];
            PCValid(u, root, r.prefixLength) && forall q :: Holds(u, q) <==> Holds(t, q) || q == r
  {
    var c := r.base;
    assert CellOk(t, c);
    PushInFront(c, t[c].entries, len, r);
    var u := t[c := LeafCell(t[c].parent, [r] + t[c].entries)];
    PushStructured(t, root, u, c);
    PushCovering(t, u, len, r);
    PushBounded(t, u, len, r);
  }

  lemma PushInFront(base: Bits, es: Level, len: nat, r: Route)
    requires EntriesOk(base, es) && r.base == base && Canonical(r, r.prefixLength) && len <= r.prefixLength
    requires forall q :: q in es ==> q.prefixLength <= len && q.prefixLength != r.prefixLength
    ensures PushRoute(es, r) == [r] + es && EntriesOk(base, [r] + es)
  {
  }

  lemma PushBounded(t: Trie, u: Trie, len: nat, r: Route)
    requires Bounded(t, len) && len <= r.prefixLength && r.base in t && t[r.base].LeafCell?
    requires u == t[r.base := LeafCell(t[r.base].parent, [r] + t[r.base].entries)]
    ensures Bounded(u, r.prefixLength)
    ensures forall q :: Holds(u, q) <==> Holds(t, q) || q == r
  {
  }

  lemma PushCovering(t: Trie, u: Trie, len: nat, r: Route)
    requires Covering(t) && Bounded(t, len) && len <= r.prefixLength && r.base in t && t[r.base].LeafCell?
    requires u == t[r.base := LeafCell(t[r.base].parent, [r] + t[r.base].entries)]
    ensures Covering(u)
  {
    forall k | Owed(u, k) ensures PointedAbove(u, k) {
      var es := u[Pad(k)].entries;
      var i :| 0 <= i < |es| && es[i].prefixLength <= |k|;
      assert Pad(k) == r.base ==> i > 0 && es[i] == t[r.base].entries[i - 1];
      assert Owed(t, k);
      var j :| j in t && j <= k && t[j].SplitCell? && t[j].leaf == To(Pad(k));
      assert u[j] == t[j];
    }
  }

  /** Changing the entries of one leaf leaves the structure alone. */
  lemma PushStructured(t: Trie, root: Link, u: Trie, c: Bits)
    requires Structured(t, root) && c in t && t[c].LeafCell? && u.Keys == t.Keys
    requires u[c].LeafCell? && u[c].parent == t[c].parent && EntriesOk(c, u[c].entries)
    requires forall k :: k in t && k != c ==> u[k] == t[k]
    ensures Structured(u, root)
  {
    assert CellOk(t, c);
    forall k | k in u ensures CellOk(u, k) {
      assert CellOk(t, k);
    }
  }

  /** The first route becomes the root leaf. */
  lemma FirstKeeps(r: Route)
    requires Canonical(r, r.prefixLength)
    ensures var u := map[r.base := LeafCell(Nowhere, [r])];
            PCValid(u, To(r.base), r.prefixLength) && forall q :: Holds(u, q) <==> q == r
  {
    var u: Trie := map[r.base := LeafCell(Nowhere, [r])];
    assert CellOk(u, r.base);
    forall k | k in u ensures !Owed(u, k) {
    }
  }
}
