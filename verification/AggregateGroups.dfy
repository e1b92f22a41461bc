/** What the inner loop of aggregation does to the routes of one prefix: its two halves and itself
    (src/routingTable.cpp). */
module AggregateGroups {
  import opened Words
  import opened Rib
  import opened Routes
  import opened Reading
  import opened Aggregation
  import opened AggregatePass

  // Siblings in a sorted level.

  /** In an ascending level the first of two siblings has the zero bit, and no route behind it has
      its prefix. */
  lemma SiblingsAscend(level: Level, len: nat, i: nat)
    requires 1 <= len <= 30 && AllCanonical(level, len) && Ascending(level) && i + 1 < |level|
    requires Siblings(level[i], level[i + 1], len)
    ensures var q := level[i].base[..len - 1];
            && level[i].base[..len] == q + [false] && level[i + 1].base[..len] == q + [true]
            && forall j :: i < j < |level| ==> level[j].base[..len] != q + [false]
  {
    var first, second := level[i], level[i + 1];
    var q := first.base[..len - 1];
    assert first in level && second in level;
    XorIsOneBit(first.base, second.base, 32 - len);
    assert first.base[..len] == q + [first.base[len - 1]] && second.base[..len] == q + [second.base[len - 1]];
    if first.base[len - 1] {
      ValueLess(second.base, first.base, len - 1);
      assert false;
    }
    ValueLess(first.base, second.base, len - 1);
    forall j | i < j < |level| ensures level[j].base[..len] != first.base[..len] {
      assert Value(first.base) < Value(level[j].base);
      if level[j].base[..len] == first.base[..len] {
        assert level[j] in level;
        SameBase(level[j], first, len);
      }
    }
  }

  /** The last route of the level with two neighbours taken out, and with them. */
  lemma LastWithout(level: Level, i: nat, p: Bits)
    requires |p| <= 32 && i + 1 < |level|
    ensures LastRoute(Without(level, i), p) ==
            if LastRoute(level[i + 2..], p).Some? then LastRoute(level[i + 2..], p) else LastRoute(level[..i], p)
  {
    LastConcat(level[..i], level[i + 2..], p);
  }

  lemma LastUpTo(level: Level, i: nat, p: Bits)
    requires |p| <= 32 && i < |level|
    ensures LastRoute(level[..i + 1], p) == if level[i].base[..|p|] == p then Some(level[i]) else LastRoute(level[..i], p)
  {
    assert level[..i + 1] == level[..i] + [level[i]];
    LastAppend(level[..i], level[i], p);
  }

  lemma LastWithPair(level: Level, i: nat, p: Bits)
    requires |p| <= 32 && i + 1 < |level|
    ensures LastRoute(level, p) ==
            if LastRoute(level[i + 2..], p).Some? then LastRoute(level[i + 2..], p)
            else if level[i + 1].base[..|p|] == p then Some(level[i + 1])
            else if level[i].base[..|p|] == p then Some(level[i])
            else LastRoute(level[..i], p)
  {
    LastSplit(level, i + 2, p);
    LastUpTo(level, i + 1, p);
    LastUpTo(level, i, p);
  }

  /** Taking out routes with other prefixes changes nothing. */
  lemma LastOthers(level: Level, i: nat, p: Bits)
    requires |p| <= 32 && i + 1 < |level| && level[i].base[..|p|] != p && level[i + 1].base[..|p|] != p
    ensures LastRoute(Without(level, i), p) == LastRoute(level, p)
  {
    LastWithout(level, i, p);
    LastWithPair(level, i, p);
  }

  /** What a merge does to the last routes: the parent is read at its own prefix; at other prefixes
      nothing changes. */
  lemma LastMerged(t: Table, len: nat, i: nat, q: Bits)
    requires CanonicalTable(t) && 1 <= len <= 30 && i + 1 < |t[len]| && Siblings(t[len][i], t[len][i + 1], len)
    requires |q| == len - 1
    ensures var u, parent := MergeAt(t, len, i), ParentOf(t[len][i], len);
            && parent.base[..len - 1] == t[len][i].base[..len - 1] && HopOf(parent) == HopOf(t[len][i])
            && LastRoute(u[len - 1], q) == (if parent.base[..len - 1] == q then Some(parent) else LastRoute(t[len - 1], q))
  {
    assert t[len][i] in t[len];
    ParentCanonical(t[len][i], len);
    LastAppend(t[len - 1], ParentOf(t[len][i], len), q);
  }

  /** The two halves of a prefix, and the prefix itself, have the same last routes. */
  ghost predicate SameAt(t: Table, u: Table, len: nat, q: Bits)
    requires |t| == 33 && |u| == 33 && 1 <= len <= 30 && |q| == len - 1
  {
    && LastRoute(t[len], q + [false]) == LastRoute(u[len], q + [false])
    && LastRoute(t[len], q + [true]) == LastRoute(u[len], q + [true])
    && LastRoute(t[len - 1], q) == LastRoute(u[len - 1], q)
  }

  /** Siblings have no half of another prefix. */
  lemma OtherHalf(level: Level, len: nat, i: nat, q: Bits, b: bool)
    requires 1 <= len <= 30 && AllCanonical(level, len) && Ascending(level) && i + 1 < |level|
    requires Siblings(level[i], level[i + 1], len) && |q| == len - 1 && q != level[i].base[..len - 1]
    ensures level[i].base[..len] != q + [b] && level[i + 1].base[..len] != q + [b]
  {
    SiblingsAscend(level, len, i);
    var x := level[i].base[..len - 1];
    assert (q + [b])[..len - 1] == q && (x + [false])[..len - 1] == x && (x + [true])[..len - 1] == x;
  }

  lemma MergeElsewhere(t: Table, len: nat, i: nat, q: Bits)
    requires CanonicalTable(t) && 1 <= len <= 30 && Ascending(t[len]) && i + 1 < |t[len]|
    requires Siblings(t[len][i], t[len][i + 1], len) && |q| == len - 1 && q != t[len][i].base[..len - 1]
    ensures SameAt(t, MergeAt(t, len, i), len, q)
  {
    LastMerged(t, len, i, q);
    OtherHalf(t[len], len, i, q, false);
    LastOthers(t[len], i, q + [false]);
    OtherHalf(t[len], len, i, q, true);
    LastOthers(t[len], i, q + [true]);
  }

  /** When the zero half of a prefix is behind the loop, nothing more happens to the prefix. */
  lemma {:induction false} GroupStays(t: Table, len: nat, j: nat, q: Bits)
    requires CanonicalTable(t) && 1 <= len <= 30 && Ascending(t[len]) && |q| == len - 1
    requires forall k :: j <= k < |t[len]| ==> t[len][k].base[..len] != q + [false]
    ensures SameAt(t, Merged(t, len, j), len, q)
    decreases |t[len]| - j
  {
    if j + 1 < |t[len]| {
      if Siblings(t[len][j], t[len][j + 1], len) {
        SiblingsAscend(t[len], len, j);
        MergeElsewhere(t, len, j, q);
        MergeAtCanonical(t, len, j);
        WithoutAscending(t[len], j);
        GroupStays(MergeAt(t, len, j), len, j + 1, q);
      } else {
        GroupStays(t, len, j + 1, q);
      }
    }
  }

  /** Every route with the prefix is this one. */
  ghost predicate OnlyWith(level: Level, p: Bits, r: Route)
    requires |p| <= 32
  {
    forall z :: z in level && z.base[..|p|] == p ==> z == r
  }

  /** What a turn does to one half of a prefix. A half without routes stays so, and the prefix is
      left alone. A half that loses its last route had no other, and the prefix is now read with
      its hop. */
  ghost predicate MovesAt(t: Table, u: Table, len: nat, q: Bits, b: bool)
    requires |t| == 33 && |u| == 33 && 1 <= len <= 30 && |q| == len - 1
  {
    var x, y := LastRoute(t[len], q + [b]), LastRoute(u[len], q + [b]);
    var z := LastRoute(u[len - 1], q);
    && (x.None? ==> y.None? && z == LastRoute(t[len - 1], q))
    && (x.Some? && y.None? ==> OnlyWith(t[len], q + [b], x.value) && HopIn(z) == Some(HopOf(x.value)))
  }

  lemma SameMoves(t: Table, u: Table, v: Table, len: nat, q: Bits, b: bool)
    requires |t| == 33 && |u| == 33 && |v| == 33 && 1 <= len <= 30 && |q| == len - 1
    requires SameAt(t, u, len, q) && MovesAt(u, v, len, q, b)
    requires forall r :: r in t[len] && r.base[..len] == q + [b] ==> r in u[len]
    ensures MovesAt(t, v, len, q, b)
  {
  }

  lemma MovesSame(t: Table, u: Table, v: Table, len: nat, q: Bits, b: bool)
    requires |t| == 33 && |u| == 33 && |v| == 33 && 1 <= len <= 30 && |q| == len - 1
    requires MovesAt(t, u, len, q, b) && SameAt(u, v, len, q)
    ensures MovesAt(t, v, len, q, b)
  {
  }

  /** Where the last route of one half goes when the halves are merged. */
  lemma MergeTakes(level: Level, len: nat, i: nat, b: bool)
    requires 1 <= len <= 30 && AllCanonical(level, len) && Ascending(level) && i + 1 < |level|
    requires Siblings(level[i], level[i + 1], len)
    ensures var p := level[i].base[..len - 1] + [b];
            && LastRoute(level, p).Some?
            && (LastRoute(Without(level, i), p).None? ==>
                  OnlyWith(level, p, level[if b then i + 1 else i]) && LastRoute(level, p) == Some(level[if b then i + 1 else i]))
  {
    var p, s := level[i].base[..len - 1] + [b], level[if b then i + 1 else i];
    SiblingsAscend(level, len, i);
    assert s in level && s.base[..len] == p;
    if LastRoute(Without(level, i), p).None? {
      forall z | z in level && z.base[..len] == p ensures z == s {
        WithoutRest(level, i, z);
      }
    }
  }

  /** The merge of the two halves. */
  lemma MergeMoves(t: Table, len: nat, i: nat, b: bool)
    requires CanonicalTable(t) && 1 <= len <= 30 && Ascending(t[len]) && i + 1 < |t[len]|
    requires Siblings(t[len][i], t[len][i + 1], len)
    ensures MovesAt(t, MergeAt(t, len, i), len, t[len][i].base[..len - 1], b)
  {
    LastMerged(t, len, i, t[len][i].base[..len - 1]);
    MergeTakes(t[len], len, i, b);
  }

  /** The inner loop of a turn. */
  lemma {:induction false} MergedMoves(t: Table, len: nat, i: nat, q: Bits, b: bool)
    requires CanonicalTable(t) && 1 <= len <= 30 && Ascending(t[len]) && |q| == len - 1
    ensures MovesAt(t, Merged(t, len, i), len, q, b)
    decreases |t[len]| - i
  {
    if i + 1 < |t[len]| {
      if Siblings(t[len][i], t[len][i + 1], len) {
        var u := MergeAt(t, len, i);
        MergeAtCanonical(t, len, i);
        WithoutAscending(t[len], i);
        if t[len][i].base[..len - 1] == q {
          MergeMoves(t, len, i, b);
          BehindTheLoop(t[len], len, i);
          GroupStays(u, len, i + 1, q);
          MovesSame(t, u, Merged(t, len, i), len, q, b);
        } else {
          MergeElsewhere(t, len, i, q);
          KeptElsewhere(t[len], len, i, q, b);
          MergedMoves(u, len, i + 1, q, b);
          SameMoves(t, u, Merged(t, len, i), len, q, b);
        }
      } else {
        MergedMoves(t, len, i + 1, q, b);
      }
    }
  }

  lemma BehindTheLoop(level: Level, len: nat, i: nat)
    requires 1 <= len <= 30 && AllCanonical(level, len) && Ascending(level) && i + 1 < |level|
    requires Siblings(level[i], level[i + 1], len)
    ensures var w := Without(level, i);
            forall k :: i + 1 <= k < |w| ==> w[k].base[..len] != level[i].base[..len - 1] + [false]
  {
    SiblingsAscend(level, len, i);
    var w := Without(level, i);
    assert forall k :: i + 1 <= k < |w| ==> w[k] == level[k + 2];
  }

  lemma KeptElsewhere(level: Level, len: nat, i: nat, q: Bits, b: bool)
    requires 1 <= len <= 30 && AllCanonical(level, len) && Ascending(level) && i + 1 < |level|
    requires Siblings(level[i], level[i + 1], len) && |q| == len - 1 && q != level[i].base[..len - 1]
    ensures forall r :: r in level && r.base[..len] == q + [b] ==> r in Without(level, i)
  {
    OtherHalf(level, len, i, q, b);
    forall r | r in level && r.base[..len] == q + [b] ensures r in Without(level, i) {
      WithoutRest(level, i, r);
    }
  }
}
