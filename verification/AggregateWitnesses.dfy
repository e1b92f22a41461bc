/** Tables with a covered route, and what becomes of them when two longer routes are merged over it. */
module AggregateWitnesses {
  import opened Words
  import opened Rib
  import opened Routes
  import opened Reading
  import opened Aggregation
  import opened AggregatePass
  import opened AggregateReading
  import opened Numbering
  import opened Witnesses

  // Any table whose level 2 is two siblings, to be merged into `b`, and a third route.

  ghost predicate Setup(t: Table, q: Level, b: Route) {
    && |t| == 33 && t[2] == q && |q| == 3 && Distinct(q) && StrictlyAscending(q)
    && Siblings(q[0], q[1], 2) && ParentOf(q[0], 2) == b
    && forall k :: 3 <= k < 33 ==> t[k] == []
  }

  /** Levels above the ones in use change nothing. */
  lemma {:induction false} EmptyAbove(t: Table, order: Order, len: nat)
    requires |t| == 33 && len <= 30 && SortedAbove(t, order, len) && forall k :: len < k <= 30 ==> t[k] == []
    ensures TableAt(t, order, len) == t && forall k :: len < k <= 30 ==> order[k] == []
    decreases 30 - len
  {
    if len < 30 {
      EmptyAbove(t, order, len + 1);
      assert |order[len + 1]| == |multiset(order[len + 1])| == |t[len + 1]|;
      assert t[len + 1 := []] == t;
    }
  }

  lemma MergeTwo(t: Table, q: Level, b: Route)
    requires Setup(t, q, b)
    ensures var u := MergeAt(t, 2, 0);
            Merged(t, 2, 0) == u && u[1] == t[1] + [b] && u[2] == [q[2]] && forall k :: 3 <= k < 33 ==> u[k] == []
  {
    var u := MergeAt(t, 2, 0);
    assert u[2] == [q[2]];
    assert Merged(t, 2, 0) == Merged(u, 2, 1);
  }

  /** After the turn of level 2 the merged route stands behind what was at level 1. */
  lemma AtLevelOne(t: Table, q: Level, b: Route, order: Order)
    requires Setup(t, q, b) && SortedAbove(t, order, 1)
    ensures order[2] == q && (forall k :: 3 <= k <= 30 ==> order[k] == []) && TableAt(t, order, 1) == MergeAt(t, 2, 0)
  {
    EmptyAbove(t, order, 2);
    assert IsSort(order[2], TableAt(t, order, 2)[2]);
    assert IsSort(q, q);
    SortDetermined(q, order[2], q);
    assert t[2 := q] == t;
    MergeTwo(t, q, b);
  }

  /** Two routes with the same base are no siblings. */
  lemma SameBaseNoSiblings(r: Route, q: Route)
    requires r.base == q.base
    ensures !Siblings(r, q, 1)
  {
    assert Xor(r.base, q.base) == ZERO;
    assert OneShl(31)[0] && !ZERO[0];
  }

  lemma NoWraps(order: Order)
    requires |order[2]| == 3 && forall k :: 3 <= k <= 30 ==> order[k] == []
    requires |order[1]| == 2 ==> order[1][0].base == order[1][1].base
    ensures Wraps(order, 0) == {}
  {
    if |order[1]| == 2 {
      SameBaseNoSiblings(order[1][0], order[1][1]);
    }
    forall k | 0 < k <= 30 ensures !TwoSiblings(order[k], k) {
      assert k >= 3 ==> order[k] == [];
    }
  }

  /** What address zero reads when level 1 is the longest that matches. */
  lemma ZeroReads(u: Table, x: Route, r: Route)
    requires |u| == 33 && u[2] == [x] && x.base[0] && (forall k :: 3 <= k < 33 ==> u[k] == [])
    requires LastRoute(u[1], [false]) == Some(r)
    ensures HopRead(u, ZERO) == Some(HopOf(r))
  {
    assert ZERO[..1] == [false] && !ZERO[..2][0] && x.base[..2][0];
    forall k | 1 < k < 33 ensures !Hit(u, ZERO, k) {
      assert k >= 3 ==> u[k] == [];
    }
    ReadAt(u, ZERO, 1);
  }

  // Lost whatever the sort does.

  lemma Triple(a: Route, b: Route, c: Route)
    ensures multiset([a, b, c]) == multiset([a]) + multiset([b]) + multiset([c])
  {
    var pair := [a] + [b];
    assert [a, b, c] == pair + [c];
    assert multiset(pair + [c]) == multiset(pair) + multiset([c]);
  }

  /** Two of three routes with the same base, the other above: the sort has two ways. */
  lemma TwoWays(level: Level, a: Route, c: Route, b: Route)
    requires IsSort(level, [a, c, b]) && a != b && Value(a.base) < Value(c.base) && Value(b.base) < Value(c.base)
    ensures level == [a, b, c] || level == [b, a, c]
  {
    assert |level| == |multiset(level)| == |[a, c, b]|;
    assert level == [level[0], level[1], level[2]];
    Triple(level[0], level[1], level[2]);
    Triple(a, c, b);
    assert b in multiset(level) && a in multiset(level) && c in multiset(level);
    var i :| 0 <= i < 3 && level[i] == c;
    var j :| 0 <= j < 3 && level[j] == a;
    var k :| 0 <= k < 3 && level[k] == b;
    assert i == 2;
  }

  /** Old routes `a` to the lower half and `c` to the upper, and `b` merged over `a` going the way of `c`. */
  ghost predicate Covers(a: Route, b: Route, c: Route) {
    && a.base == b.base && HopOf(a) != HopOf(b) && Siblings(b, c, 1)
    && a.base[..1] == [false] && c.base[..1] == [true] && Value(a.base) < Value(c.base)
  }

  /** With the merged route before the upper half, the two are merged and the old route is uncovered;
      with the old one between them, it is the last of its base. */
  lemma OldComesLast(v: Table, a: Route, b: Route, c: Route)
    requires |v| == 33 && Covers(a, b, c) && (v[1] == [a, b, c] || v[1] == [b, a, c])
    ensures var u := Merged(v, 1, 0);
            LastRoute(u[1], [false]) == Some(a) && u[2] == v[2] && forall k :: 3 <= k < 33 ==> u[k] == v[k]
  {
    SameBaseNoSiblings(v[1][0], v[1][1]);
    assert Merged(v, 1, 0) == Merged(v, 1, 1);
    if v[1] == [a, b, c] {
      var u := MergeAt(v, 1, 1);
      assert u[1] == [a];
      assert Merged(v, 1, 1) == Merged(u, 1, 2) == u;
      LastOne(a, [false]);
    } else {
      assert Merged(v, 1, 1) == Merged(v, 1, 2) == v;
      assert v[1] == [b] + [a] + [c];
      LastAppend([b] + [a], c, [false]);
      LastAppend([b], a, [false]);
    }
  }

  lemma LostAtZero(t: Table, q: Level, a: Route, b: Route, c: Route, order: Order)
    requires Setup(t, q, b) && q[2].base[0] && t[1] == [a, c] && Covers(a, b, c) && SortedAbove(t, order, 0)
    ensures HopRead(Aggregated(t, order), ZERO) == Some(HopOf(a))
    ensures WrittenAt(t, order, 0) == Done(Aggregated(t, order))
  {
    AtLevelOne(t, q, b, order);
    MergeTwo(t, q, b);
    assert IsSort(order[1], TableAt(t, order, 1)[1]);
    assert [a, c] + [b] == [a, c, b];
    TwoWays(order[1], a, c, b);
    var v := Turn(t, order, 1);
    OldComesLast(v, a, b, c);
    ZeroReads(Merged(v, 1, 0), q[2], a);
    NoWraps(order);
    WrittenExact(t, order, 0);
  }

  // Decided by the order.

  function OrderOf(one: Level, q: Level): (order: Order)
    ensures order[1] == one && order[2] == q && forall k :: 3 <= k <= 30 ==> order[k] == []
  {
    seq(31, k => if k == 1 then one else if k == 2 then q else [])
  }

  lemma {:induction false} StillTable(t: Table, order: Order, len: nat)
    requires |t| == 33 && len <= 30 && forall k :: len < k <= 30 ==> t[k] == [] && order[k] == []
    ensures TableAt(t, order, len) == t
    decreases 30 - len
  {
    if len < 30 {
      StillTable(t, order, len + 1);
      assert t[len + 1 := []] == t;
    }
  }

  lemma OrderReaches(t: Table, q: Level, b: Route, one: Level)
    requires Setup(t, q, b)
    ensures TableAt(t, OrderOf(one, q), 2) == t && TableAt(t, OrderOf(one, q), 1) == MergeAt(t, 2, 0)
    ensures SortedAbove(t, OrderOf(one, q), 1)
  {
    var order := OrderOf(one, q);
    StillTable(t, order, 2);
    assert t[2 := q] == t;
    MergeTwo(t, q, b);
    forall k | 1 < k <= 30 ensures IsSort(order[k], TableAt(t, order, k)[k]) {
      StillTable(t, order, k);
      assert k >= 3 ==> t[k] == [];
    }
  }

  lemma EitherOrder(a: Route, b: Route, level: Level)
    requires a.base == b.base && (level == [a, b] || level == [b, a])
    ensures IsSort(level, [a, b])
  {
    assert [a, b] == [a] + [b] && [b, a] == [b] + [a];
    assert multiset([a] + [b]) == multiset([a]) + multiset([b]);
    assert multiset([b] + [a]) == multiset([b]) + multiset([a]);
  }

  /** Both orders of the two routes at level 1 are sorted, and the loops as written reach their end. */
  lemma BothReached(t: Table, q: Level, a: Route, b: Route, one: Level)
    requires Setup(t, q, b) && t[1] == [a] && a.base == b.base && (one == [a, b] || one == [b, a])
    ensures SortedAbove(t, OrderOf(one, q), 0) && Aggregated(t, OrderOf(one, q)) == MergeAt(t, 2, 0)[1 := one]
    ensures WrittenAt(t, OrderOf(one, q), 0) == Done(Aggregated(t, OrderOf(one, q)))
  {
    var order := OrderOf(one, q);
    OrderReaches(t, q, b, one);
    MergeTwo(t, q, b);
    EitherOrder(a, b, one);
    assert [a] + [b] == [a, b];
    assert IsSort(order[1], TableAt(t, order, 1)[1]);
    assert SortedAbove(t, order, 0);
    var v := Turn(t, order, 1);
    SameBaseNoSiblings(v[1][0], v[1][1]);
    assert Merged(v, 1, 0) == Merged(v, 1, 1) == v;
    NoWraps(order);
    WrittenExact(t, order, 0);
  }

  lemma MergedLast(t: Table, q: Level, a: Route, b: Route)
    requires Setup(t, q, b) && CanonicalTable(t) && t[1] == [a]
    ensures SameReading(t, MergeAt(t, 2, 0)[1 := [a, b]])
  {
    MergeTwo(t, q, b);
    MergeReadsExact(t, 2, 0);
    assert [a] + [b] == [a, b];
    assert MergeAt(t, 2, 0)[1 := [a, b]] == MergeAt(t, 2, 0);
  }

  lemma OldLast(t: Table, q: Level, a: Route, b: Route)
    requires Setup(t, q, b) && q[2].base[0] && a.base[..1] == [false]
    ensures HopRead(MergeAt(t, 2, 0)[1 := [b, a]], ZERO) == Some(HopOf(a))
  {
    MergeTwo(t, q, b);
    assert [b, a] == [b] + [a];
    LastAppend([b], a, [false]);
    ZeroReads(MergeAt(t, 2, 0)[1 := [b, a]], q[2], a);
  }

  lemma Decided(t: Table, q: Level, a: Route, b: Route)
    requires Setup(t, q, b) && CanonicalTable(t) && t[1] == [a] && a.base == b.base && HopRead(t, ZERO) != Some(HopOf(a))
    requires q[2].base[0] && a.base[..1] == [false]
    ensures var good, bad := OrderOf([a, b], q), OrderOf([b, a], q);
            && SortedAbove(t, good, 0) && SameReading(t, Aggregated(t, good))
            && SortedAbove(t, bad, 0) && !SameReading(t, Aggregated(t, bad))
            && WrittenAt(t, good, 0) == Done(Aggregated(t, good)) && WrittenAt(t, bad, 0) == Done(Aggregated(t, bad))
  {
    BothReached(t, q, a, b, [a, b]);
    BothReached(t, q, a, b, [b, a]);
    MergedLast(t, q, a, b);
    OldLast(t, q, a, b);
    assert HopRead(t, ZERO) != HopRead(Aggregated(t, OrderOf([b, a], q)), ZERO);
  }

  // The tables.

  /** 0.0.0.0/2 and 64.0.0.0/2 through one gateway, 192.0.0.0/2 through another. */
  function Quarters(): (level: Level) {
    [To([false, false], GatewayB(), 1, 1), To([false, true], GatewayB(), 1, 1), To([true, true], GatewayC(), 1, 2)]
  }

  function HalfA(): Route { To([false], GatewayA(), 1, 0) }

  /** What the first two quarters are merged into. */
  function HalfB(): Route { To([false], GatewayB(), 1, 1) }

  function UpperB(): Route { To([true], GatewayB(), 1, 1) }

  lemma QuartersAscend()
    ensures StrictlyAscending(Quarters())
  {
    var a, b, c := Pad([false, false]), Pad([false, true]), Pad([true, true]);
    assert a[..1] == b[..1];
    ValueLess(a, b, 1);
    ValueLess(b, c, 0);
    ValueLess(a, c, 0);
  }

  lemma StrictDistinct(q: Level)
    requires StrictlyAscending(q)
    ensures Distinct(q)
  {
    forall i, j | 0 <= i < j < |q| ensures q[i].base != q[j].base {
      assert Value(q[i].base) < Value(q[j].base);
    }
    DistinctBases(q);
  }

  lemma QuarterSiblings()
    ensures Siblings(Quarters()[0], Quarters()[1], 2) && ParentOf(Quarters()[0], 2) == HalfB()
  {
    var a, b := Pad([false, false]), Pad([false, true]);
    assert a[..1] == b[..1] && a[2..] == b[2..];
    XorIsOneBit(a, b, 30);
    assert And(a, Not(OneShl(30))) == Pad([false]);
  }

  lemma QuartersSetup(one: Level)
    requires AllCanonical(one, 1) && Distinct(one)
    ensures WellFormed(Levels([], one, Quarters())) && Setup(Levels([], one, Quarters()), Quarters(), HalfB())
    ensures Quarters()[2].base[0]
  {
    QuartersOk();
    QuarterSiblings();
    LevelsOk([], one, Quarters());
  }

  lemma QuartersOk()
    ensures AllCanonical(Quarters(), 2) && Distinct(Quarters()) && StrictlyAscending(Quarters())
  {
    QuartersAscend();
    StrictDistinct(Quarters());
  }

  lemma ReadsQuarter(t: Table)
    requires |t| == 33 && t[2] == Quarters() && forall k :: 3 <= k < 33 ==> t[k] == []
    ensures HopRead(t, ZERO) == Some(Hop(GatewayB(), 1))
  {
    var p, q := ZERO[..2], Quarters();
    assert p == [false, false];
    assert q == [q[0]] + [q[1]] + [q[2]];
    assert q[1].base[..2][1] && q[2].base[..2][0];
    LastAppend([q[0]] + [q[1]], q[2], p);
    LastAppend([q[0]], q[1], p);
    LastOne(q[0], p);
    assert Hit(t, ZERO, 2) && Left(t, ZERO, 2);
    ReadAt(t, ZERO, 2);
  }

  lemma HalvesCover()
    ensures Covers(HalfA(), HalfB(), UpperB()) && AllCanonical([HalfA(), UpperB()], 1) && Distinct([HalfA(), UpperB()])
  {
    GatewaysDiffer();
    var a, b := HalfB().base, UpperB().base;
    assert a[..0] == b[..0] && a[1..] == b[1..];
    XorIsOneBit(a, b, 31);
    assert b[0] && !a[0];
    ValueLess(a, b, 0);
  }

  /** The lower half goes to A, the upper to B; two quarters that go to B cover the lower half. However
      the levels are sorted, the loops as written run to their end on this table, and the trie then
      sends address zero to A instead of B. */
  lemma CoveredRouteIsLost() returns (t: Table)
    ensures WellFormed(t) && HopRead(t, ZERO) == Some(Hop(GatewayB(), 1))
    ensures forall order :: SortedAbove(t, order, 0) ==>
              && WrittenAt(t, order, 0) == Done(Aggregated(t, order))
              && HopRead(Aggregated(t, order), ZERO) == Some(Hop(GatewayA(), 1))
    ensures GatewayA() != GatewayB()
  {
    GatewaysDiffer();
    HalvesCover();
    t := Levels([], [HalfA(), UpperB()], Quarters());
    QuartersSetup(t[1]);
    ReadsQuarter(t);
    forall order | SortedAbove(t, order, 0)
      ensures WrittenAt(t, order, 0) == Done(Aggregated(t, order))
      ensures HopRead(Aggregated(t, order), ZERO) == Some(Hop(GatewayA(), 1))
    {
      LostAtZero(t, Quarters(), HalfA(), HalfB(), UpperB(), order);
    }
  }

  /** The same table, sorted in two ways the sort may choose between: one outcome gives every answer of
      the table, the other does not. */
  lemma OrderDecides() returns (t: Table, good: Order, bad: Order)
    ensures WellFormed(t) && SortedAbove(t, good, 0) && SortedAbove(t, bad, 0)
    ensures SameReading(t, Aggregated(t, good)) && !SameReading(t, Aggregated(t, bad))
    ensures WrittenAt(t, good, 0) == Done(Aggregated(t, good)) && WrittenAt(t, bad, 0) == Done(Aggregated(t, bad))
  {
    GatewaysDiffer();
    HalvesCover();
    var a, b, q := HalfA(), HalfB(), Quarters();
    t, good, bad := Levels([], [a], q), OrderOf([a, b], q), OrderOf([b, a], q);
    QuartersSetup([a]);
    ReadsQuarter(t);
    Decided(t, q, a, b);
  }
}
