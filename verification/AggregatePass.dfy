/** The whole aggregation pass as a function of the table and of the order in which each level was
    sorted, and the loop exactly as written, whose guard can wrap (src/routingTable.cpp). */
module AggregatePass {
  import opened Words
  import opened Rib
  import opened Routes
  import opened Aggregation

  /** The inner loop from position `i` on, under the guard `i+1 < size`. */
  function Merged(t: Table, len: nat, i: nat): (u: Table)
    requires |t| == 33 && 1 <= len <= 30
    ensures |u| == 33
    decreases |t[len]| - i
  {
    if i + 1 >= |t[len]| then t
    else if Siblings(t[len][i], t[len][i + 1], len) then Merged(MergeAt(t, len, i), len, i + 1)
    else Merged(t, len, i + 1)
  }

  /** How many merges that loop makes. */
  function MergesIn(t: Table, len: nat, i: nat): nat
    requires |t| == 33 && 1 <= len <= 30
    decreases |t[len]| - i
  {
    if i + 1 >= |t[len]| then 0
    else if Siblings(t[len][i], t[len][i + 1], len) then 1 + MergesIn(MergeAt(t, len, i), len, i + 1)
    else MergesIn(t, len, i + 1)
  }

  /** Sorting a level puts its routes into ascending order; which of two routes with the same base
      comes first is not determined. */
  ghost predicate IsSort(sorted: Level, level: Level) {
    multiset(sorted) == multiset(level) && Ascending(sorted)
  }

  /** What the sort made of each level, 1 to 30, when its turn came. */
  type Order = s: seq<Level> | |s| == 31 witness seq(31, _ => [])

  /** The table before the turn of level `len`; levels are handled from 30 down. */
  function TableAt(t: Table, order: Order, len: nat): (u: Table)
    requires |t| == 33 && len <= 30
    ensures |u| == 33
    decreases 30 - len, 0
  {
    if len == 30 then t else Merged(Turn(t, order, len + 1), len + 1, 0)
  }

  /** The same, with the level sorted. */
  function Turn(t: Table, order: Order, len: nat): (u: Table)
    requires |t| == 33 && len <= 30
    ensures |u| == 33
    decreases 30 - len, 1
  {
    TableAt(t, order, len)[len := order[len]]
  }

  /** The table when the pass is over. */
  function Aggregated(t: Table, order: Order): Table
    requires |t| == 33
  {
    TableAt(t, order, 0)
  }

  function Merges(t: Table, order: Order, len: nat): nat
    requires |t| == 33 && len <= 30
    decreases 30 - len
  {
    if len == 30 then 0 else Merges(t, order, len + 1) + MergesIn(Turn(t, order, len + 1), len + 1, 0)
  }

  /** The order is one the sort can have produced, for the levels above `from`. */
  ghost predicate SortedAbove(t: Table, order: Order, from: nat)
    requires |t| == 33
  {
    forall len {:trigger order[len]} :: from < len <= 30 ==> IsSort(order[len], TableAt(t, order, len)[len])
  }

  /** An order chosen later does not change what went before. */
  lemma {:induction false} EarlierTurns(t: Table, order: Order, k: nat, level: Level, len: nat)
    requires |t| == 33 && k <= len <= 30
    ensures TableAt(t, order[k := level], len) == TableAt(t, order, len)
    decreases 30 - len
  {
    if len < 30 {
      EarlierTurns(t, order, k, level, len + 1);
    }
  }

  lemma SortedStep(t: Table, order: Order, len: nat, sorted: Level)
    requires |t| == 33 && 1 <= len <= 30 && SortedAbove(t, order, len) && IsSort(sorted, TableAt(t, order, len)[len])
    ensures SortedAbove(t, order[len := sorted], len - 1)
    ensures TableAt(t, order[len := sorted], len - 1) == Merged(TableAt(t, order, len)[len := sorted], len, 0)
  {
    var o := order[len := sorted];
    forall k | len - 1 < k <= 30 ensures IsSort(o[k], TableAt(t, o, k)[k]) {
      EarlierTurns(t, order, len, sorted, k);
      assert k > len ==> o[k] == order[k];
    }
    EarlierTurns(t, order, len, sorted, len);
  }

  // What one level keeps.

  lemma {:induction false} MergedFrame(t: Table, len: nat, i: nat)
    requires |t| == 33 && 1 <= len <= 30 && Ascending(t[len])
    ensures Ascending(Merged(t, len, i)[len])
    ensures forall k :: 0 <= k < 33 && k != len && k != len - 1 ==> Merged(t, len, i)[k] == t[k]
    decreases |t[len]| - i
  {
    if i + 1 < |t[len]| {
      if Siblings(t[len][i], t[len][i + 1], len) {
        WithoutAscending(t[len], i);
        MergedFrame(MergeAt(t, len, i), len, i + 1);
      } else {
        MergedFrame(t, len, i + 1);
      }
    }
  }

  lemma {:induction false} MergedTotal(t: Table, len: nat, i: nat)
    requires |t| == 33 && 1 <= len <= 30
    ensures Total(Merged(t, len, i)) + MergesIn(t, len, i) == Total(t)
    decreases |t[len]| - i
  {
    if i + 1 < |t[len]| {
      if Siblings(t[len][i], t[len][i + 1], len) {
        MergeAtTotal(t, len, i);
        MergedTotal(MergeAt(t, len, i), len, i + 1);
      } else {
        MergedTotal(t, len, i + 1);
      }
    }
  }

  /** Whatever the table: canonical, the same addresses matched, the same hops. */
  lemma {:induction false} MergedCovers(t: Table, len: nat, i: nat)
    requires CanonicalTable(t) && 1 <= len <= 30
    ensures CanonicalTable(Merged(t, len, i)) && HopsOf(Merged(t, len, i)) == HopsOf(t)
    ensures SameCoverage(RibOf(t), RibOf(Merged(t, len, i)))
    decreases |t[len]| - i
  {
    if i + 1 < |t[len]| {
      if Siblings(t[len][i], t[len][i + 1], len) {
        MergeAtCovers(t, len, i);
        MergedCovers(MergeAt(t, len, i), len, i + 1);
      } else {
        MergedCovers(t, len, i + 1);
      }
    }
  }

  lemma {:induction false} MergedPreserved(before: Table, t: Table, len: nat, i: nat)
    requires CanonicalTable(before) && Preserved(before, t) && 1 <= len <= 30
    ensures Preserved(before, Merged(t, len, i))
    decreases |t[len]| - i
  {
    if i + 1 < |t[len]| {
      if Siblings(t[len][i], t[len][i + 1], len) {
        MergeAtPreserved(before, t, len, i);
        MergedPreserved(before, MergeAt(t, len, i), len, i + 1);
      } else {
        MergedPreserved(before, t, len, i + 1);
      }
    }
  }

  // What the pass keeps.

  lemma {:induction false} PassTotal(t: Table, order: Order, len: nat)
    requires |t| == 33 && len <= 30 && SortedAbove(t, order, len)
    ensures Total(TableAt(t, order, len)) + Merges(t, order, len) == Total(t)
    decreases 30 - len
  {
    if len < 30 {
      PassTotal(t, order, len + 1);
      var u := TableAt(t, order, len + 1);
      TotalUpdate(u, len + 1, order[len + 1]);
      assert |order[len + 1]| == |multiset(order[len + 1])| == |u[len + 1]|;
      MergedTotal(Turn(t, order, len + 1), len + 1, 0);
    }
  }

  /** For every table: routes stay canonical, the same addresses are matched, hops stay. */
  lemma {:induction false} PassCovers(t: Table, order: Order, len: nat)
    requires CanonicalTable(t) && len <= 30 && SortedAbove(t, order, len)
    ensures CanonicalTable(TableAt(t, order, len)) && HopsOf(TableAt(t, order, len)) == HopsOf(t)
    ensures SameCoverage(RibOf(t), RibOf(TableAt(t, order, len)))
    decreases 30 - len
  {
    if len < 30 {
      PassCovers(t, order, len + 1);
      Rearranged(TableAt(t, order, len + 1), len + 1, order[len + 1]);
      MergedCovers(Turn(t, order, len + 1), len + 1, 0);
    }
  }

  /** Levels above the current one are sorted, 31 and 32 untouched. */
  lemma {:induction false} PassLevels(t: Table, order: Order, len: nat)
    requires |t| == 33 && len <= 30 && SortedAbove(t, order, len)
    ensures forall k :: len < k <= 30 ==> Ascending(TableAt(t, order, len)[k])
    ensures TableAt(t, order, len)[31] == t[31] && TableAt(t, order, len)[32] == t[32]
    decreases 30 - len
  {
    if len < 30 {
      PassLevels(t, order, len + 1);
      assert IsSort(order[len + 1], TableAt(t, order, len + 1)[len + 1]);
      MergedFrame(Turn(t, order, len + 1), len + 1, 0);
    }
  }

  /** With no covered route every answer stays the same through all levels. */
  lemma {:induction false} PassPreserved(t: Table, order: Order, len: nat)
    requires WellFormed(t) && NoneCovered(RibOf(t)) && len <= 30 && SortedAbove(t, order, len)
    ensures Preserved(t, TableAt(t, order, len))
    decreases 30 - len
  {
    if len < 30 {
      PassPreserved(t, order, len + 1);
      Rearranged(TableAt(t, order, len + 1), len + 1, order[len + 1]);
      MergedPreserved(t, Turn(t, order, len + 1), len + 1, 0);
    }
  }

  /** Two strictly ascending arrangements of the same routes are the same. */
  lemma {:induction false} SortUnique(a: Level, b: Level)
    requires |a| == |b| && (forall r :: r in a <==> r in b) && StrictlyAscending(a) && StrictlyAscending(b)
    ensures a == b
  {
    if a != [] {
      var k := |a| - 1;
      SameLast(a, b);
      FrontMembers(a);
      FrontMembers(b);
      forall r ensures r in a[..k] <==> r in b[..k] {
        assert r in a <==> r in b;
      }
      SortUnique(a[..k], b[..k]);
      assert a == a[..k] + [a[k]] && b == b[..k] + [b[k]];
    }
  }

  lemma SameLast(a: Level, b: Level)
    requires 0 < |a| == |b| && (forall r :: r in a <==> r in b) && StrictlyAscending(a) && StrictlyAscending(b)
    ensures a[|a| - 1] == b[|b| - 1]
  {
    var k := |a| - 1;
    assert a[k] in b && b[k] in a;
    var i :| 0 <= i < |b| && b[i] == a[k];
    var j :| 0 <= j < |a| && a[j] == b[k];
  }

  lemma FrontMembers(a: Level)
    requires a != [] && StrictlyAscending(a)
    ensures StrictlyAscending(a[..|a| - 1])
    ensures forall r :: r in a[..|a| - 1] <==> r in a && r != a[|a| - 1]
  {
    assert a == a[..|a| - 1] + [a[|a| - 1]];
  }

  /** A level with distinct bases can be sorted in one way only. */
  lemma SortDetermined(level: Level, a: Level, b: Level)
    requires Distinct(level) && IsSort(a, level) && IsSort(b, level)
    ensures a == b
  {
    SortStrict(level, a);
    SortStrict(level, b);
    assert |a| == |multiset(a)| == |b|;
    SortUnique(a, b);
  }

  lemma SortStrict(level: Level, a: Level)
    requires Distinct(level) && IsSort(a, level)
    ensures StrictlyAscending(a) && forall r :: r in a <==> r in level
  {
    assert forall r :: r in a <==> r in multiset(a);
    assert forall r :: r in level <==> r in multiset(level);
    AscendingStrict(a);
  }

  /** With no covered route the sort has no choice, and the pass has one outcome. */
  lemma {:induction false} OneOutcome(t: Table, o: Order, p: Order, len: nat)
    requires WellFormed(t) && NoneCovered(RibOf(t)) && len <= 30 && SortedAbove(t, o, len) && SortedAbove(t, p, len)
    ensures TableAt(t, o, len) == TableAt(t, p, len)
    decreases 30 - len
  {
    if len < 30 {
      OneOutcome(t, o, p, len + 1);
      DistinctAt(t, o, len + 1);
      SortDetermined(TableAt(t, o, len + 1)[len + 1], o[len + 1], p[len + 1]);
      assert Turn(t, o, len + 1) == Turn(t, p, len + 1);
    }
  }

  lemma DistinctAt(t: Table, order: Order, len: nat)
    requires WellFormed(t) && NoneCovered(RibOf(t)) && len <= 30 && SortedAbove(t, order, len)
    ensures Distinct(TableAt(t, order, len)[len])
  {
    PassPreserved(t, order, len);
  }

  // The loop as written.

  /** The outcome of a loop that can read past the end of a level. */
  datatype Pass = Done(table: Table) | OutOfBounds

  /** The guard `i < size()-1`: with size zero the unsigned subtraction wraps and it holds. */
  predicate WrittenGuard(i: nat, size: nat) {
    size == 0 || i + 1 < size
  }

  /** In unsigned arithmetic of any width that holds the numbers, that is what the guard means,
      and it differs from `i+1 < size` exactly on empty levels. */
  lemma WrittenGuardExact(i: nat, size: nat, modulus: nat)
    requires size < modulus && i + 1 < modulus
    ensures i < (size + modulus - 1) % modulus <==> WrittenGuard(i, size)
    ensures (i < (size + modulus - 1) % modulus <==> i + 1 < size) <==> size != 0
  {
    if size == 0 {
      assert (size + modulus - 1) % modulus == modulus - 1;
    } else {
      assert (size + modulus - 1) % modulus == size - 1;
    }
  }

  /** The inner loop under the guard as written. */
  function WrittenLevel(t: Table, len: nat, i: nat): (p: Pass)
    requires |t| == 33 && 1 <= len <= 30
    ensures p.Done? ==> |p.table| == 33
    decreases |t[len]| - i
  {
    if !WrittenGuard(i, |t[len]|) then Done(t)
    else if i + 1 >= |t[len]| then OutOfBounds
    else if Siblings(t[len][i], t[len][i + 1], len) then WrittenLevel(MergeAt(t, len, i), len, i + 1)
    else WrittenLevel(t, len, i + 1)
  }

  /** The pass as written, before the turn of level `len`. */
  function WrittenAt(t: Table, order: Order, len: nat): (p: Pass)
    requires |t| == 33 && len <= 30
    ensures p.Done? ==> |p.table| == 33
    decreases 30 - len
  {
    if len == 30 then Done(t)
    else
      match WrittenAt(t, order, len + 1)
      case OutOfBounds => OutOfBounds
      case Done(u) =>
        var sorted := u[len + 1 := order[len + 1]];
        if |order[len + 1]| < 2 then Done(sorted) else WrittenLevel(sorted, len + 1, 0)
  }

  /** A level of exactly two routes, which are siblings. */
  predicate TwoSiblings(level: Level, len: nat)
    requires 1 <= len <= 30
  {
    |level| == 2 && Siblings(level[0], level[1], len)
  }

  /** The levels that are two siblings when their turn comes. */
  ghost function Wraps(order: Order, from: nat): set<nat> {
    set len | from < len <= 30 && TwoSiblings(order[len], len)
  }

  lemma {:induction false} WrittenFrom(t: Table, len: nat, i: nat)
    requires |t| == 33 && 1 <= len <= 30 && t[len] != []
    ensures WrittenLevel(t, len, i) == if i == 0 && TwoSiblings(t[len], len) then OutOfBounds else Done(Merged(t, len, i))
    decreases |t[len]| - i
  {
    if i + 1 < |t[len]| {
      if Siblings(t[len][i], t[len][i + 1], len) {
        var u := MergeAt(t, len, i);
        if u[len] != [] {
          WrittenFrom(u, len, i + 1);
        }
      } else {
        WrittenFrom(t, len, i + 1);
      }
    }
  }

  /** The loops as written read past the end of a level exactly when some level is two siblings
      when its turn comes; otherwise they compute the aggregated table. */
  lemma {:induction false} WrittenExact(t: Table, order: Order, len: nat)
    requires |t| == 33 && len <= 30
    ensures WrittenAt(t, order, len) == if Wraps(order, len) == {} then Done(TableAt(t, order, len)) else OutOfBounds
    decreases 30 - len
  {
    if len < 30 {
      WrittenExact(t, order, len + 1);
      WrapsNext(order, len);
      if Wraps(order, len + 1) == {} && |order[len + 1]| >= 2 {
        WrittenFrom(Turn(t, order, len + 1), len + 1, 0);
      }
    }
  }

  lemma WrapsNext(order: Order, len: nat)
    requires len < 30
    ensures Wraps(order, len) == {} <==> Wraps(order, len + 1) == {} && !TwoSiblings(order[len + 1], len + 1)
  {
    forall k | k in Wraps(order, len + 1) ensures k in Wraps(order, len) {
    }
    assert TwoSiblings(order[len + 1], len + 1) ==> len + 1 in Wraps(order, len);
    assert forall k :: k in Wraps(order, len) ==> k in Wraps(order, len + 1) || k == len + 1;
  }
}
