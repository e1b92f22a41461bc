/** The outcome of aggregation in closed form: which routes of each sorted level are left, and which
    are added one level up (src/routingTable.cpp). */
module AggregateExact {
  import opened Words
  import opened Rib
  import opened Routes
  import opened Aggregation
  import opened AggregatePass
  import opened AggregateReading

  /** Two prefixes of length `len` that differ in their last bit only, with the same hop. */
  ghost predicate Pair(first: Route, second: Route, len: nat)
    requires 1 <= len <= 32
  {
    && first.base[..len - 1] == second.base[..len - 1] && first.base[len - 1] != second.base[len - 1]
    && HopOf(first) == HopOf(second)
  }

  /** The route one bit shorter. */
  ghost function Shorter(r: Route, len: nat): Route
    requires 1 <= len <= 32
  {
    Route(Pad(r.base[..len - 1]), r.nextHop, len - 1, r.iface, r.index)
  }

  /** What is left of a sorted level: a pair goes, and the route behind it stays unexamined. */
  ghost function Kept(s: Level, len: nat): Level
    requires 1 <= len <= 32
  {
    if |s| < 2 then s
    else if !Pair(s[0], s[1], len) then [s[0]] + Kept(s[1..], len)
    else if |s| == 2 then []
    else [s[2]] + Kept(s[3..], len)
  }

  /** What is added to the level above. */
  ghost function Parents(s: Level, len: nat): Level
    requires 1 <= len <= 32
  {
    if |s| < 2 then []
    else if !Pair(s[0], s[1], len) then Parents(s[1..], len)
    else [Shorter(s[0], len)] + if |s| == 2 then [] else Parents(s[3..], len)
  }

  /** The test of the code on the words is the test on the prefixes. */
  lemma SiblingsExact(first: Route, second: Route, len: nat)
    requires 1 <= len <= 30 && Canonical(first, len) && Canonical(second, len)
    ensures Siblings(first, second, len) <==> Pair(first, second, len)
  {
    XorIsOneBit(first.base, second.base, 32 - len);
    TailIsZero(first, len);
    TailIsZero(second, len);
  }

  lemma TailIsZero(r: Route, len: nat)
    requires Canonical(r, len)
    ensures r.base[len..] == Zeros(32 - len)
  {
    assert Pad(r.base[..len])[len..] == Zeros(32 - len);
  }

  lemma ParentExact(r: Route, len: nat)
    requires 1 <= len <= 30 && Canonical(r, len)
    ensures ParentOf(r, len) == Shorter(r, len)
  {
    ParentCanonical(r, len);
  }

  lemma AllCanonicalRest(level: Level, i: nat, len: nat)
    requires i + 1 < |level| && AllCanonical(level, len)
    ensures AllCanonical(Without(level, i), len)
  {
    forall r | r in Without(level, i) ensures Canonical(r, len) {
      WithoutRest(level, i, r);
    }
  }

  lemma Regroup(a: Level, r: Route, b: Level)
    ensures a + [r] + b == a + ([r] + b)
  {
  }

  /** The inner loop that erases in place does what the closed form says. */
  lemma {:induction false} MergedExact(t: Table, len: nat, i: nat)
    requires |t| == 33 && 1 <= len <= 30 && i <= |t[len]| && AllCanonical(t[len], len)
    ensures Merged(t, len, i)[len] == t[len][..i] + Kept(t[len][i..], len)
    ensures Merged(t, len, i)[len - 1] == t[len - 1] + Parents(t[len][i..], len)
    decreases |t[len]| - i
  {
    var level := t[len];
    var s := level[i..];
    if i + 1 < |level| {
      assert level[i] in level && level[i + 1] in level && s[0] == level[i] && s[1] == level[i + 1];
      SiblingsExact(level[i], level[i + 1], len);
      ParentExact(level[i], len);
      if Siblings(level[i], level[i + 1], len) {
        MergedHere(t, len, i);
      } else {
        MergedExact(t, len, i + 1);
        assert s[1..] == level[i + 1..] && level[..i + 1] == level[..i] + [s[0]];
        Regroup(level[..i], s[0], Kept(s[1..], len));
      }
    } else {
      assert level == level[..i] + s;
    }
  }

  lemma {:induction false} MergedHere(t: Table, len: nat, i: nat)
    requires |t| == 33 && 1 <= len <= 30 && i + 1 < |t[len]| && AllCanonical(t[len], len)
    requires Siblings(t[len][i], t[len][i + 1], len) && Pair(t[len][i], t[len][i + 1], len)
    requires ParentOf(t[len][i], len) == Shorter(t[len][i], len)
    ensures Merged(t, len, i)[len] == t[len][..i] + Kept(t[len][i..], len)
    ensures Merged(t, len, i)[len - 1] == t[len - 1] + Parents(t[len][i..], len)
    decreases |t[len]| - i, 0
  {
    var level, u := t[len], MergeAt(t, len, i);
    var s, w := level[i..], Without(level, i);
    assert Merged(t, len, i) == Merged(u, len, i + 1);
    assert u[len] == w && u[len - 1] == t[len - 1] + [Shorter(s[0], len)];
    BehindPair(level, i);
    if |level| == i + 2 {
      LastPair(s, len);
    } else {
      AllCanonicalRest(level, i, len);
      MergedExact(u, len, i + 1);
      FirstPair(s, len);
      Regroup(level[..i], s[2], Kept(s[3..], len));
      Regroup(t[len - 1], Shorter(s[0], len), Parents(s[3..], len));
    }
  }

  lemma LastPair(s: Level, len: nat)
    requires 1 <= len <= 32 && |s| == 2 && Pair(s[0], s[1], len)
    ensures Kept(s, len) == [] && Parents(s, len) == [Shorter(s[0], len)]
  {
  }

  lemma FirstPair(s: Level, len: nat)
    requires 1 <= len <= 32 && |s| > 2 && Pair(s[0], s[1], len)
    ensures Kept(s, len) == [s[2]] + Kept(s[3..], len)
    ensures Parents(s, len) == [Shorter(s[0], len)] + Parents(s[3..], len)
  {
  }

  lemma BehindPair(level: Level, i: nat)
    requires i + 1 < |level|
    ensures |level| == i + 2 ==> Without(level, i) == level[..i]
    ensures |level| > i + 2 ==>
              Without(level, i)[i + 1..] == level[i..][3..] && Without(level, i)[..i + 1] == level[..i] + [level[i..][2]]
  {
  }

  /** What is sorted in the turn of a level: its routes, and the parents from the level below. */
  ghost predicate Sorts(t: Table, order: Order, len: nat)
    requires |t| == 33 && 1 <= len <= 30
  {
    IsSort(order[len], if len == 30 then t[len] else t[len] + Parents(order[len + 1], len + 1))
  }

  /** What is left in the end. */
  ghost predicate Leaves(order: Order, u: Table, len: nat)
    requires |u| == 33 && 1 <= len <= 30
  {
    u[len] == Kept(order[len], len)
  }

  /** The whole pass: what each sorted level is made of, and what is left of it in the end. */
  ghost predicate AggregatedAs(t: Table, order: Order, u: Table)
    requires |t| == 33 && |u| == 33
  {
    && (forall len {:trigger Sorts(t, order, len)} :: 1 <= len <= 30 ==> Sorts(t, order, len))
    && (forall len {:trigger Leaves(order, u, len)} :: 1 <= len <= 30 ==> Leaves(order, u, len))
    && u[0] == t[0] + Parents(order[1], 1) && u[31] == t[31] && u[32] == t[32]
  }

  /** Levels below the current one are as in the beginning, but for what the last turn added. */
  lemma {:induction false} NotYetReached(t: Table, order: Order, len: nat, k: nat)
    requires |t| == 33 && k < len <= 30 && SortedAbove(t, order, len)
    ensures TableAt(t, order, len)[k] == t[k]
    decreases 30 - len
  {
    if len < 30 {
      NotYetReached(t, order, len + 1, k);
      assert IsSort(order[len + 1], TableAt(t, order, len + 1)[len + 1]);
      MergedFrame(Turn(t, order, len + 1), len + 1, 0);
    }
  }

  /** One turn in closed form. */
  lemma TurnExact(t: Table, order: Order, len: nat)
    requires CanonicalTable(t) && 1 <= len <= 30 && SortedAbove(t, order, len - 1)
    ensures TableAt(t, order, len - 1)[len] == Kept(order[len], len)
    ensures TableAt(t, order, len - 1)[len - 1] == t[len - 1] + Parents(order[len], len)
  {
    assert order[len] == order[len] && IsSort(order[len], TableAt(t, order, len)[len]);
    assert SortedAbove(t, order, len);
    PassCovers(t, order, len);
    Rearranged(TableAt(t, order, len), len, order[len]);
    MergedExact(Turn(t, order, len), len, 0);
    assert order[len][0..] == order[len] && order[len][..0] == [];
    NotYetReached(t, order, len, len - 1);
  }

  /** The pass computes the closed form. */
  lemma AggregateClosed(t: Table, order: Order)
    requires CanonicalTable(t) && SortedAbove(t, order, 0)
    ensures AggregatedAs(t, order, Aggregated(t, order))
  {
    forall len | 1 <= len <= 30 ensures Leaves(order, Aggregated(t, order), len) {
      TurnExact(t, order, len);
      LevelFinal(t, order, len - 1, len);
    }
    forall len | 1 <= len <= 30 ensures Sorts(t, order, len) {
      assert IsSort(order[len], TableAt(t, order, len)[len]);
      if len < 30 {
        TurnExact(t, order, len + 1);
      }
    }
    TurnExact(t, order, 1);
    PassLevels(t, order, 0);
  }

  /** Some sorted level is one pair and nothing else. */
  ghost predicate SomeLevelIsPair(order: Order) {
    exists len :: 1 <= len <= 30 && |order[len]| == 2 && Pair(order[len][0], order[len][1], len)
  }

  /** The loops as written read past the end of a level exactly when some sorted level is one pair. */
  lemma WrapsExact(t: Table, order: Order)
    requires CanonicalTable(t) && SortedAbove(t, order, 0)
    ensures WrittenAt(t, order, 0) == if SomeLevelIsPair(order) then OutOfBounds else Done(Aggregated(t, order))
  {
    WrittenExact(t, order, 0);
    forall len | 1 <= len <= 30 && |order[len]| == 2
      ensures Siblings(order[len][0], order[len][1], len) <==> Pair(order[len][0], order[len][1], len)
    {
      assert SortedAbove(t, order, len) && IsSort(order[len], TableAt(t, order, len)[len]);
      PassCovers(t, order, len);
      Rearranged(TableAt(t, order, len), len, order[len]);
      var u := TableAt(t, order, len)[len := order[len]];
      assert u[len][0] in u[len] && u[len][1] in u[len];
      SiblingsExact(order[len][0], order[len][1], len);
    }
    if len :| 1 <= len <= 30 && |order[len]| == 2 && Pair(order[len][0], order[len][1], len) {
      assert len in Wraps(order, 0);
    }
    if len :| len in Wraps(order, 0) {
      assert TwoSiblings(order[len], len);
    }
  }
}
