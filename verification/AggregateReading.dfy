/** What the aggregation pass does to the answers of the trie on tables with covered routes, where a
    merged route can land beside an old one (src/routingTable.cpp). Appended last, it is the one
    that is read; the sort of its level may put the old one behind it. */
module AggregateReading {
  import opened Words
  import opened Rib
  import opened Routes
  import opened Reading
  import opened Aggregation
  import opened AggregatePass
  import opened AggregateGroups

  // One sort, one merge.

  /** At every prefix that is shown, the sort leaves a route with the same hop behind. */
  ghost predicate SortKeeps(t: Table, len: nat, sorted: Level)
    requires |t| == 33 && len <= 32
  {
    forall p :: |p| == len && Shown(t, p) && LastRoute(t[len], p).Some? ==>
      HopIn(LastRoute(sorted, p)) == HopIn(LastRoute(t[len], p))
  }

  lemma SameRoutes(level: Level, sorted: Level, p: Bits)
    requires |p| <= 32 && multiset(sorted) == multiset(level)
    ensures forall r :: r in level <==> r in sorted
    ensures LastRoute(sorted, p).Some? <==> LastRoute(level, p).Some?
  {
    assert forall r :: r in level <==> r in multiset(level);
    assert forall r :: r in sorted <==> r in multiset(sorted);
  }

  /** Sorting a level keeps the answers of the trie exactly when, of the routes with the same base
      that some address is left to, one with the same hop comes last again. */
  lemma SortReadsExact(t: Table, len: nat, sorted: Level)
    requires |t| == 33 && len <= 32 && multiset(sorted) == multiset(t[len])
    ensures SameReading(t, t[len := sorted]) <==> SortKeeps(t, len, sorted)
  {
    var u := t[len := sorted];
    if SortKeeps(t, len, sorted) {
      forall a: Word ensures HopRead(t, a) == HopRead(u, a) {
        SortRead(t, len, sorted, a);
        assert a[..len] <= a;
      }
    }
    if SameReading(t, u) {
      forall p | |p| == len && Shown(t, p) && LastRoute(t[len], p).Some?
        ensures HopIn(LastRoute(sorted, p)) == HopIn(LastRoute(t[len], p))
      {
        var a: Word :| p <= a && Left(t, a, |p|);
        assert a[..len] == p;
        SortRead(t, len, sorted, a);
        assert HopRead(t, a) == HopRead(u, a);
      }
    }
  }

  /** What an address reads before and after a sort. */
  lemma SortRead(t: Table, len: nat, sorted: Level, a: Word)
    requires |t| == 33 && len <= 32 && multiset(sorted) == multiset(t[len])
    ensures var u := t[len := sorted];
            if Left(t, a, len) && Hit(t, a, len) then
              Read(t, a, 32) == LastRoute(t[len], a[..len]) && Read(u, a, 32) == LastRoute(sorted, a[..len])
            else Read(t, a, 32) == Read(u, a, 32)
  {
    var u := t[len := sorted];
    SameRoutes(t[len], sorted, a[..len]);
    ReadAbove(t, u, a, len);
    if Left(t, a, len) {
      if Hit(t, a, len) {
        ReadAt(t, a, len);
        ReadAt(u, a, len);
      } else {
        assert !Hit(t, a, len) && !Hit(u, a, len);
        ReadSame(t, u, a, 32);
      }
    }
  }

  /** The route before the first of two siblings has the same base and goes elsewhere. */
  predicate Unmasks(level: Level, i: nat)
    requires i < |level|
  {
    i > 0 && level[i - 1].base == level[i].base && HopOf(level[i - 1]) != HopOf(level[i])
  }

  lemma ZeroHalf(level: Level, len: nat, i: nat)
    requires 1 <= len <= 30 && AllCanonical(level, len) && Ascending(level) && i + 1 < |level|
    requires Siblings(level[i], level[i + 1], len)
    ensures var p := level[i].base[..len - 1] + [false];
            && LastRoute(level, p) == Some(level[i])
            && LastRoute(Without(level, i), p) ==
               if i > 0 && level[i - 1].base == level[i].base then Some(level[i - 1]) else None
  {
    var p := level[i].base[..len - 1] + [false];
    SiblingsAscend(level, len, i);
    NoneWith(level[i + 2..], p);
    LastWithPair(level, i, p);
    LastWithout(level, i, p);
    if i > 0 {
      LastUpTo(level, i - 1, p);
      if level[i - 1].base != level[i].base {
        NoneBefore(level, len, i);
      }
    }
  }

  /** Before a smaller base no route has the larger one's prefix. */
  lemma NoneBefore(level: Level, len: nat, i: nat)
    requires len <= 32 && AllCanonical(level, len) && Ascending(level) && 0 < i < |level| && level[i - 1].base != level[i].base
    ensures LastRoute(level[..i], level[i].base[..len]) == None
  {
    forall r | r in level[..i] ensures r.base[..len] != level[i].base[..len] {
      var j :| 0 <= j < i && level[j] == r;
      if r.base[..len] == level[i].base[..len] {
        assert r in level && level[i] in level;
        SameBase(r, level[i], len);
        ValueInjective(level[i - 1].base, level[i].base);
      }
    }
    NoneWith(level[..i], level[i].base[..len]);
  }

  lemma OneHalf(level: Level, len: nat, i: nat)
    requires 1 <= len <= 30 && AllCanonical(level, len) && Ascending(level) && i + 1 < |level|
    requires Siblings(level[i], level[i + 1], len)
    ensures var p := level[i].base[..len - 1] + [true];
            if LastRoute(Without(level, i), p).None? then LastRoute(level, p) == Some(level[i + 1])
            else LastRoute(Without(level, i), p) == LastRoute(level, p)
  {
    var p := level[i].base[..len - 1] + [true];
    SiblingsAscend(level, len, i);
    LastWithout(level, i, p);
    LastWithPair(level, i, p);
    NoneBefore(level, len, i + 1);
    LastUpTo(level, i, p);
  }

  /** An address in the zero half reads the first sibling, and then what it uncovers or the parent. */
  lemma ReadZero(t: Table, len: nat, i: nat, a: Word)
    requires CanonicalTable(t) && 1 <= len <= 30 && Ascending(t[len]) && i + 1 < |t[len]|
    requires Siblings(t[len][i], t[len][i + 1], len) && a[..len] == t[len][i].base[..len]
    requires Left(t, a, len) && Left(MergeAt(t, len, i), a, len)
    ensures HopRead(t, a) == Some(HopOf(t[len][i]))
    ensures HopRead(MergeAt(t, len, i), a) == Some(HopOf(t[len][if Unmasks(t[len], i) then i - 1 else i]))
  {
    var q := a[..len - 1];
    assert q == a[..len][..len - 1] == t[len][i].base[..len - 1];
    SiblingsAscend(t[len], len, i);
    LastMerged(t, len, i, q);
    ZeroHalf(t[len], len, i);
    ReadMoved(t, MergeAt(t, len, i), a, len);
  }

  /** An address in the other half reads on as before. */
  lemma ReadOne(t: Table, len: nat, i: nat, a: Word)
    requires CanonicalTable(t) && 1 <= len <= 30 && Ascending(t[len]) && i + 1 < |t[len]|
    requires Siblings(t[len][i], t[len][i + 1], len) && a[..len] == t[len][i + 1].base[..len]
    requires Left(t, a, len) && Left(MergeAt(t, len, i), a, len)
    ensures HopRead(t, a) == HopRead(MergeAt(t, len, i), a)
  {
    var q := a[..len - 1];
    SiblingsAscend(t[len], len, i);
    assert q == a[..len][..len - 1] == t[len][i].base[..len - 1];
    LastMerged(t, len, i, q);
    OneHalf(t[len], len, i);
    ReadMoved(t, MergeAt(t, len, i), a, len);
  }

  lemma ReadElsewhere(t: Table, len: nat, i: nat, a: Word)
    requires CanonicalTable(t) && 1 <= len <= 30 && Ascending(t[len]) && i + 1 < |t[len]|
    requires Siblings(t[len][i], t[len][i + 1], len) && a[..len - 1] != t[len][i].base[..len - 1]
    ensures Read(t, a, 32) == Read(MergeAt(t, len, i), a, 32)
  {
    MergeElsewhere(t, len, i, a[..len - 1]);
    ReadSameAt(t, MergeAt(t, len, i), len, a);
  }

  lemma ReadSameAt(t: Table, u: Table, len: nat, a: Word)
    requires |t| == 33 && |u| == 33 && 1 <= len <= 30 && SameAt(t, u, len, a[..len - 1])
    requires forall k :: 0 <= k < 33 && k != len && k != len - 1 ==> u[k] == t[k]
    ensures Read(t, a, 32) == Read(u, a, 32)
  {
    var q, p := a[..len - 1], a[..len];
    assert p == if a[len - 1] then q + [true] else q + [false];
    assert LastRoute(t[len], p) == LastRoute(u[len], p);
    forall k | 0 <= k <= 32 ensures LastRoute(t[k], a[..k]) == LastRoute(u[k], a[..k]) {
      assert k != len && k != len - 1 ==> u[k] == t[k];
    }
    ReadSame(t, u, a, 32);
  }

  /** What an address left to the level reads before and after a merge. */
  lemma MergeRead(t: Table, len: nat, i: nat, a: Word)
    requires CanonicalTable(t) && 1 <= len <= 30 && Ascending(t[len]) && i + 1 < |t[len]|
    requires Siblings(t[len][i], t[len][i + 1], len)
    ensures var u := MergeAt(t, len, i);
            if Left(t, a, len) && a[..len] == t[len][i].base[..len] && Unmasks(t[len], i) then
              HopRead(t, a) == Some(HopOf(t[len][i])) && HopRead(u, a) == Some(HopOf(t[len][i - 1]))
            else HopRead(t, a) == HopRead(u, a)
  {
    ReadAbove(t, MergeAt(t, len, i), a, len);
    SiblingsAscend(t[len], len, i);
    assert a[..len] == a[..len - 1] + [a[len - 1]];
    if Left(t, a, len) {
      if a[..len - 1] != t[len][i].base[..len - 1] {
        ReadElsewhere(t, len, i, a);
      } else if a[len - 1] {
        ReadOne(t, len, i, a);
      } else {
        ReadZero(t, len, i, a);
      }
    }
  }

  /** Reading an address that matches in a level before, and there or one level up after. */
  lemma ReadMoved(t: Table, u: Table, a: Word, len: nat)
    requires |t| == 33 && |u| == 33 && 1 <= len <= 32 && Left(t, a, len) && Left(u, a, len) && Hit(t, a, len)
    ensures Read(t, a, 32) == LastRoute(t[len], a[..len])
    ensures Hit(u, a, len) ==> Read(u, a, 32) == LastRoute(u[len], a[..len])
    ensures !Hit(u, a, len) && Hit(u, a, len - 1) ==> Read(u, a, 32) == LastRoute(u[len - 1], a[..len - 1])
  {
    ReadAt(t, a, len);
    if Hit(u, a, len) {
      ReadAt(u, a, len);
    } else if Hit(u, a, len - 1) {
      assert Left(u, a, len - 1);
      ReadAt(u, a, len - 1);
    }
  }

  /** A merge keeps the answers of the trie exactly unless it uncovers, before the first sibling, a
      route with the same base and another hop, to which some address is left. */
  lemma MergeReadsExact(t: Table, len: nat, i: nat)
    requires CanonicalTable(t) && 1 <= len <= 30 && Ascending(t[len]) && i + 1 < |t[len]|
    requires Siblings(t[len][i], t[len][i + 1], len)
    ensures SameReading(t, MergeAt(t, len, i)) <==> !(Unmasks(t[len], i) && Shown(t, t[len][i].base[..len]))
  {
    var u, p := MergeAt(t, len, i), t[len][i].base[..len];
    if Unmasks(t[len], i) && Shown(t, p) {
      var a: Word :| p <= a && Left(t, a, |p|);
      assert a[..len] == p;
      MergeRead(t, len, i, a);
      assert HopRead(t, a) != HopRead(u, a);
    } else {
      forall a: Word ensures HopRead(t, a) == HopRead(u, a) {
        MergeRead(t, len, i, a);
        assert a[..len] == p ==> p <= a;
      }
    }
  }

  // The whole pass.

  /** The turn of a level leaves a route with the same hop behind, at every prefix that is shown and
      still has one. */
  ghost predicate TurnKeeps(t: Table, order: Order, len: nat)
    requires |t| == 33 && 1 <= len <= 30
  {
    var before, after := TableAt(t, order, len), TableAt(t, order, len - 1);
    forall p :: |p| == len && Shown(before, p) && LastRoute(after[len], p).Some? ==>
      HopIn(LastRoute(after[len], p)) == HopIn(LastRoute(before[len], p))
  }

  ghost predicate KeepsAbove(t: Table, order: Order, from: nat)
    requires |t| == 33
  {
    forall len {:trigger TurnKeeps(t, order, len)} :: from < len <= 30 ==> TurnKeeps(t, order, len)
  }

  /** What an address reads before and after the turn of a level: the same, unless it is left to the
      level and the level still has a route for it. */
  lemma TurnRead(t: Table, order: Order, len: nat, a: Word)
    requires CanonicalTable(t) && 1 <= len <= 30 && SortedAbove(t, order, len - 1)
    ensures var before, after := TableAt(t, order, len), TableAt(t, order, len - 1);
            && (Left(before, a, len) <==> Left(after, a, len))
            && if Left(before, a, len) && Hit(after, a, len) then
                 && Read(before, a, 32) == LastRoute(before[len], a[..len])
                 && Read(after, a, 32) == LastRoute(after[len], a[..len])
               else HopRead(before, a) == HopRead(after, a)
  {
    var before, s, after := TableAt(t, order, len), Turn(t, order, len), TableAt(t, order, len - 1);
    TurnTables(t, order, len, before, s, after);
    assert a[..len] == a[..len - 1] + [a[len - 1]];
    MergedMoves(s, len, 0, a[..len - 1], a[len - 1]);
    TurnLevels(before, s, after, len, a);
  }

  /** The tables of a turn: before it, with the level sorted, and after it. */
  lemma TurnTables(t: Table, order: Order, len: nat, before: Table, s: Table, after: Table)
    requires CanonicalTable(t) && 1 <= len <= 30 && SortedAbove(t, order, len - 1)
    requires before == TableAt(t, order, len) && s == Turn(t, order, len) && after == TableAt(t, order, len - 1)
    ensures |before| == 33 && CanonicalTable(s) && Ascending(s[len]) && s == before[len := s[len]]
    ensures forall r :: r in before[len] <==> r in s[len]
    ensures after == Merged(s, len, 0) && forall k :: 0 <= k < 33 && k != len && k != len - 1 ==> after[k] == s[k]
  {
    assert order[len] == order[len] && IsSort(order[len], before[len]);
    assert SortedAbove(t, order, len);
    PassCovers(t, order, len);
    Rearranged(before, len, order[len]);
    SameRoutes(before[len], order[len], []);
    MergedFrame(s, len, 0);
  }

  lemma TurnLevels(before: Table, s: Table, after: Table, len: nat, a: Word)
    requires |before| == 33 && |s| == 33 && |after| == 33 && 1 <= len <= 30
    requires s == before[len := s[len]] && (forall r :: r in before[len] <==> r in s[len])
    requires forall k :: 0 <= k < 33 && k != len && k != len - 1 ==> after[k] == s[k]
    requires a[..len] == a[..len - 1] + [a[len - 1]] && MovesAt(s, after, len, a[..len - 1], a[len - 1])
    ensures Left(before, a, len) <==> Left(after, a, len)
    ensures if Left(before, a, len) && Hit(after, a, len) then
              && Read(before, a, 32) == LastRoute(before[len], a[..len])
              && Read(after, a, 32) == LastRoute(after[len], a[..len])
            else HopRead(before, a) == HopRead(after, a)
  {
    ReadAbove(before, after, a, len);
    if Left(before, a, len) {
      if LastRoute(s[len], a[..len]).Some? {
        assert Hit(before, a, len);
        ReadMoved(before, after, a, len);
      } else {
        TurnMisses(before, s, after, len, a);
      }
    }
  }

  lemma TurnMisses(before: Table, s: Table, after: Table, len: nat, a: Word)
    requires |before| == 33 && |s| == 33 && |after| == 33 && 1 <= len <= 30
    requires s == before[len := s[len]] && (forall r :: r in before[len] <==> r in s[len])
    requires forall k :: 0 <= k < 33 && k != len && k != len - 1 ==> after[k] == s[k]
    requires a[..len] == a[..len - 1] + [a[len - 1]] && MovesAt(s, after, len, a[..len - 1], a[len - 1])
    requires LastRoute(s[len], a[..len]).None?
    ensures !Hit(after, a, len) && Read(before, a, 32) == Read(after, a, 32)
  {
    NoneWith(before[len], a[..len]);
    ReadSame(before, after, a, 32);
  }

  /** Turns that keep the answers, one after the other. */
  lemma {:induction false} ReadsKept(t: Table, order: Order, len: nat)
    requires CanonicalTable(t) && len <= 30 && SortedAbove(t, order, len) && KeepsAbove(t, order, len)
    ensures SameReading(t, TableAt(t, order, len))
    decreases 30 - len
  {
    if len < 30 {
      ReadsKept(t, order, len + 1);
      assert TurnKeeps(t, order, len + 1);
      var before, after := TableAt(t, order, len + 1), TableAt(t, order, len);
      forall a: Word ensures HopRead(before, a) == HopRead(after, a) {
        TurnRead(t, order, len + 1, a);
        assert a[..len + 1] <= a;
      }
    }
  }

  /** What a level has after its turn it keeps. */
  lemma {:induction false} LevelFinal(t: Table, order: Order, len: nat, k: nat)
    requires |t| == 33 && len < k < 33 && len <= 30 && SortedAbove(t, order, 0)
    ensures Aggregated(t, order)[k] == TableAt(t, order, len)[k]
  {
    if len > 0 {
      LevelFinal(t, order, len - 1, k);
      assert IsSort(order[len], TableAt(t, order, len)[len]);
      MergedFrame(Turn(t, order, len), len, 0);
    }
  }

  /** An address that matches in a level after its turn is read there for good. */
  lemma ReadFinal(t: Table, order: Order, len: nat, a: Word)
    requires CanonicalTable(t) && 1 <= len <= 30 && SortedAbove(t, order, 0)
    requires Left(TableAt(t, order, len - 1), a, len) && Hit(TableAt(t, order, len - 1), a, len)
    ensures Read(Aggregated(t, order), a, 32) == LastRoute(TableAt(t, order, len - 1)[len], a[..len])
  {
    var u, v := TableAt(t, order, len - 1), Aggregated(t, order);
    forall k | len <= k < 33 ensures v[k] == u[k] {
      LevelFinal(t, order, len - 1, k);
    }
    ReadAbove(u, v, a, len);
    assert Hit(v, a, len);
    ReadAt(v, a, len);
  }

  /** A turn that changes an answer leaves it to its own level, which no later turn touches. */
  lemma TurnMustKeep(t: Table, order: Order, len: nat)
    requires CanonicalTable(t) && 1 <= len <= 30 && SortedAbove(t, order, 0) && SameReading(t, TableAt(t, order, len))
    requires SameReading(t, Aggregated(t, order))
    ensures TurnKeeps(t, order, len)
  {
    var before, after := TableAt(t, order, len), TableAt(t, order, len - 1);
    forall p | |p| == len && Shown(before, p) && LastRoute(after[len], p).Some?
      ensures HopIn(LastRoute(after[len], p)) == HopIn(LastRoute(before[len], p))
    {
      var a: Word :| p <= a && Left(before, a, |p|);
      assert a[..len] == p;
      TurnRead(t, order, len, a);
      ReadFinal(t, order, len, a);
      assert HopRead(t, a) == HopRead(before, a) && HopRead(t, a) == HopRead(Aggregated(t, order), a);
    }
  }

  /** If the answers are the same in the end, every turn kept them. */
  lemma {:induction false} KeptInTheEnd(t: Table, order: Order, len: nat)
    requires CanonicalTable(t) && len <= 30 && SortedAbove(t, order, 0) && SameReading(t, Aggregated(t, order))
    ensures KeepsAbove(t, order, len)
    decreases 30 - len
  {
    if len < 30 {
      KeptInTheEnd(t, order, len + 1);
      assert SortedAbove(t, order, len + 1);
      ReadsKept(t, order, len + 1);
      TurnMustKeep(t, order, len + 1);
    }
  }

  /** For every table and every order of the sort: the pass keeps every answer of the trie exactly
      when the turn of each level does. */
  lemma PassExact(t: Table, order: Order)
    requires CanonicalTable(t) && SortedAbove(t, order, 0)
    ensures SameReading(t, Aggregated(t, order)) <==> KeepsAbove(t, order, 0)
  {
    if KeepsAbove(t, order, 0) {
      ReadsKept(t, order, 0);
    }
    if SameReading(t, Aggregated(t, order)) {
      KeptInTheEnd(t, order, 0);
    }
  }

  /** With no covered route every turn does. */
  lemma UncoveredKeeps(t: Table, order: Order)
    requires WellFormed(t) && NoneCovered(RibOf(t)) && SortedAbove(t, order, 0)
    ensures KeepsAbove(t, order, 0)
  {
    PassPreserved(t, order, 0);
    ReadingIsMeaning(t, Aggregated(t, order));
    PassExact(t, order);
  }
}
