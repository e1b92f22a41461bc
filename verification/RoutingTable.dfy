/** The routing table object: aggregation and next-hop numbering in place
    (src/routingTable.cpp, include/routingTable.hpp). */
module RoutingTables {
  import opened Words
  import opened Rib
  import opened Routes
  import opened Aggregation
  import opened Reading
  import opened AggregatePass
  import opened AggregateReading
  import opened AggregateExact
  import opened Numbering

  /** Put a route into an ascending level, behind the routes it is not below. */
  method InsertSorted(s: Level, r: Route) returns (u: Level)
    requires Ascending(s)
    ensures multiset(u) == multiset(s) + multiset{r} && Ascending(u)
  {
    var j := |s|;
    while j > 0 && Value(r.base) < Value(s[j - 1].base)
      invariant 0 <= j <= |s|
      invariant j < |s| ==> Value(r.base) < Value(s[j].base)
    {
      j := j - 1;
    }
    InsertAscending(s, j, r);
    InsertMultiset(s, j, r);
    u := s[..j] + [r] + s[j..];
  }

  /** Insertion sort by the order of routes; all routes of a level have the same length. */
  method SortLevel(level: Level) returns (s: Level)
    ensures multiset(s) == multiset(level) && Ascending(s)
  {
    s := [];
    for k := 0 to |level|
      invariant multiset(s) == multiset(level[..k]) && Ascending(s)
    {
      s := InsertSorted(s, level[k]);
      assert level[..k + 1] == level[..k] + [level[k]];
    }
    assert level[..|level|] == level;
  }

  /** Position of a gateway in the mapping, or its length. */
  method Find(m: Mapping, ip: Word) returns (j: nat)
    ensures j <= |m|
    ensures j < |m| ==> m[j].ip == ip
    ensures j == |m| ==> ip !in Ips(m)
  {
    j := 0;
    while j < |m| && m[j].ip != ip
      invariant j <= |m| && forall k :: 0 <= k < j ==> m[k].ip != ip
    {
      j := j + 1;
    }
  }

  /** One route of the numbering: interface number, known gateway or new gateway. */
  method NumberRoute(route: Route, mapping: Mapping, nextIndex: nat, netmap: Netmap)
    returns (r: Route, m: Mapping, n: nat)
    requires route.nextHop == ZERO ==> route.iface in netmap
    ensures NumberedRoute(route, mapping, nextIndex, netmap, r, m, n)
  {
    m, n := mapping, nextIndex;
    if route.nextHop == ZERO {
      r := route.(index := DirectIndex(netmap[route.iface]));
      return;
    }
    var j := Find(mapping, route.nextHop);
    if j < |mapping| {
      r := route.(index := mapping[j].index);
    } else {
      r := route.(index := nextIndex);
      m := mapping + [NextHopEntry(route.nextHop, route.iface, nextIndex)];
      n := Increment(nextIndex);
    }
  }

  class RoutingTable {
    var entries: Table
    var nextHopMapping: seq<NextHopEntry>

    constructor (entries: Table)
      ensures this.entries == entries && nextHopMapping == []
    {
      this.entries := entries;
      nextHopMapping := [];
    }

    /** The inner loop of aggregation on one level, as long as it stays inside the level: pairs go, but
        the route behind a pair is not examined, and their parents are appended one level up. */
    method MergeLevel(len: nat)
      requires |entries| == 33 && 1 <= len <= 30
      modifies this`entries
      ensures entries == Merged(old(entries), len, 0)
      ensures AllCanonical(old(entries[len]), len) ==>
                && entries[len] == Kept(old(entries[len]), len)
                && entries[len - 1] == old(entries[len - 1]) + Parents(old(entries[len]), len)
    {
      var i := 0;
      while i + 1 < |entries[len]|
        invariant 0 <= i && |entries| == 33 && Merged(entries, len, i) == Merged(old(entries), len, 0)
        decreases |entries[len]| - i
      {
        var first, second := entries[len][i], entries[len][i + 1];
        if Siblings(first, second, len) {
          entries := MergeAt(entries, len, i);
        }
        i := i + 1;
      }
      if AllCanonical(old(entries[len]), len) {
        MergedExact(old(entries), len, 0);
        assert old(entries[len])[0..] == old(entries[len]) && old(entries[len])[..0] == [];
      }
    }

    /** Aggregation. Whatever the table, the levels end up in closed form, the same addresses are
        matched and the hops stay; the trie's answers stay the same exactly when every turn keeps
        them, as it does with no covered route. The loops as written do this exactly when no sorted
        level is a pair and nothing else; otherwise they read past its end. */
    method Aggregate() returns (ghost order: Order)
      requires CanonicalTable(entries)
      modifies this`entries
      ensures SortedAbove(old(entries), order, 0) && entries == Aggregated(old(entries), order)
      ensures PassResult(old(entries), order, entries)
    {
      ghost var t := entries;
      order := MergeLevels();
      ghost var u := entries;
      PassFacts(t, order, u);
    }

    /** The loop over the levels. */
    method MergeLevels() returns (ghost order: Order)
      requires |entries| == 33
      modifies this`entries
      ensures SortedAbove(old(entries), order, 0) && entries == Aggregated(old(entries), order)
    {
      order := seq(31, _ => []);
      for len := 31 downto 1
        invariant |entries| == 33 && SortedAbove(old(entries), order, len - 1)
        invariant entries == TableAt(old(entries), order, len - 1)
      {
        var sorted := SortLevel(entries[len]);
        SortedStep(old(entries), order, len, sorted);
        entries := entries[len := sorted];
        if |entries[len]| >= 2 {
          MergeLevel(len);
        }
        order := order[len := sorted];
      }
    }

    method NumberAt(len: nat, i: nat, first: nat, netmap: Netmap, ghost t0: Table, ghost m0: Mapping)
      returns (nextIndex: nat)
      requires len < |entries| && i < |entries[len]| && DirectOnNetmap(t0, netmap) && |Gateways(t0) - Ips(m0)| <= 0xffff
      requires NumberedTo(t0, m0, entries, nextHopMapping, first, netmap, len, i)
      modifies this
      ensures NumberedTo(t0, m0, entries, nextHopMapping, nextIndex, netmap, len, i + 1)
    {
      RouteToNumber(t0, m0, entries, nextHopMapping, first, netmap, len, i);
      var r, m, n := NumberRoute(entries[len][i], nextHopMapping, first, netmap);
      RouteNumbered(t0, m0, entries, nextHopMapping, first, netmap, len, i, r, m, n);
      entries := entries[len := entries[len][i := r]];
      nextHopMapping, nextIndex := m, n;
    }

    method NumberLevel(len: nat, first: nat, netmap: Netmap, ghost t0: Table, ghost m0: Mapping)
      returns (nextIndex: nat)
      requires len < |t0| && DirectOnNetmap(t0, netmap) && |Gateways(t0) - Ips(m0)| <= 0xffff
      requires NumberedTo(t0, m0, entries, nextHopMapping, first, netmap, len, 0)
      modifies this
      ensures NumberedTo(t0, m0, entries, nextHopMapping, nextIndex, netmap, len + 1, 0)
    {
      nextIndex := first;
      for i := 0 to |entries[len]|
        invariant NumberedTo(t0, m0, entries, nextHopMapping, nextIndex, netmap, len, i)
      {
        nextIndex := NumberAt(len, i, nextIndex, netmap, t0, m0);
      }
      LevelNumbered(t0, m0, entries, nextHopMapping, nextIndex, netmap, len);
    }

    /** Numbers the next hops. More than 0xffff new gateways would trip the assertion that no index
        is the invalid one. */
    method BuildNextHopList(netmap: Netmap)
      requires |entries| == 33 && MappingOk(nextHopMapping) && DirectOnNetmap(entries, netmap)
      requires |Gateways(entries) - Ips(nextHopMapping)| <= 0xffff
      modifies this
      ensures NumberedFrom(old(entries), old(nextHopMapping), entries, nextHopMapping, netmap)
    {
      var nextIndex := 0;
      ghost var m0 := nextHopMapping;
      ghost var t0 := entries;
      NothingNumbered(entries, nextHopMapping, netmap);
      for len := 0 to |entries|
        invariant 0 <= nextIndex && NumberedTo(t0, m0, entries, nextHopMapping, nextIndex, netmap, len, 0)
      {
        nextIndex := NumberLevel(len, nextIndex, netmap, t0, m0);
      }
      NumberingDone(m0, nextHopMapping, nextIndex, t0, entries, netmap);
    }

    /** `update`: aggregate, then number the next hops. */
    method Update(netmap: Netmap) returns (ghost order: Order)
      requires CanonicalTable(entries) && MappingOk(nextHopMapping) && DirectOnNetmap(entries, netmap)
      requires |Gateways(entries) - Ips(nextHopMapping)| <= 0xffff
      modifies this
      ensures SortedAbove(old(entries), order, 0)
      ensures WrittenAt(old(entries), order, 0) == if SomeLevelIsPair(order) then OutOfBounds else Done(Aggregated(old(entries), order))
      ensures NumberedFrom(Aggregated(old(entries), order), old(nextHopMapping), entries, nextHopMapping, netmap)
      ensures CanonicalTable(entries) && HopsOf(entries) == HopsOf(old(entries))
      ensures SameCoverage(RibOf(old(entries)), RibOf(entries))
      ensures SameReading(old(entries), entries) <==> KeepsAbove(old(entries), order, 0)
      ensures WellFormed(old(entries)) && NoneCovered(RibOf(old(entries))) ==>
                KeepsAbove(old(entries), order, 0) && Preserved(old(entries), entries)
    {
      order := Aggregate();
      ghost var mid := entries;
      BuildNextHopList(netmap);
      IndicesDoNotMatter(mid, entries);
      SameHopsRead(mid, entries);
    }
  }

  lemma NothingNumbered(t: Table, m: Mapping, netmap: Netmap)
    requires MappingOk(m)
    ensures NumberedTo(t, m, t, m, 0, netmap, 0, 0)
  {
    VisitedNone(t);
    assert m[|m|..] == [];
    assert HopsBefore(t, 0, 0) == [];
  }

  lemma SameHopsRead(t: Table, u: Table)
    requires |t| == 33 && SameButIndex(t, u)
    ensures SameReading(t, u)
  {
    forall a: Word ensures HopRead(t, a) == HopRead(u, a) {
      ReadReindexed(t, u, a, 32);
    }
  }

  /** What aggregation makes of any canonical table. */
  ghost predicate AnyResult(t: Table, order: Order, u: Table)
    requires CanonicalTable(t)
  {
    && CanonicalTable(u) && AggregatedAs(t, order, u)
    && WrittenAt(t, order, 0) == (if SomeLevelIsPair(order) then OutOfBounds else Done(u))
    && HopsOf(u) == HopsOf(t) && SameCoverage(RibOf(t), RibOf(u))
    && (SameReading(t, u) <==> KeepsAbove(t, order, 0))
    && Total(u) + Merges(t, order, 0) == Total(t)
    && (forall k :: 1 <= k <= 30 ==> Ascending(u[k])) && u[31] == t[31] && u[32] == t[32]
  }

  /** Of one without covered routes: the same answers, and no duplicates. */
  ghost predicate UncoveredResult(t: Table, order: Order, u: Table)
    requires CanonicalTable(t)
  {
    KeepsAbove(t, order, 0) && Preserved(t, u) && forall k :: 1 <= k <= 30 ==> StrictlyAscending(u[k])
  }

  ghost predicate PassResult(t: Table, order: Order, u: Table)
    requires CanonicalTable(t)
  {
    AnyResult(t, order, u) && (WellFormed(t) && NoneCovered(RibOf(t)) ==> UncoveredResult(t, order, u))
  }

  lemma PassFacts(t: Table, order: Order, u: Table)
    requires CanonicalTable(t) && SortedAbove(t, order, 0) && u == Aggregated(t, order)
    ensures PassResult(t, order, u)
  {
    AnyFacts(t, order);
    if WellFormed(t) && NoneCovered(RibOf(t)) {
      UncoveredFacts(t, order);
    }
  }

  lemma AnyFacts(t: Table, order: Order)
    requires CanonicalTable(t) && SortedAbove(t, order, 0)
    ensures AnyResult(t, order, Aggregated(t, order))
  {
    WrapsExact(t, order);
    AggregateClosed(t, order);
    PassCovers(t, order, 0);
    PassTotal(t, order, 0);
    PassLevels(t, order, 0);
    PassExact(t, order);
  }

  lemma UncoveredFacts(t: Table, order: Order)
    requires WellFormed(t) && NoneCovered(RibOf(t)) && SortedAbove(t, order, 0)
    ensures UncoveredResult(t, order, Aggregated(t, order))
  {
    PassPreserved(t, order, 0);
    UncoveredKeeps(t, order);
    PassLevels(t, order, 0);
    var u := Aggregated(t, order);
    forall k | 1 <= k <= 30 ensures StrictlyAscending(u[k]) {
      AscendingStrict(u[k]);
    }
  }
}
