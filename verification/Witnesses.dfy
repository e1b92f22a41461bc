/** Concrete tables on which numbering and lookup depart from their intent. */
module Witnesses {
  import opened Words
  import opened Rib
  import opened Routes
  import opened Numbering
  import opened RoutingTables
  import opened TrieShape
  import opened Reading
  import opened EndToEnd
  import Arp

  function GatewayA(): Word { OneShl(0) }
  function GatewayB(): Word { OneShl(1) }
  function GatewayC(): Word { OneShl(2) }

  /** A route to a prefix. */
  function To(p: Bits, gateway: Word, iface: IfaceId, index: nat): (r: Route)
    requires |p| <= 32
    ensures Canonical(r, |p|) && EntryOf(r) == Entry(p, Hop(gateway, iface))
  {
    assert Pad(p)[..|p|] == p;
    Route(Pad(p), gateway, |p|, iface, index)
  }

  /** Levels 0, 1 and 2 as given, the others empty. */
  function Levels(zero: Level, one: Level, two: Level): (t: Table)
    ensures |t| == 33 && t[0] == zero && t[1] == one && t[2] == two && forall k :: 3 <= k < 33 ==> t[k] == []
  {
    seq(33, k => if k == 0 then zero else if k == 1 then one else if k == 2 then two else [])
  }

  lemma GatewaysDiffer()
    ensures GatewayA() != ZERO && GatewayB() != ZERO && GatewayC() != ZERO
    ensures GatewayA() != GatewayB() && GatewayA() != GatewayC() && GatewayB() != GatewayC()
  {
    assert GatewayA()[31] && !GatewayB()[31] && !GatewayC()[31] && GatewayB()[30] && !GatewayC()[30] && GatewayC()[29];
  }

  lemma LevelsOk(zero: Level, one: Level, two: Level)
    requires AllCanonical(zero, 0) && AllCanonical(one, 1) && AllCanonical(two, 2)
    requires Distinct(zero) && Distinct(one) && Distinct(two)
    ensures WellFormed(Levels(zero, one, two))
  {
    var t := Levels(zero, one, two);
    forall len | 0 <= len < 33 ensures AllCanonical(t[len], len) && Distinct(t[len]) {
      assert len >= 3 ==> t[len] == [];
    }
  }

  // Numbering and lookup.

  /** A default route and a route to the lower half of all addresses. */
  function TwoRoutes(d: Route, l: Route): Table {
    Levels([d], [l], [])
  }

  lemma TwoRoutesOk(d: Route, l: Route)
    requires Canonical(d, 0) && Canonical(l, 1) && PrefixOf(l) == [false]
    ensures WellFormed(TwoRoutes(d, l)) && NoneCovered(RibOf(TwoRoutes(d, l)))
    ensures AllRoutes(TwoRoutes(d, l)) == {d, l} && HopsOf(TwoRoutes(d, l)) == {HopOf(d), HopOf(l)}
    ensures BestRoute(TwoRoutes(d, l), ZERO, l)
  {
    var t := TwoRoutes(d, l);
    LevelsOk([d], [l], []);
    assert forall k, r :: 0 <= k < 33 && r in t[k] ==> r == d || r == l;
    assert d in t[0] && l in t[1];
    BothVisible(d, l);
  }

  lemma BothVisible(d: Route, l: Route)
    requires CanonicalTable(TwoRoutes(d, l)) && Canonical(d, 0) && Canonical(l, 1) && PrefixOf(l) == [false]
    ensures NoneCovered(RibOf(TwoRoutes(d, l))) && BestRoute(TwoRoutes(d, l), ZERO, l)
  {
    var t, high := TwoRoutes(d, l), Pad([true]);
    assert high[0] && !(PrefixOf(l) <= high);
    assert forall k, r :: 0 <= k < 33 && r in t[k] ==> (k == 0 && r == d) || (k == 1 && r == l);
    assert BestRoute(t, ZERO, l) && BestRoute(t, high, d);
    BestRouteIsBest(t, ZERO, l);
    BestRouteIsBest(t, high, d);
    forall e | e in RibOf(t) ensures e == EntryOf(d) || e == EntryOf(l) {
      var r := FromRib(t, e);
    }
  }

  /** Gateway A on interface 1, alone in the mapping. */
  function OnlyA(): Mapping {
    [NextHopEntry(GatewayA(), 1, 0)]
  }

  lemma OnlyAOk()
    ensures Dense(OnlyA()) && MappingOk(OnlyA()) && Ips(OnlyA()) == {GatewayA()}
  {
  }

  /** A default route via A, and a route via A or none to the lower half. */
  ghost predicate ViaA(d: Route, l: Route) {
    && Canonical(d, 0) && HopOf(d) == Hop(GatewayA(), 1) && d.index == 0
    && Canonical(l, 1) && PrefixOf(l) == [false] && l.nextHop in {ZERO, GatewayA()}
  }

  lemma IndexedByA(d: Route, l: Route, netmap: Netmap)
    requires ViaA(d, l) && DirectIndexed(l, netmap) && GatewayIndexed(l, OnlyA())
    ensures var t := TwoRoutes(d, l);
            AllIndexed(t, OnlyA(), netmap) && Gateways(t) == {GatewayA()} && FromHops(OnlyA(), t)
  {
    GatewaysDiffer();
    TwoRoutesOk(d, l);
    OnlyGatewayA(TwoRoutes(d, l), HopOf(l));
    PairIndexed(TwoRoutes(d, l), d, l, netmap);
  }

  lemma PairIndexed(t: Table, d: Route, l: Route, netmap: Netmap)
    requires AllRoutes(t) == {d, l} && d.nextHop == GatewayA() != ZERO && d.index == 0
    requires DirectIndexed(l, netmap) && GatewayIndexed(l, OnlyA())
    ensures AllIndexed(t, OnlyA(), netmap)
  {
  }

  lemma OnlyGatewayA(t: Table, h: Hop)
    requires HopsOf(t) == {Hop(GatewayA(), 1), h} && h.gateway in {ZERO, GatewayA()} && GatewayA() != ZERO
    ensures Gateways(t) == {GatewayA()} && FromHops(OnlyA(), t)
  {
    assert Hop(GatewayA(), 1) in HopsOf(t);
  }

  /** While its interface has no netmap index a directly connected route has the invalid one. The
      scan then reports nothing for its addresses, the trie the default route. */
  lemma InvalidIndexDisagrees() returns (t: Table, m: Mapping, netmap: Netmap, a: Word)
    ensures WellFormed(t) && NoneCovered(RibOf(t)) && [] in BuiltShape(t, 33)
    ensures netmap == map[2 := 0xffffffff] && Dense(m) && Ips(m) == Gateways(t) && AllIndexed(t, m, netmap)
    ensures !IsLookup(t, a, Walk(BuiltShape(t, 33), a, 32))
  {
    var d, l := To([], GatewayA(), 1, 0), To([false], ZERO, 2, NH_INVALID);
    t, m, netmap := TwoRoutes(d, l), OnlyA(), map[2 := 0xffffffff];
    GatewaysDiffer();
    OnlyAOk();
    IndexedByA(d, l, netmap);
    TwoRoutesOk(d, l);
    BuiltNodes(t, 33, []);
    BestRouteIsBest(t, ZERO, l);
    a := DisagreesBelow(t, 0, 1, l, d);
  }

  /** A gateway used on two interfaces: the trie sends the lower half of all addresses to the right
      gateway on the interface of the default route. */
  lemma SecondInterfaceIgnored() returns (t: Table, m: Mapping, netmap: Netmap, h: Hop)
    ensures Numbered(t, t, m, netmap) && Fits(t, netmap) && Resolves(RibOf(t), ZERO, h)
    ensures TrieTarget(t, m, ZERO).Via? && TrieTarget(t, m, ZERO).gateway == h.gateway
    ensures TrieTarget(t, m, ZERO).iface != h.iface
  {
    var d, l := To([], GatewayA(), 1, 0), To([false], GatewayA(), 2, 0);
    t, m, netmap, h := TwoRoutes(d, l), OnlyA(), map[1 := 0, 2 := 1], HopOf(l);
    TwiceUsed(d, l, netmap);
    UpdatedIndicesValid(t, t, m, netmap);
    BestRouteIsBest(t, ZERO, l);
    ReadsFirst(t, l);
  }

  lemma TwiceUsed(d: Route, l: Route, netmap: Netmap)
    requires ViaA(d, l) && l.nextHop == GatewayA() && l.index == 0
    ensures var t := TwoRoutes(d, l);
            Numbered(t, t, OnlyA(), netmap) && Fits(t, netmap) && BestRoute(t, ZERO, l)
  {
    GatewaysDiffer();
    IndexedByA(d, l, netmap);
    TwoRoutesOk(d, l);
    OnlyAOk();
    GatewaysFit(TwoRoutes(d, l), HopOf(d), HopOf(l), netmap);
  }

  lemma GatewaysFit(t: Table, g: Hop, h: Hop, netmap: Netmap)
    requires HopsOf(t) == {g, h} && g.gateway != ZERO && h.gateway != ZERO && |Gateways(t)| <= 0x8000
    ensures Fits(t, netmap)
  {
  }

  lemma ReadsFirst(t: Table, l: Route)
    requires WellFormed(t) && BestRoute(t, ZERO, l) && l.index == 0 && ValidIndices(t)
    ensures TrieTarget(t, OnlyA(), ZERO) == Via(GatewayA(), 1)
  {
    TrieIsLongestMatch(t, ZERO);
  }

  function Alone(r: Route): Table {
    Levels([r], [], [])
  }

  lemma OneRoute(r: Route)
    requires r.nextHop != ZERO
    ensures AllRoutes(Alone(r)) == {r} && HopsOf(Alone(r)) == {HopOf(r)} && Gateways(Alone(r)) == {r.nextHop}
  {
    var t := Alone(r);
    assert r in t[0];
    assert forall k, q :: 0 <= k < 33 && q in t[k] ==> q == r;
    assert HopsOf(t) == {HopOf(r)};
  }

  /** Number a table of one gateway route. */
  method NumberAlone(table: RoutingTable, r: Route)
    requires table.entries == Alone(r) && r.nextHop != ZERO && MappingOk(table.nextHopMapping)
    modifies table
    ensures Entered(Alone(r), old(table.nextHopMapping), table.entries, table.nextHopMapping)
    ensures |table.entries| == 33 && |table.entries[0]| == 1
    ensures table.entries == Alone(table.entries[0][0]) && table.entries[0][0] == r.(index := table.entries[0][0].index)
  {
    OneRoute(r);
    assert Gateways(table.entries) - Ips(table.nextHopMapping) <= {r.nextHop};
    SubsetSize(Gateways(table.entries) - Ips(table.nextHopMapping), {r.nextHop});
    table.BuildNextHopList(map[]);
    StaysAlone(r, table.entries);
  }

  lemma StaysAlone(r: Route, t: Table)
    requires SameButIndex(Alone(r), t)
    ensures |t| == 33 && |t[0]| == 1 && t == Alone(t[0][0]) && t[0][0] == r.(index := t[0][0].index)
  {
    assert |Alone(r)[0]| == |t[0]|;
    assert t[0] == [t[0][0]];
    forall k | 1 <= k < 33 ensures t[k] == [] {
      assert |Alone(r)[k]| == |t[k]|;
    }
  }

  /** The default route moves from gateway A to gateway B, and the table is numbered again: the first
      call leaves A alone in the mapping, the second gives B the index of A. When A is heard after
      the next rebuild of the ARP table, packets for B get the MAC of A. */
  method NewGatewayCollides() returns (first: Mapping, r: Route, m: Mapping)
    ensures |first| == 1 && first[0].ip == GatewayA() && first[0].index == 0
    ensures |m| == 2 && m[0] == first[0] && m[1].ip == GatewayB() == r.nextHop && r.index == m[1].index == 0
    ensures var routing := Arp.Routing(m, map[1 := 0]);
            var s := Arp.Rebuilt(Arp.Empty(), routing);
            var heard := Arp.Learned(s, Arp.ArpFrame(Arp.OP_REPLY, GatewayA(), 7, ZERO, 0));
            && Arp.RoutingOk(routing) && !Arp.OwnPlace(routing, 1) && GatewayA() != GatewayB()
            && |heard.current| == 2 && heard.current[r.index] == Arp.NextHop(7, 0)
  {
    GatewaysDiffer();
    var a, b := To([], GatewayA(), 1, NH_INVALID), To([], GatewayB(), 1, NH_INVALID);
    var table := new RoutingTable(Alone(a));
    NumberAlone(table, a);
    first := table.nextHopMapping;
    FirstCall(a, first, table.entries);
    table.entries := Alone(b);
    NumberAlone(table, b);
    m, r := table.nextHopMapping, table.entries[0][0];
    SecondCall(b, first, m, r);
    HeardForAnother(m);
  }

  /** Two gateways on one interface with the same index: the reply of the first is read for the second. */
  lemma HeardForAnother(m: Mapping)
    requires |m| == 2 && MappingOk(m) && m[0].ip == GatewayA() && m[0].index == 0 && m[1].index == 0
    requires m[0].iface == 1 && m[1].iface == 1
    ensures var routing := Arp.Routing(m, map[1 := 0]);
            var heard := Arp.Learned(Arp.Rebuilt(Arp.Empty(), routing), Arp.ArpFrame(Arp.OP_REPLY, GatewayA(), 7, ZERO, 0));
            && Arp.RoutingOk(routing) && !Arp.OwnPlace(routing, 1)
            && |heard.current| == 2 && heard.current[0] == Arp.NextHop(7, 0)
  {
    var routing := Arp.Routing(m, map[1 := 0]);
    assert forall e :: e in m ==> e == m[0] || e == m[1];
    assert Arp.GatewayAt(routing, GatewayA(), 0) == 0;
    assert Arp.LastWriter(m, 0, 2) == 1;
  }

  lemma FirstCall(a: Route, m: Mapping, t: Table)
    requires a.nextHop != ZERO && Entered(Alone(a), [], t, m)
    ensures |m| == 1 && m[0].ip == a.nextHop && m[0].index == 0 && m[0].iface == a.iface
  {
    OneRoute(a);
    IpsSize(m);
    assert m[0] in m && m[0..] == m;
    assert Hop(m[0].ip, m[0].iface) in HopsOf(Alone(a));
  }

  /** Of two entries, the second is numbered zero again. */
  lemma SecondCall(b: Route, first: Mapping, m: Mapping, r: Route)
    requires |first| == 1 && first[0].ip != b.nextHop == r.nextHop && b.nextHop != ZERO
    requires Entered(Alone(b), first, Alone(r), m)
    ensures |m| == 2 && m[0] == first[0] && m[1].ip == b.nextHop && m[1].iface == b.iface && m[1].index == 0 && r.index == 0
  {
    OneRoute(b);
    OneRoute(r);
    assert r in AllRoutes(Alone(r)) && HasIndex(m, r);
    var j :| 0 <= j < |m| && m[j].ip == r.nextHop && m[j].index == r.index;
    forall k | 1 <= k < |m| ensures m[k].ip == b.nextHop && m[k].iface == b.iface {
      assert m[1..][k - 1] == m[k];
      assert m[k] in m[1..];
      assert Hop(m[k].ip, m[k].iface) in HopsOf(Alone(b));
    }
    assert j >= 1 && m[1].ip == b.nextHop;
    assert j == 1;
    OneAdded(m, b.nextHop);
  }

  lemma OneAdded(m: Mapping, ip: Word)
    requires DistinctIps(m) && |m| >= 2 && forall k :: 1 <= k < |m| ==> m[k].ip == ip
    ensures |m| == 2
  {
    var last := |m| - 1;
    assert m[1].ip == m[last].ip;
  }
}
