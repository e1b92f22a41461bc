/** From the routing information to a forwarding decision: update the table, number it again once
    the interfaces have their numbers, build the trie, look an address up, and read the index back
    (src/routingTable.cpp, src/manager.cpp, src/basicTrie.cpp). */
module EndToEnd {
  import opened Words
  import opened Rib
  import opened Routes
  import opened Aggregation
  import opened Numbering
  import opened RoutingTables
  import opened TrieShape
  import opened Reading
  import opened AggregatePass
  import opened AggregateReading
  import opened AggregateExact
  import BasicTries
  import Naives

  /** What an index says: nothing, to the host itself on an interface, or to a gateway on the
      interface the mapping has for it. */
  datatype Target = Unrouted | OnLink(netmapIndex: nat) | Via(gateway: Word, iface: IfaceId)

  function Decode(index: nat, m: Mapping): Target {
    if index == NH_INVALID then Unrouted
    else if index >= NH_DIRECTLY_CONNECTED then OnLink(index - NH_DIRECTLY_CONNECTED)
    else if index < |m| then Via(m[index].ip, m[index].iface)
    else Unrouted
  }

  /** The table was aggregated and numbered from an empty mapping. */
  ghost predicate NumberedAs(original: Table, t: Table, m: Mapping, netmap: Netmap) {
    && WellFormed(original) && CanonicalTable(t) && HopsOf(t) == HopsOf(original)
    && AllIndexed(t, m, netmap) && Dense(m) && MappingOk(m) && Ips(m) == Gateways(t) && FromHops(m, t)
  }

  /** And every answer of the trie was kept. */
  ghost predicate Numbered(original: Table, t: Table, m: Mapping, netmap: Netmap) {
    NumberedAs(original, t, m, netmap) && SameReading(original, t)
  }

  /** Every direct route's interface has a netmap index that fits below the invalid mark. */
  ghost predicate NetmapFits(t: Table, netmap: Netmap) {
    forall h :: h in HopsOf(t) && h.gateway == ZERO ==> h.iface in netmap && netmap[h.iface] < 0x7fff
  }

  /** Numbers of interfaces and gateways leave the flag bit alone. */
  ghost predicate Fits(t: Table, netmap: Netmap) {
    NetmapFits(t, netmap) && |Gateways(t)| <= 0x8000
  }

  ghost predicate Updated(original: Table, t: Table, m: Mapping, netmap: Netmap) {
    Numbered(original, t, m, netmap) && Fits(original, netmap)
  }

  /** The index reads as this hop, interface included. */
  ghost predicate ReadsAs(h: Hop, netmap: Netmap, target: Target) {
    if h.gateway == ZERO then h.iface in netmap && target == OnLink(netmap[h.iface]) else target == Via(h.gateway, h.iface)
  }

  /** The index reads as this hop, up to the interface of a gateway that is used on several. */
  ghost predicate Reaches(hops: set<Hop>, h: Hop, netmap: Netmap, target: Target) {
    if h.gateway == ZERO then ReadsAs(h, netmap, target)
    else target.Via? && target.gateway == h.gateway && Hop(target.gateway, target.iface) in hops
  }

  /** The right decision for an address, judged by the original routing information. */
  ghost predicate RightDecision(original: Table, a: Word, netmap: Netmap, target: Target)
    requires CanonicalTable(original)
  {
    && (forall h :: Resolves(RibOf(original), a, h) ==> ReadsAs(h, netmap, target))
    && ((forall h :: !Resolves(RibOf(original), a, h)) ==> target == Unrouted)
  }

  /** The right neighbour, possibly on another of the interfaces it is used on. */
  ghost predicate RightNeighbour(original: Table, a: Word, netmap: Netmap, target: Target)
    requires CanonicalTable(original)
  {
    && (forall h :: Resolves(RibOf(original), a, h) ==> Reaches(HopsOf(original), h, netmap, target))
    && ((forall h :: !Resolves(RibOf(original), a, h)) ==> target == Unrouted)
  }

  lemma MappingSize(original: Table, t: Table, m: Mapping, netmap: Netmap)
    requires NumberedAs(original, t, m, netmap)
    ensures |m| == |Gateways(original)|
  {
    IpsSize(m);
  }

  lemma DirectIndexReads(t: Table, m: Mapping, netmap: Netmap, r: Route)
    requires NetmapFits(t, netmap) && DirectIndexed(r, netmap) && HopOf(r) in HopsOf(t) && r.nextHop == ZERO
    ensures NH_DIRECTLY_CONNECTED <= r.index < NH_INVALID && ReadsAs(HopOf(r), netmap, Decode(r.index, m))
  {
  }

  lemma GatewayIndexReads(t: Table, m: Mapping, r: Route)
    requires GatewayIndexed(r, m) && |m| <= 0x8000 && FromHops(m, t) && HopOf(r) in HopsOf(t) && r.nextHop != ZERO
    ensures r.index < |m| && Decode(r.index, m) == Via(r.nextHop, m[r.index].iface)
    ensures Hop(r.nextHop, m[r.index].iface) in HopsOf(t)
  {
    assert m[r.index] in m;
  }

  /** Every index of an updated table decodes to its route's gateway or interface. */
  lemma IndexOf(original: Table, t: Table, m: Mapping, netmap: Netmap, len: nat, r: Route)
    requires NumberedAs(original, t, m, netmap) && Fits(original, netmap) && len < 33 && r in t[len]
    ensures r.index != NH_INVALID && Reaches(HopsOf(original), HopOf(r), netmap, Decode(r.index, m))
    ensures OneInterface(original) ==> ReadsAs(HopOf(r), netmap, Decode(r.index, m))
    ensures r.index < NH_DIRECTLY_CONNECTED ==> r.index < |m|
    ensures r.index < 0x10000
  {
    assert r in AllRoutes(t);
    HopOfRoute(t, r);
    if r.nextHop == ZERO {
      DirectIndexReads(original, m, netmap, r);
    } else {
      MappingSize(original, t, m, netmap);
      GatewayIndexReads(t, m, r);
    }
  }

  lemma UpdatedIndicesValid(original: Table, t: Table, m: Mapping, netmap: Netmap)
    requires NumberedAs(original, t, m, netmap) && Fits(original, netmap)
    ensures ValidIndices(t)
  {
    forall len, r | 0 <= len < 33 && r in t[len] ensures r.index != NH_INVALID {
      IndexOf(original, t, m, netmap, len, r);
    }
  }

  /** The hop of the longest match in the original table is that of the route read in the updated
      one. */
  lemma SameRoute(original: Table, t: Table, a: Word, h: Hop) returns (r: Route)
    requires WellFormed(original) && |t| == 33 && SameReading(original, t) && Resolves(RibOf(original), a, h)
    ensures Read(t, a, 32) == Some(r) && HopOf(r) == h
    ensures exists k :: 0 <= k < 33 && r in t[k]
  {
    ReadResolves(original, a, h);
    assert HopRead(original, a) == HopRead(t, a);
    var k := ReadFrom(t, a);
    r := Read(t, a, 32).value;
    assert r in t[k];
  }

  lemma NoRoute(original: Table, t: Table, a: Word)
    requires WellFormed(original) && |t| == 33 && SameReading(original, t)
    requires forall h :: !Resolves(RibOf(original), a, h)
    ensures Read(t, a, 32) == None
  {
    assert HopRead(original, a) == HopRead(t, a);
    if Read(t, a, 32).Some? {
      ReadResolves(original, a, HopOf(Read(t, a, 32).value));
    }
  }

  /** Whatever the lookup structure, the route read in the updated table decodes to the next hop of
      the longest match in the original, unaggregated table; interface included, when no gateway is
      used on two. */
  lemma UpdateThenLookup(original: Table, t: Table, m: Mapping, netmap: Netmap, a: Word, index: nat)
    requires Updated(original, t, m, netmap) && IsRead(t, a, index)
    ensures RightNeighbour(original, a, netmap, Decode(index, m))
    ensures OneInterface(original) ==> RightDecision(original, a, netmap, Decode(index, m))
  {
    forall h | Resolves(RibOf(original), a, h)
      ensures Reaches(HopsOf(original), h, netmap, Decode(index, m))
      ensures OneInterface(original) ==> ReadsAs(h, netmap, Decode(index, m))
    {
      var r := SameRoute(original, t, a, h);
      var k :| 0 <= k < 33 && r in t[k];
      IndexOf(original, t, m, netmap, k, r);
    }
    if forall h :: !Resolves(RibOf(original), a, h) {
      NoRoute(original, t, a);
    }
  }

  /** The decision the trie makes. */
  ghost function TrieTarget(t: Table, m: Mapping, a: Word): Target
    requires |t| == 33
  {
    BuiltNodes(t, 33, []);
    Decode(Walk(BuiltShape(t, 33), a, 32), m)
  }

  /** Some address is routed to this hop. */
  ghost predicate Seen(original: Table, h: Hop)
    requires CanonicalTable(original)
  {
    exists a: Word :: Resolves(RibOf(original), a, h)
  }

  /** Some route with this hop has an index that reads as the hop. */
  ghost predicate LeadsTo(t: Table, m: Mapping, netmap: Netmap, h: Hop) {
    exists r :: r in AllRoutes(t) && HopOf(r) == h && ReadsAs(h, netmap, Decode(r.index, m))
  }

  ghost predicate AllSeenLead(original: Table, t: Table, m: Mapping, netmap: Netmap)
    requires CanonicalTable(original)
  {
    forall h :: Seen(original, h) ==> LeadsTo(t, m, netmap, h)
  }

  /** The trie decides right on every address exactly when the index of each hop that some address is
      routed to reads as that hop. */
  lemma DecisionExact(original: Table, t: Table, m: Mapping, netmap: Netmap)
    requires Numbered(original, t, m, netmap)
    ensures (forall a: Word :: RightDecision(original, a, netmap, TrieTarget(t, m, a)))
            <==> AllSeenLead(original, t, m, netmap)
  {
    if AllSeenLead(original, t, m, netmap) {
      forall a: Word ensures RightDecision(original, a, netmap, TrieTarget(t, m, a)) {
        LeadingIsRight(original, t, m, netmap, a);
      }
    }
    if forall a: Word :: RightDecision(original, a, netmap, TrieTarget(t, m, a)) {
      forall h | Seen(original, h) ensures LeadsTo(t, m, netmap, h) {
        HopLeads(original, t, m, netmap, h);
      }
    }
  }

  /** When every route decides for some address, that is when interface numbers and gateways fit into
      an index and no gateway is used on two interfaces. */
  lemma DecisionLimits(original: Table, t: Table, m: Mapping, netmap: Netmap)
    requires Numbered(original, t, m, netmap) && NoneCovered(RibOf(original))
    ensures (forall a: Word :: RightDecision(original, a, netmap, TrieTarget(t, m, a)))
            <==> Fits(original, netmap) && OneInterface(original)
  {
    DecisionExact(original, t, m, netmap);
    if Fits(original, netmap) && OneInterface(original) {
      forall h | Seen(original, h) ensures LeadsTo(t, m, netmap, h) {
        var a: Word :| Resolves(RibOf(original), a, h);
        var r := SameRoute(original, t, a, h);
        var k :| 0 <= k < 33 && r in t[k];
        IndexOf(original, t, m, netmap, k, r);
        assert r in AllRoutes(t);
      }
    }
    if AllSeenLead(original, t, m, netmap) {
      forall h | h in HopsOf(original) ensures LeadsTo(t, m, netmap, h) {
        AllAreSeen(original, h);
      }
      LeadsAllFit(original, t, m, netmap);
    }
  }

  lemma AllAreSeen(original: Table, h: Hop)
    requires WellFormed(original) && NoneCovered(RibOf(original)) && h in HopsOf(original)
    ensures Seen(original, h)
  {
    var len, q :| 0 <= len < 33 && q in original[len] && HopOf(q) == h;
    InRib(original, len, q);
    assert Visible(RibOf(original), EntryOf(q));
    var a: Word :| Best(RibOf(original), a, EntryOf(q));
    assert Resolves(RibOf(original), a, h);
  }

  /** Routes with the same hop have the same index. */
  lemma SameIndex(original: Table, t: Table, m: Mapping, netmap: Netmap, r: Route, q: Route)
    requires Numbered(original, t, m, netmap) && r in AllRoutes(t) && q in AllRoutes(t) && HopOf(r) == HopOf(q)
    ensures r.index == q.index
  {
    assert DirectIndexed(r, netmap) && DirectIndexed(q, netmap) && GatewayIndexed(r, m) && GatewayIndexed(q, m);
  }

  lemma LeadingIsRight(original: Table, t: Table, m: Mapping, netmap: Netmap, a: Word)
    requires Numbered(original, t, m, netmap) && AllSeenLead(original, t, m, netmap)
    ensures RightDecision(original, a, netmap, TrieTarget(t, m, a))
  {
    forall h | Resolves(RibOf(original), a, h) ensures ReadsAs(h, netmap, TrieTarget(t, m, a)) {
      var r := SameRoute(original, t, a, h);
      assert Seen(original, h) && r in AllRoutes(t);
      var q :| q in AllRoutes(t) && HopOf(q) == h && ReadsAs(h, netmap, Decode(q.index, m));
      SameIndex(original, t, m, netmap, r, q);
      TrieReads(original, t, m, netmap, a, r);
    }
    if forall h :: !Resolves(RibOf(original), a, h) {
      NoRoute(original, t, a);
      NothingRead(t, m, a);
    }
  }

  lemma NothingRead(t: Table, m: Mapping, a: Word)
    requires |t| == 33 && Read(t, a, 32) == None
    ensures TrieTarget(t, m, a) == Unrouted
  {
    BuiltNodes(t, 33, []);
    var k := ReadFrom(t, a);
    var w := WalkMeaning(t, a, 32);
    forall j | 0 <= j <= 32 ensures LastIndex(t[j], a[..j]) == NH_INVALID {
      assert !Hit(t, a, j);
    }
  }

  lemma IndexBound(original: Table, t: Table, m: Mapping, netmap: Netmap, r: Route)
    requires Numbered(original, t, m, netmap) && r in AllRoutes(t)
    ensures r.index <= NH_INVALID && (r.nextHop != ZERO ==> r.index < NH_INVALID)
  {
    if r.nextHop != ZERO {
      assert GatewayIndexed(r, m) && m[r.index] in m;
    }
  }

  /** When every decision is right, so is the index of some route of each hop. */
  lemma HopLeads(original: Table, t: Table, m: Mapping, netmap: Netmap, h: Hop)
    requires Numbered(original, t, m, netmap) && Seen(original, h)
    requires forall a: Word :: RightDecision(original, a, netmap, TrieTarget(t, m, a))
    ensures LeadsTo(t, m, netmap, h)
  {
    var a: Word :| Resolves(RibOf(original), a, h);
    var r := SameRoute(original, t, a, h);
    assert r in AllRoutes(t);
    assert ReadsAs(h, netmap, TrieTarget(t, m, a));
    TrieReads(original, t, m, netmap, a, r);
  }

  /** No index reads as an interface whose number has all low bits set. */
  lemma InvalidNeverReads(r: Route, m: Mapping, netmap: Netmap, x: nat)
    requires DirectIndexed(r, netmap) && r.nextHop == ZERO && r.index == NH_INVALID && x <= NH_INVALID
    ensures !ReadsAs(HopOf(r), netmap, Decode(x, m))
  {
  }

  /** The trie reads the route, unless its index is invalid; then it reads something else. */
  lemma TrieReads(original: Table, t: Table, m: Mapping, netmap: Netmap, a: Word, r: Route)
    requires Numbered(original, t, m, netmap) && Read(t, a, 32) == Some(r) && r in AllRoutes(t)
    ensures r.index != NH_INVALID ==> TrieTarget(t, m, a) == Decode(r.index, m)
    ensures r.index == NH_INVALID ==> !ReadsAs(HopOf(r), netmap, TrieTarget(t, m, a))
  {
    IndexBound(original, t, m, netmap, r);
    var x := WalkRead(original, t, m, netmap, a, r);
    if r.index == NH_INVALID {
      InvalidNeverReads(r, m, netmap, x);
    }
  }

  lemma WalkRead(original: Table, t: Table, m: Mapping, netmap: Netmap, a: Word, r: Route) returns (x: nat)
    requires Numbered(original, t, m, netmap) && Read(t, a, 32) == Some(r)
    ensures TrieTarget(t, m, a) == Decode(x, m) && x <= NH_INVALID && (r.index != NH_INVALID ==> x == r.index)
  {
    BuiltNodes(t, 33, []);
    x := Walk(BuiltShape(t, 33), a, 32);
    var w := WalkMeaning(t, a, 32);
    var k := ReadFrom(t, a);
    if x != NH_INVALID {
      var z := LastRoute(t[w], a[..w]).value;
      assert z in AllRoutes(t);
      IndexBound(original, t, m, netmap, z);
      assert w > k ==> !Hit(t, a, w);
    }
  }

  /** Indices that read as their hops leave room for the flag, and each gateway one interface. */
  lemma LeadsAllFit(original: Table, t: Table, m: Mapping, netmap: Netmap)
    requires Numbered(original, t, m, netmap)
    requires forall h :: h in HopsOf(original) ==> LeadsTo(t, m, netmap, h)
    ensures Fits(original, netmap) && OneInterface(original)
  {
    forall h | h in HopsOf(original) && h.gateway == ZERO ensures h.iface in netmap && netmap[h.iface] < 0x7fff {
      var r :| r in AllRoutes(t) && HopOf(r) == h && ReadsAs(h, netmap, Decode(r.index, m));
      assert DirectIndexed(r, netmap);
    }
    forall g, h | g in HopsOf(original) && h in HopsOf(original) && g.gateway == h.gateway != ZERO ensures g == h {
      var j := LeadsBelowFlag(t, m, netmap, g);
      var k := LeadsBelowFlag(t, m, netmap, h);
    }
    MappingSize(original, t, m, netmap);
    if |m| > 0x8000 {
      var e := m[0x8000];
      assert e in m && e.ip in Gateways(t);
      var j := LeadsBelowFlag(t, m, netmap, Hop(e.ip, e.iface));
    }
  }

  /** A gateway hop that an index reads as has its place in the mapping below the flag. */
  lemma LeadsBelowFlag(t: Table, m: Mapping, netmap: Netmap, h: Hop) returns (j: nat)
    requires LeadsTo(t, m, netmap, h) && h.gateway != ZERO
    ensures j < |m| && j < 0x8000 && m[j].ip == h.gateway && m[j].iface == h.iface
  {
    var r :| r in AllRoutes(t) && HopOf(r) == h && ReadsAs(h, netmap, Decode(r.index, m));
    j := r.index;
  }

  lemma NumberedByUpdate(original: Table, mid: Table, t: Table, m: Mapping, netmap: Netmap)
    requires WellFormed(original) && CanonicalTable(t) && HopsOf(t) == HopsOf(original)
    requires NumberedFrom(mid, [], t, m, netmap)
    ensures NumberedAs(original, t, m, netmap)
  {
    SameHops(mid, t);
    assert m[0..] == m;
  }

  lemma NumberedAgain(original: Table, t: Table, m: Mapping, before: Netmap, u: Table, m': Mapping, now: Netmap)
    requires NumberedAs(original, t, m, before) && NumberedFrom(t, m, u, m', now)
    ensures NumberedAs(original, u, m', now)
  {
    IndicesDoNotMatter(t, u);
  }

  lemma IndexTrans(t: Table, u: Table, v: Table)
    requires SameButIndex(t, u) && SameButIndex(u, v)
    ensures SameButIndex(t, v)
  {
    forall k, j | 0 <= k < |t| && 0 <= j < |t[k]| ensures v[k][j] == t[k][j].(index := v[k][j].index) {
      assert u[k][j] == t[k][j].(index := u[k][j].index);
    }
  }

  lemma ReadingTrans(t: Table, u: Table, v: Table)
    requires |t| == 33 && |u| == 33 && |v| == 33 && SameReading(u, v)
    ensures SameReading(t, u) <==> SameReading(t, v)
  {
    forall a: Word ensures HopRead(u, a) == HopRead(v, a) {
    }
  }

  /** What start-up leaves: the loops as written got there unless one of them read past the end of a
      level; the table is numbered, and keeps every answer exactly when each turn did, as it does
      with no covered route. */
  ghost predicate Started(original: Table, order: Order, t: Table, m: Mapping, netmap: Netmap) {
    && NumberedAs(original, t, m, netmap) && SortedAbove(original, order, 0)
    && WrittenAt(original, order, 0) == (if SomeLevelIsPair(order) then OutOfBounds else Done(Aggregated(original, order)))
    && SameButIndex(Aggregated(original, order), t)
    && (SameReading(original, t) <==> KeepsAbove(original, order, 0))
    && (NoneCovered(RibOf(original)) ==> KeepsAbove(original, order, 0))
  }

  /** The first numbering, as part of an update. */
  method UpdateTable(table: RoutingTable, netmap: Netmap) returns (ghost order: Order)
    requires WellFormed(table.entries) && table.nextHopMapping == []
    requires DirectOnNetmap(table.entries, netmap) && |Gateways(table.entries)| <= 0xffff
    modifies table
    ensures Started(old(table.entries), order, table.entries, table.nextHopMapping, netmap)
  {
    ghost var original := table.entries;
    assert Gateways(original) - Ips([]) == Gateways(original);
    order := table.Update(netmap);
    NumberedByUpdate(original, Aggregated(original, order), table.entries, table.nextHopMapping, netmap);
  }

  /** Start-up: update while no interface has its netmap index yet, then number again with the
      indices given out since. */
  method StartUp(table: RoutingTable, before: Netmap, now: Netmap) returns (ghost order: Order)
    requires WellFormed(table.entries) && table.nextHopMapping == []
    requires DirectOnNetmap(table.entries, before) && DirectOnNetmap(table.entries, now)
    requires |Gateways(table.entries)| <= 0xffff
    modifies table
    ensures Started(old(table.entries), order, table.entries, table.nextHopMapping, now)
  {
    ghost var original := table.entries;
    order := UpdateTable(table, before);
    ghost var mid, m := table.entries, table.nextHopMapping;
    assert Gateways(mid) - Ips(m) == {};
    table.BuildNextHopList(now);
    StartedAgain(original, order, mid, m, before, table.entries, table.nextHopMapping, now);
  }

  lemma StartedAgain(original: Table, order: Order, t: Table, m: Mapping, before: Netmap, u: Table, m': Mapping, now: Netmap)
    requires Started(original, order, t, m, before) && NumberedFrom(t, m, u, m', now)
    ensures Started(original, order, u, m', now)
  {
    IndexTrans(Aggregated(original, order), t, u);
    SameHopsRead(t, u);
    ReadingTrans(original, t, u);
    NumberedAgain(original, t, m, before, u, m', now);
  }

  /** The live path: start up, build the trie, look up. */
  method TrieDecision(table: RoutingTable, before: Netmap, now: Netmap, addr: Word) returns (index: nat, ghost order: Order)
    requires WellFormed(table.entries) && table.nextHopMapping == []
    requires DirectOnNetmap(table.entries, before) && Fits(table.entries, now)
    modifies table
    ensures Started(old(table.entries), order, table.entries, table.nextHopMapping, now)
    ensures KeepsAbove(old(table.entries), order, 0) ==>
              RightNeighbour(old(table.entries), addr, now, Decode(index, table.nextHopMapping))
    ensures KeepsAbove(old(table.entries), order, 0) && OneInterface(old(table.entries)) ==>
              RightDecision(old(table.entries), addr, now, Decode(index, table.nextHopMapping))
  {
    order := StartUp(table, before, now);
    var trie := new BasicTries.BasicTrie(table.entries);
    BuiltDepth(table.entries);
    index := trie.Route(addr);
    if KeepsAbove(old(table.entries), order, 0) {
      UpdatedIndicesValid(old(table.entries), table.entries, table.nextHopMapping, now);
      TrieIsLongestMatch(table.entries, addr);
      UpdateThenLookup(old(table.entries), table.entries, table.nextHopMapping, now, addr, index);
    }
  }

  /** Trie and scan side by side: last and first route of the longest matching level; the same index
      when duplicates agree, as they do in a well-formed table. */
  method CompareLookups(trie: BasicTries.BasicTrie, naive: Naives.Naive, addr: Word) returns (x: nat, y: nat)
    requires CanonicalTable(naive.entries) && ValidIndices(naive.entries)
    requires naive.Valid() && trie.Valid() && trie.shape == BuiltShape(naive.entries, 33)
    ensures IsRead(naive.entries, addr, x) && y == IndexIn(Scan(naive.entries, addr, 32))
    ensures DuplicatesAgree(naive.entries) ==> x == y
    ensures WellFormed(naive.entries) ==> x == y && IsLookup(naive.entries, addr, x)
  {
    BuiltDepth(naive.entries);
    TrieIsLongestMatch(naive.entries, addr);
    x := trie.Route(addr);
    y := naive.Route(addr);
    Naives.ScanReadsFirst(naive.entries, addr, y);
    DuplicatesExact(naive.entries);
    if WellFormed(naive.entries) {
      Naives.ScanIsLongestMatch(naive.entries, addr, y);
      LookupUnique(naive.entries, addr, x, y);
    }
  }

  /** A valid result without the direct flag is a legal index into a vector as long as the mapping. */
  lemma GatewayIndexInRange(original: Table, t: Table, m: Mapping, netmap: Netmap, a: Word, index: nat)
    requires Updated(original, t, m, netmap) && IsRead(t, a, index)
    ensures index < NH_DIRECTLY_CONNECTED ==> index < |m|
    ensures index < 0x10000
  {
    var k := ReadFrom(t, a);
    if Read(t, a, 32).Some? {
      IndexOf(original, t, m, netmap, k, Read(t, a, 32).value);
    }
  }
}
