/** What next-hop numbering means (src/routingTable.cpp, `buildNextHopList`). */
module Numbering {
  import opened Words
  import opened Rib
  import opened Routes

  datatype NextHopEntry = NextHopEntry(ip: Word, iface: IfaceId, index: nat)

  type Mapping = seq<NextHopEntry>

  /** Current netmap index of each interface. */
  type Netmap = map<IfaceId, nat>

  /** `0x8000 | (0x7fff & n)` */
  function DirectIndex(n: nat): nat {
    NH_DIRECTLY_CONNECTED + n % 0x8000
  }

  /** `n++` on 16 bits */
  function Increment(n: nat): nat {
    if n == 0xffff then 0 else n + 1
  }

  ghost function Ips(m: Mapping): set<Word> {
    set e | e in m :: e.ip
  }

  ghost predicate DistinctIps(m: Mapping) {
    forall i, j :: 0 <= i < j < |m| ==> m[i].ip != m[j].ip
  }

  /** What every call of the numbering leaves behind, starting from an empty mapping: no gateway
      appears twice, and no index is the invalid one or past the end. */
  ghost predicate MappingOk(m: Mapping) {
    DistinctIps(m) && forall e :: e in m ==> e.index < NH_INVALID && e.index < |m|
  }

  /** Entry `i` has index `i`, and no gateway appears twice. */
  ghost predicate Dense(m: Mapping) {
    DistinctIps(m) && forall i :: 0 <= i < |m| ==> m[i].index == i
  }

  /** The index stored with each gateway of the table is its position. */
  ghost predicate SoundFor(t: Table, m: Mapping) {
    forall i :: 0 <= i < |m| && m[i].ip in Gateways(t) ==> m[i].index == i
  }

  /** The routes before position `(len, i)`, in the order of the nested loops. */
  ghost function Visited(t: Table, len: nat, i: nat): set<Route>
    requires len <= |t| && (i == 0 || (len < |t| && i <= |t[len]|))
  {
    (set k, r | 0 <= k < len && r in t[k] :: r) + (if i == 0 then {} else set r | r in t[len][..i])
  }

  ghost function AllRoutes(t: Table): set<Route> {
    Visited(t, |t|, 0)
  }

  ghost function Gateways(t: Table): set<Word> {
    set h | h in HopsOf(t) && h.gateway != ZERO :: h.gateway
  }

  ghost predicate Known(t: Table, m: Mapping) {
    Gateways(t) <= Ips(m)
  }

  ghost predicate DirectOnNetmap(t: Table, netmap: Netmap) {
    forall h :: h in HopsOf(t) && h.gateway == ZERO ==> h.iface in netmap
  }

  /** No gateway is used on two interfaces. */
  ghost predicate OneInterface(t: Table) {
    forall g, h :: g in HopsOf(t) && h in HopsOf(t) && g.gateway == h.gateway != ZERO ==> g == h
  }

  /** The mapping has the gateways it knows on the interfaces the table uses. */
  ghost predicate AgreesWith(t: Table, m: Mapping) {
    forall h, e :: h in HopsOf(t) && h.gateway != ZERO && e in m && e.ip == h.gateway ==> e.iface == h.iface
  }

  ghost predicate DirectIndexed(r: Route, netmap: Netmap) {
    r.nextHop == ZERO ==> r.iface in netmap && r.index == DirectIndex(netmap[r.iface])
  }

  ghost predicate GatewayIndexed(r: Route, m: Mapping) {
    r.nextHop != ZERO ==> r.index < |m| && m[r.index].ip == r.nextHop
  }

  ghost predicate AllDirectIndexed(t: Table, netmap: Netmap) {
    forall r :: r in AllRoutes(t) ==> DirectIndexed(r, netmap)
  }

  /** Every gateway index leads to the gateway, every direct index holds the interface number. */
  ghost predicate AllIndexed(t: Table, m: Mapping, netmap: Netmap) {
    AllDirectIndexed(t, netmap) && forall r :: r in AllRoutes(t) ==> GatewayIndexed(r, m)
  }

  /** Gateway AND interface of every index are those of the route. */
  ghost predicate AllLead(t: Table, m: Mapping, netmap: Netmap) {
    && AllDirectIndexed(t, netmap)
    && forall r :: r in AllRoutes(t) && r.nextHop != ZERO ==>
         r.index < |m| && m[r.index].ip == r.nextHop && m[r.index].iface == r.iface
  }

  ghost predicate OnRouteIfaces(m: Mapping, done: set<Route>) {
    forall e :: e in m ==> exists r :: r in done && r.nextHop == e.ip && r.iface == e.iface
  }

  /** The entries added to a mapping are numbered from zero. */
  ghost predicate FromZero(m0: Mapping, m: Mapping) {
    forall k :: |m0| <= k < |m| ==> m[k].index == k - |m0|
  }

  /** Every gateway of the mapping is used by the table, on that interface. */
  ghost predicate FromHops(m: Mapping, t: Table) {
    forall e :: e in m ==> Hop(e.ip, e.iface) in HopsOf(t)
  }

  ghost predicate SameButIndex(t: Table, u: Table) {
    && |t| == |u|
    && (forall k :: 0 <= k < |t| ==> |t[k]| == |u[k]|)
    && forall k, j :: 0 <= k < |t| && 0 <= j < |t[k]| ==> u[k][j] == t[k][j].(index := u[k][j].index)
  }

  /** A visited route whose gateway was not in the old mapping and got an index of that mapping. */
  ghost predicate Misnumbered(m0: Mapping, done: set<Route>) {
    exists r :: r in done && r.nextHop != ZERO && r.nextHop !in Ips(m0) && r.index == 0
  }

  /** The route has the index stored with its gateway. */
  ghost predicate HasIndex(m: Mapping, r: Route) {
    exists j :: 0 <= j < |m| && m[j].ip == r.nextHop && m[j].index == r.index
  }

  ghost predicate GatewaysIn(m: Mapping, done: set<Route>) {
    forall r :: r in done && r.nextHop != ZERO ==> HasIndex(m, r)
  }

  ghost predicate NonZeroIps(m: Mapping) {
    forall e :: e in m ==> e.ip != ZERO
  }

  /** Loop invariant of the numbering, over the routes visited so far. */
  ghost predicate Progress(m0: Mapping, m: Mapping, next: nat, done: set<Route>, netmap: Netmap) {
    && m0 <= m && MappingOk(m) && next == |m| - |m0|
    && (forall r :: r in done ==> DirectIndexed(r, netmap))
    && GatewaysIn(m, done)
    && OnRouteIfaces(m[|m0|..], done) && NonZeroIps(m[|m0|..])
    && FromZero(m0, m)
    && (m0 == [] || m == m0 || Misnumbered(m0, done))
  }

  lemma ProgressDirect(m0: Mapping, m: Mapping, next: nat, done: set<Route>, netmap: Netmap, r: Route)
    requires Progress(m0, m, next, done, netmap)
    requires r.nextHop == ZERO && DirectIndexed(r, netmap)
    ensures Progress(m0, m, next, done + {r}, netmap)
  {
  }

  lemma ProgressFound(m0: Mapping, m: Mapping, next: nat, done: set<Route>, netmap: Netmap, r: Route)
    requires Progress(m0, m, next, done, netmap)
    requires r.nextHop != ZERO && HasIndex(m, r)
    ensures Progress(m0, m, next, done + {r}, netmap)
  {
  }

  lemma DistinctAppend(m: Mapping, e: NextHopEntry)
    requires DistinctIps(m) && e.ip !in Ips(m)
    ensures DistinctIps(m + [e])
  {
  }

  lemma NewIsMisnumbered(m0: Mapping, m: Mapping, done: set<Route>, r: Route)
    requires m0 <= m && r.nextHop != ZERO && r.nextHop !in Ips(m)
    requires m == m0 || Misnumbered(m0, done)
    requires r.index == |m| - |m0|
    ensures Misnumbered(m0, done + {r})
  {
  }

  lemma IndexedAppend(m: Mapping, done: set<Route>, r: Route, e: NextHopEntry)
    requires GatewaysIn(m, done) && r.index == e.index && r.nextHop == e.ip
    ensures GatewaysIn(m + [e], done + {r})
  {
    var n := m + [e];
    forall q | q in done + {r} && q.nextHop != ZERO ensures HasIndex(n, q) {
      if q in done {
        var j :| 0 <= j < |m| && m[j].ip == q.nextHop && m[j].index == q.index;
        assert n[j] == m[j];
      } else {
        assert n[|m|] == e;
      }
    }
  }

  lemma AddedAppend(m0: Mapping, m: Mapping, done: set<Route>, r: Route, e: NextHopEntry)
    requires m0 <= m && OnRouteIfaces(m[|m0|..], done) && NonZeroIps(m[|m0|..])
    requires e.ip == r.nextHop != ZERO && e.iface == r.iface
    ensures OnRouteIfaces((m + [e])[|m0|..], done + {r}) && NonZeroIps((m + [e])[|m0|..])
  {
  }

  lemma ProgressNew(m0: Mapping, m: Mapping, next: nat, done: set<Route>, netmap: Netmap, r: Route)
    requires Progress(m0, m, next, done, netmap)
    requires r.nextHop != ZERO && r.nextHop !in Ips(m) && r.index == next < NH_INVALID
    ensures Progress(m0, m + [NextHopEntry(r.nextHop, r.iface, next)], next + 1, done + {r}, netmap)
  {
    var e := NextHopEntry(r.nextHop, r.iface, next);
    DistinctAppend(m, e);
    AddedAppend(m0, m, done, r, e);
    IndexedAppend(m, done, r, e);
    if m0 != [] {
      NewIsMisnumbered(m0, m, done, r);
    }
  }

  lemma VisitedNext(t: Table, len: nat, i: nat, r: Route)
    requires len < |t| && i < |t[len]|
    ensures Visited(t[len := t[len][i := r]], len, i + 1) == Visited(t, len, i) + {r}
  {
    var u: Table := t[len := t[len][i := r]];
    assert u[len][..i + 1] == t[len][..i] + [r];
    forall q ensures q in Visited(u, len, i + 1) <==> q in Visited(t, len, i) + {r} {
      assert forall k :: 0 <= k < len ==> u[k] == t[k];
    }
  }

  lemma VisitedLevel(t: Table, len: nat)
    requires len < |t|
    ensures Visited(t, len, |t[len]|) == Visited(t, len + 1, 0)
  {
    assert t[len][..|t[len]|] == t[len];
  }

  /** Numbering does not touch the hops. */
  lemma SameHops(t: Table, u: Table)
    requires SameButIndex(t, u)
    ensures HopsOf(t) == HopsOf(u)
  {
    forall h ensures h in HopsOf(t) <==> h in HopsOf(u) {
      if h in HopsOf(t) {
        var k, r :| 0 <= k < |t| && r in t[k] && HopOf(r) == h;
        var j :| 0 <= j < |t[k]| && t[k][j] == r;
        assert u[k][j] in u[k] && HopOf(u[k][j]) == h;
      }
      if h in HopsOf(u) {
        var k, r :| 0 <= k < |u| && r in u[k] && HopOf(r) == h;
        var j :| 0 <= j < |u[k]| && u[k][j] == r;
        assert t[k][j] in t[k] && HopOf(t[k][j]) == h;
      }
    }
  }

  lemma RouteOfHop(t: Table, h: Hop) returns (r: Route)
    requires h in HopsOf(t)
    ensures r in AllRoutes(t) && HopOf(r) == h
  {
    var k, q :| 0 <= k < |t| && q in t[k] && HopOf(q) == h;
    r := q;
  }

  lemma HopOfRoute(t: Table, r: Route)
    requires r in AllRoutes(t)
    ensures HopOf(r) in HopsOf(t) && (r.nextHop != ZERO ==> r.nextHop in Gateways(t))
  {
    var k :| 0 <= k < |t| && r in t[k];
    assert HopOf(r) in HopsOf(t);
  }

  lemma {:induction false} IpsSize(m: Mapping)
    requires DistinctIps(m)
    ensures |Ips(m)| == |m|
  {
    if m != [] {
      var k := |m| - 1;
      IpsSize(m[..k]);
      assert Ips(m) == Ips(m[..k]) + {m[k].ip} by {
        assert m == m[..k] + [m[k]];
      }
    }
  }

  lemma SubsetSize(a: set<Word>, b: set<Word>)
    requires a <= b
    ensures |a| <= |b|
  {
    assert b == a + (b - a);
  }

  /** The numbering never uses more indices than there are new gateways. */
  lemma NextBounded(m0: Mapping, m: Mapping, next: nat, done: set<Route>, netmap: Netmap, gateways: set<Word>)
    requires Progress(m0, m, next, done, netmap)
    requires forall r :: r in done && r.nextHop != ZERO ==> r.nextHop in gateways
    ensures next <= |gateways - Ips(m0)|
  {
    var added := m[|m0|..];
    IpsSize(added);
    forall e | e in added ensures e.ip in gateways - Ips(m0) {
      NewIsUnknown(m0, m, e);
    }
    SubsetSize(Ips(added), gateways - Ips(m0));
  }

  lemma NewIsUnknown(m0: Mapping, m: Mapping, e: NextHopEntry)
    requires m0 <= m && DistinctIps(m) && e in m[|m0|..]
    ensures e.ip !in Ips(m0)
  {
    var i :| 0 <= i < |m[|m0|..]| && m[|m0|..][i] == e;
    forall x | x in m0 ensures x.ip != e.ip {
      var j :| 0 <= j < |m0| && m0[j] == x;
      assert m[j].ip != m[|m0| + i].ip;
    }
  }

  /** A mapping grows only for a gateway it did not know. */
  lemma GrownHasNew(m0: Mapping, m: Mapping, next: nat, t: Table, netmap: Netmap)
    requires Progress(m0, m, next, AllRoutes(t), netmap) && m != m0
    ensures !Known(t, m0)
  {
    var e := m[|m0|];
    assert e == m[|m0|..][0];
    assert e in m[|m0|..];
    var r :| r in AllRoutes(t) && r.nextHop == e.ip && r.iface == e.iface;
    HopOfRoute(t, r);
    NewIsUnknown(m0, m, e);
  }

  /** A route with a position-true index has the right one, and conversely. */
  lemma IndexOfPosition(m: Mapping, r: Route, j: nat)
    requires DistinctIps(m) && j < |m| && m[j].ip == r.nextHop != ZERO && m[j].index == r.index
    ensures GatewayIndexed(r, m) <==> m[j].index == j
  {
  }

  lemma SoundIndexed(t: Table, m: Mapping)
    requires DistinctIps(m) && GatewaysIn(m, AllRoutes(t))
    ensures SoundFor(t, m) <==> forall r :: r in AllRoutes(t) ==> GatewayIndexed(r, m)
  {
    if SoundFor(t, m) {
      forall r | r in AllRoutes(t) && r.nextHop != ZERO ensures GatewayIndexed(r, m) {
        var j :| 0 <= j < |m| && m[j].ip == r.nextHop && m[j].index == r.index;
        HopOfRoute(t, r);
        IndexOfPosition(m, r, j);
      }
    } else {
      var i :| 0 <= i < |m| && m[i].ip in Gateways(t) && m[i].index != i;
      var h :| h in HopsOf(t) && h.gateway != ZERO && h.gateway == m[i].ip;
      var r := RouteOfHop(t, h);
      var j :| 0 <= j < |m| && m[j].ip == r.nextHop && m[j].index == r.index;
      IndexOfPosition(m, r, j);
      assert !GatewayIndexed(r, m);
    }
  }

  /** When all routes are visited, the gateway indices are right exactly when the mapping
      started empty, or already knew every gateway at its position. */
  lemma NumberingExact(m0: Mapping, m: Mapping, next: nat, t: Table, netmap: Netmap)
    requires Progress(m0, m, next, AllRoutes(t), netmap)
    ensures AllIndexed(t, m, netmap) <==> m0 == [] || (Known(t, m0) && SoundFor(t, m0))
    ensures Known(t, m0) ==> m == m0
  {
    SoundIndexed(t, m);
    if m != m0 {
      GrownHasNew(m0, m, next, t, netmap);
      if m0 != [] {
        var r :| r in AllRoutes(t) && r.nextHop != ZERO && r.nextHop !in Ips(m0) && r.index == 0;
        assert m[0] == m0[0] && m0[0] in m0;
        assert !GatewayIndexed(r, m);
      }
    } else {
      AllKnown(t, m);
    }
  }

  lemma AllKnown(t: Table, m: Mapping)
    requires GatewaysIn(m, AllRoutes(t))
    ensures Known(t, m)
  {
    forall g | g in Gateways(t) ensures g in Ips(m) {
      var h :| h in HopsOf(t) && h.gateway != ZERO && h.gateway == g;
      var r := RouteOfHop(t, h);
      var j :| 0 <= j < |m| && m[j].ip == r.nextHop && m[j].index == r.index;
      assert m[j] in m;
    }
  }

  /** Right indices lead to the right interface too exactly when no gateway is used on two
      interfaces and the mapping had none on another one: the first route decides. */
  lemma InterfacesExact(m0: Mapping, m: Mapping, next: nat, t: Table, netmap: Netmap)
    requires Progress(m0, m, next, AllRoutes(t), netmap)
    ensures AllLead(t, m, netmap) <==> AllIndexed(t, m, netmap) && OneInterface(t) && AgreesWith(t, m0)
  {
    if AllLead(t, m, netmap) {
      LeadsToOne(t, m, netmap);
      forall h, e | h in HopsOf(t) && h.gateway != ZERO && e in m0 && e.ip == h.gateway ensures e.iface == h.iface {
        var r := RouteOfHop(t, h);
        var j :| 0 <= j < |m0| && m0[j] == e;
        assert m[j] == e;
      }
    }
    if AllIndexed(t, m, netmap) && OneInterface(t) && AgreesWith(t, m0) {
      forall r | r in AllRoutes(t) && r.nextHop != ZERO ensures m[r.index].iface == r.iface {
        assert GatewayIndexed(r, m);
        HopOfRoute(t, r);
        EntryInterface(m0, m, t, r.index, HopOf(r));
      }
    }
  }

  lemma LeadsToOne(t: Table, m: Mapping, netmap: Netmap)
    requires DistinctIps(m) && AllLead(t, m, netmap)
    ensures AllIndexed(t, m, netmap) && OneInterface(t)
  {
    forall g, h | g in HopsOf(t) && h in HopsOf(t) && g.gateway == h.gateway != ZERO ensures g == h {
      var r := RouteOfHop(t, g);
      var q := RouteOfHop(t, h);
      assert m[r.index].ip == m[q.index].ip;
    }
  }

  lemma EntryInterface(m0: Mapping, m: Mapping, t: Table, j: nat, h: Hop)
    requires m0 <= m && OnRouteIfaces(m[|m0|..], AllRoutes(t)) && OneInterface(t) && AgreesWith(t, m0)
    requires j < |m| && h in HopsOf(t) && h.gateway == m[j].ip != ZERO
    ensures m[j].iface == h.iface
  {
    if j < |m0| {
      assert m0[j] in m0;
    } else {
      assert m[|m0|..][j - |m0|] == m[j];
      assert m[j] in m[|m0|..];
      var q :| q in AllRoutes(t) && q.nextHop == m[j].ip && q.iface == m[j].iface;
      HopOfRoute(t, q);
    }
  }

  // The mapping in closed form.

  ghost function LevelHops(level: Level, n: nat): (hs: seq<Hop>)
    requires n <= |level|
    ensures |hs| == n
  {
    seq(n, j requires 0 <= j < n => HopOf(level[j]))
  }

  /** The hops of the first levels, in the order of the nested loops. */
  ghost function HopsUpTo(t: Table, len: nat): seq<Hop>
    requires len <= |t|
  {
    if len == 0 then [] else HopsUpTo(t, len - 1) + LevelHops(t[len - 1], |t[len - 1]|)
  }

  ghost function HopsBefore(t: Table, len: nat, i: nat): seq<Hop>
    requires len <= |t| && (i == 0 || (len < |t| && i <= |t[len]|))
  {
    HopsUpTo(t, len) + if i == 0 then [] else LevelHops(t[len], i)
  }

  /** Of a list of hops, the first one of each gateway that is not known. */
  ghost function FirstOfEach(hs: seq<Hop>, known: set<Word>): seq<Hop> {
    if hs == [] then []
    else
      var first, h := FirstOfEach(hs[..|hs| - 1], known), hs[|hs| - 1];
      if h.gateway == ZERO || h.gateway in known || (exists g :: g in first && g.gateway == h.gateway) then first
      else first + [h]
  }

  /** The new entries are these hops, numbered from zero. */
  ghost predicate ListedAs(m0: Mapping, m: Mapping, first: seq<Hop>) {
    && m0 <= m && |m| == |m0| + |first|
    && forall k :: 0 <= k < |first| ==> m[|m0| + k] == NextHopEntry(first[k].gateway, first[k].iface, k)
  }

  lemma ListedIps(m0: Mapping, m: Mapping, first: seq<Hop>, ip: Word)
    requires ListedAs(m0, m, first)
    ensures ip in Ips(m) <==> ip in Ips(m0) || exists g :: g in first && g.gateway == ip
  {
    if ip in Ips(m) {
      var e :| e in m && e.ip == ip;
      var j :| 0 <= j < |m| && m[j] == e;
      if j < |m0| {
        assert m0[j] in m0;
      } else {
        assert first[j - |m0|] in first;
      }
    }
    if ip in Ips(m0) {
      var e :| e in m0 && e.ip == ip;
      assert e in m;
    }
    if g :| g in first && g.gateway == ip {
      var k :| 0 <= k < |first| && first[k] == g;
      assert m[|m0| + k] in m;
    }
  }

  /** One route further. */
  lemma ListedNext(m0: Mapping, m: Mapping, next: nat, netmap: Netmap, hs: seq<Hop>, route: Route, r: Route, m': Mapping, next': nat)
    requires ListedAs(m0, m, FirstOfEach(hs, Ips(m0))) && next == |m| - |m0|
    requires NumberedRoute(route, m, next, netmap, r, m', next')
    ensures ListedAs(m0, m', FirstOfEach(hs + [HopOf(r)], Ips(m0)))
  {
    var more := hs + [HopOf(r)];
    assert more[..|more| - 1] == hs && more[|more| - 1] == HopOf(r);
    ListedIps(m0, m, FirstOfEach(hs, Ips(m0)), route.nextHop);
  }

  lemma {:induction false} HopsUpToSame(t: Table, u: Table, len: nat)
    requires len <= |t| && len <= |u|
    requires forall k :: 0 <= k < len ==> |t[k]| == |u[k]| && forall j :: 0 <= j < |t[k]| ==> HopOf(t[k][j]) == HopOf(u[k][j])
    ensures HopsUpTo(t, len) == HopsUpTo(u, len)
  {
    if len > 0 {
      HopsUpToSame(t, u, len - 1);
      assert LevelHops(t[len - 1], |t[len - 1]|) == LevelHops(u[len - 1], |u[len - 1]|);
    }
  }

  lemma HopsNext(t: Table, len: nat, i: nat, r: Route)
    requires len < |t| && i < |t[len]| && HopOf(r) == HopOf(t[len][i])
    ensures HopsBefore(t[len := t[len][i := r]], len, i + 1) == HopsBefore(t, len, i) + [HopOf(r)]
  {
    var u := t[len := t[len][i := r]];
    HopsUpToSame(t, u, len);
    assert LevelHops(u[len], i + 1) == LevelHops(t[len], i) + [HopOf(r)];
  }

  lemma HopsLevel(t: Table, len: nat)
    requires len < |t|
    ensures HopsBefore(t, len, |t[len]|) == HopsBefore(t, len + 1, 0)
  {
  }

  /** The numbering has reached position `(len, i)`. */
  ghost predicate NumberedTo(t0: Table, m0: Mapping, t: Table, m: Mapping, next: nat, netmap: Netmap, len: nat, i: nat) {
    && SameButIndex(t0, t)
    && len <= |t| && (i == 0 || (len < |t| && i <= |t[len]|))
    && Progress(m0, m, next, Visited(t, len, i), netmap)
    && ListedAs(m0, m, FirstOfEach(HopsBefore(t, len, i), Ips(m0)))
  }

  lemma VisitedIsRoute(t: Table, len: nat, i: nat, r: Route)
    requires len < |t| && i < |t[len]| && r in Visited(t, len, i) + {t[len][i]}
    ensures r in AllRoutes(t)
  {
    assert t[len][i] in t[len];
    assert forall r :: r in t[len][..i] ==> r in t[len];
  }

  lemma RouteToNumber(t0: Table, m0: Mapping, t: Table, m: Mapping, next: nat, netmap: Netmap, len: nat, i: nat)
    requires NumberedTo(t0, m0, t, m, next, netmap, len, i) && len < |t| && i < |t[len]|
    requires DirectOnNetmap(t0, netmap)
    ensures t[len][i].nextHop == ZERO ==> t[len][i].iface in netmap
    ensures forall r :: r in Visited(t, len, i) + {t[len][i]} && r.nextHop != ZERO ==> r.nextHop in Gateways(t0)
  {
    SameHops(t0, t);
    forall r | r in Visited(t, len, i) + {t[len][i]} ensures HopOf(r) in HopsOf(t0) {
      VisitedIsRoute(t, len, i, r);
      HopOfRoute(t, r);
    }
    assert HopOf(t[len][i]) in HopsOf(t0);
  }

  /** What one step of the numbering does with a route. */
  ghost predicate NumberedRoute(route: Route, m: Mapping, next: nat, netmap: Netmap, r: Route, m': Mapping, next': nat) {
    && r == route.(index := r.index)
    && if route.nextHop == ZERO then
         DirectIndexed(r, netmap) && m' == m && next' == next
       else if route.nextHop in Ips(m) then
         m' == m && next' == next && HasIndex(m, r)
       else
         r.index == next && m' == m + [NextHopEntry(route.nextHop, route.iface, next)] && next' == Increment(next)
  }

  /** Before a new gateway is numbered, not all of them are. */
  lemma NewBounded(m0: Mapping, m: Mapping, next: nat, done: set<Route>, netmap: Netmap, gateways: set<Word>, g: Word)
    requires Progress(m0, m, next, done, netmap) && g in gateways && g !in Ips(m)
    requires forall r :: r in done && r.nextHop != ZERO ==> r.nextHop in gateways
    ensures next < |gateways - Ips(m0)|
  {
    forall r | r in done && r.nextHop != ZERO ensures r.nextHop in gateways - {g} {
      var j :| 0 <= j < |m| && m[j].ip == r.nextHop && m[j].index == r.index;
      assert m[j] in m;
    }
    NextBounded(m0, m, next, done, netmap, gateways - {g});
    assert forall e :: e in m0 ==> e in m;
    var rest := gateways - Ips(m0);
    assert gateways - {g} - Ips(m0) == rest - {g};
  }

  lemma StepKeepsProgress(m0: Mapping, m: Mapping, next: nat, done: set<Route>, netmap: Netmap, gateways: set<Word>,
                          route: Route, r: Route, m': Mapping, next': nat)
    requires Progress(m0, m, next, done, netmap) && NumberedRoute(route, m, next, netmap, r, m', next')
    requires forall q :: q in done && q.nextHop != ZERO ==> q.nextHop in gateways
    requires route.nextHop == ZERO || route.nextHop in gateways
    requires |gateways - Ips(m0)| <= 0xffff
    ensures Progress(m0, m', next', done + {r}, netmap)
  {
    if route.nextHop == ZERO {
      ProgressDirect(m0, m, next, done, netmap, r);
    } else if route.nextHop in Ips(m) {
      ProgressFound(m0, m, next, done, netmap, r);
    } else {
      NewBounded(m0, m, next, done, netmap, gateways, route.nextHop);
      ProgressNew(m0, m, next, done, netmap, r);
    }
  }

  lemma RouteNumbered(t0: Table, m0: Mapping, t: Table, m: Mapping, next: nat, netmap: Netmap, len: nat, i: nat,
                      r: Route, m': Mapping, next': nat)
    requires NumberedTo(t0, m0, t, m, next, netmap, len, i) && len < |t| && i < |t[len]|
    requires NumberedRoute(t[len][i], m, next, netmap, r, m', next') && |Gateways(t0) - Ips(m0)| <= 0xffff
    requires forall q :: q in Visited(t, len, i) + {t[len][i]} && q.nextHop != ZERO ==> q.nextHop in Gateways(t0)
    ensures NumberedTo(t0, m0, t[len := t[len][i := r]], m', next', netmap, len, i + 1)
  {
    StepKeepsProgress(m0, m, next, Visited(t, len, i), netmap, Gateways(t0), t[len][i], r, m', next');
    VisitedNext(t, len, i, r);
    IndexWritten(t0, t, len, i, r);
    HopsNext(t, len, i, r);
    ListedNext(m0, m, next, netmap, HopsBefore(t, len, i), t[len][i], r, m', next');
  }

  lemma LevelNumbered(t0: Table, m0: Mapping, t: Table, m: Mapping, next: nat, netmap: Netmap, len: nat)
    requires len < |t| && NumberedTo(t0, m0, t, m, next, netmap, len, |t[len]|)
    ensures NumberedTo(t0, m0, t, m, next, netmap, len + 1, 0)
  {
    VisitedLevel(t, len);
    HopsLevel(t, len);
  }

  lemma IndexWritten(t0: Table, t: Table, len: nat, i: nat, r: Route)
    requires SameButIndex(t0, t) && len < |t| && i < |t[len]|
    requires r == t[len][i].(index := r.index)
    ensures SameButIndex(t0, t[len := t[len][i := r]])
  {
  }

  lemma AddedFromHops(m0: Mapping, m: Mapping, t: Table)
    requires m0 <= m && OnRouteIfaces(m[|m0|..], AllRoutes(t))
    ensures FromHops(m[|m0|..], t)
  {
    forall e | e in m[|m0|..] ensures Hop(e.ip, e.iface) in HopsOf(t) {
      var r :| r in AllRoutes(t) && r.nextHop == e.ip && r.iface == e.iface;
      HopOfRoute(t, r);
    }
  }

  /** From an empty mapping the numbered gateways are exactly the gateways of the table. */
  lemma FreshIps(m: Mapping, next: nat, t: Table, netmap: Netmap)
    requires Progress([], m, next, AllRoutes(t), netmap)
    ensures Ips(m) == Gateways(t)
  {
    AllKnown(t, m);
    assert m[0..] == m;
    AddedFromHops([], m, t);
    forall e | e in m ensures e.ip in Gateways(t) {
      assert Hop(e.ip, e.iface) in HopsOf(t);
    }
  }

  lemma VisitedNone(t: Table)
    ensures Visited(t, 0, 0) == {}
  {
  }

  /** Gateway routes have the index stored with their gateway. New gateways are entered once, on the
      interface of a route, and numbered from zero on each call. */
  ghost predicate Entered(t0: Table, m0: Mapping, t: Table, m: Mapping) {
    && m0 <= m && MappingOk(m) && GatewaysIn(m, AllRoutes(t)) && FromHops(m[|m0|..], t0) && FromZero(m0, m)
    && (Known(t0, m0) ==> m == m0)
    && (m0 == [] ==> Dense(m) && Ips(m) == Gateways(t0))
  }

  /** What numbering a table, starting from a mapping, promises about the numbered table and the
      new mapping. Indices lead to their gateways exactly when the mapping was empty or knew all of
      them at their positions; they lead to the interfaces of their routes exactly when, besides,
      no gateway is used on two interfaces or is known on another one. New gateways are listed in the
      order in which the levels first name them, each on the interface it is first named with. */
  ghost predicate NumberedFrom(t0: Table, m0: Mapping, t: Table, m: Mapping, netmap: Netmap) {
    && SameButIndex(t0, t) && AllDirectIndexed(t, netmap) && Entered(t0, m0, t, m)
    && ListedAs(m0, m, FirstOfEach(HopsUpTo(t0, |t0|), Ips(m0)))
    && (AllIndexed(t, m, netmap) <==> m0 == [] || (Known(t0, m0) && SoundFor(t0, m0)))
    && (AllLead(t, m, netmap) <==> AllIndexed(t, m, netmap) && OneInterface(t0) && AgreesWith(t0, m0))
  }

  lemma SameNeeds(t: Table, u: Table, m: Mapping)
    requires HopsOf(t) == HopsOf(u)
    ensures Gateways(t) == Gateways(u) && (Known(t, m) <==> Known(u, m)) && (SoundFor(t, m) <==> SoundFor(u, m))
    ensures (OneInterface(t) <==> OneInterface(u)) && (AgreesWith(t, m) <==> AgreesWith(u, m))
  {
  }

  lemma AllEntered(m0: Mapping, m: Mapping, next: nat, t: Table, netmap: Netmap)
    requires Progress(m0, m, next, AllRoutes(t), netmap)
    ensures Entered(t, m0, t, m)
  {
    AddedFromHops(m0, m, t);
    if m != m0 {
      GrownHasNew(m0, m, next, t, netmap);
    }
    if m0 == [] {
      FreshIps(m, next, t, netmap);
    }
  }

  lemma EnteredSame(t0: Table, m0: Mapping, t: Table, m: Mapping)
    requires HopsOf(t0) == HopsOf(t) && Entered(t, m0, t, m)
    ensures Entered(t0, m0, t, m)
  {
    SameNeeds(t0, t, m0);
    assert FromHops(m[|m0|..], t0);
  }

  lemma NumberingDone(m0: Mapping, m: Mapping, next: nat, t0: Table, t: Table, netmap: Netmap)
    requires NumberedTo(t0, m0, t, m, next, netmap, |t|, 0)
    ensures NumberedFrom(t0, m0, t, m, netmap)
  {
    HopsUpToSame(t0, t, |t|);
    assert HopsBefore(t, |t|, 0) == HopsUpTo(t, |t|);
    NumberingExact(m0, m, next, t, netmap);
    InterfacesExact(m0, m, next, t, netmap);
    AllEntered(m0, m, next, t, netmap);
    SameHops(t0, t);
    EnteredSame(t0, m0, t, m);
    SameNeeds(t0, t, m0);
  }

  /** Renumbering over the same mapping keeps every gateway index; direct indices follow the
      current interface numbers. */
  lemma RenumberingStable(t: Table, u: Table, m: Mapping, was: Netmap, now: Netmap, k: nat, j: nat)
    requires SameButIndex(t, u) && Dense(m) && AllIndexed(t, m, was) && AllIndexed(u, m, now)
    requires k < |t| && j < |t[k]|
    ensures t[k][j].nextHop != ZERO ==> u[k][j].index == t[k][j].index
    ensures t[k][j].nextHop == ZERO ==>
              t[k][j].iface in now && u[k][j].index == DirectIndex(now[t[k][j].iface])
  {
    assert t[k][j] in t[k] && u[k][j] in u[k];
    assert t[k][j] in AllRoutes(t) && u[k][j] in AllRoutes(u);
  }

  /** Renumbering leaves the meaning of a table alone. */
  lemma IndicesDoNotMatter(t: Table, u: Table)
    requires CanonicalTable(t) && SameButIndex(t, u)
    ensures CanonicalTable(u) && RibOf(u) == RibOf(t) && HopsOf(u) == HopsOf(t)
    ensures WellFormed(t) ==> WellFormed(u)
  {
    SameCanonical(t, u);
    SameHops(t, u);
    if WellFormed(t) {
      forall len | 0 <= len < 33 ensures Distinct(u[len]) {
        SameDistinct(t[len], u[len]);
      }
    }
    forall e ensures e in RibOf(u) <==> e in RibOf(t) {
      if e in RibOf(t) { SameEntry(t, u, e); }
      if e in RibOf(u) { SameEntry(u, t, e); }
    }
  }

  lemma SameEntry(t: Table, u: Table, e: Entry)
    requires CanonicalTable(t) && CanonicalTable(u) && (SameButIndex(t, u) || SameButIndex(u, t)) && e in RibOf(t)
    ensures e in RibOf(u)
  {
    var r := FromRib(t, e);
    var j :| 0 <= j < |t[|e.prefix|]| && t[|e.prefix|][j] == r;
    InRib(u, |e.prefix|, u[|e.prefix|][j]);
  }

  lemma SameCanonical(t: Table, u: Table)
    requires CanonicalTable(t) && SameButIndex(t, u)
    ensures CanonicalTable(u)
  {
    forall len, r | 0 <= len < 33 && r in u[len] ensures Canonical(r, len) {
      var j :| 0 <= j < |u[len]| && u[len][j] == r;
      assert t[len][j] in t[len];
    }
  }

  lemma SameDistinct(level: Level, other: Level)
    requires Distinct(level) && |level| == |other|
    requires forall j :: 0 <= j < |level| ==> other[j] == level[j].(index := other[j].index)
    ensures Distinct(other)
  {
    forall i, j | 0 <= i < j < |level| ensures other[i].base != other[j].base {
      if other[i].base == other[j].base {
        assert level[i].base == level[j].base;
        CountTwo(level, i, j);
      }
    }
    DistinctBases(other);
  }

  lemma {:induction false} DistinctBases(level: Level)
    requires forall i, j :: 0 <= i < j < |level| ==> level[i].base != level[j].base
    ensures Distinct(level)
  {
    if level != [] {
      var k := |level| - 1;
      DistinctBases(level[..k]);
      assert level == level[..k] + [level[k]];
      assert level[k] !in multiset(level[..k]);
    }
  }
}
