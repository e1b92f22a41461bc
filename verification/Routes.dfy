/** Routes and level-indexed tables (include/routingTable.hpp), and their meaning as a Rib. */
module Routes {
  import opened Words
  import opened Rib

  const NH_INVALID := 0xffff
  const NH_DIRECTLY_CONNECTED := 0x8000

  datatype Route = Route(base: Word, nextHop: Word, prefixLength: nat, iface: IfaceId, index: nat)

  type Level = seq<Route>

  type Table = seq<Level>

  function HopOf(r: Route): Hop {
    Hop(r.nextHop, r.iface)
  }

  function PrefixOf(r: Route): Bits
    requires r.prefixLength <= 32
  {
    r.base[..r.prefixLength]
  }

  function EntryOf(r: Route): Entry
    requires r.prefixLength <= 32
  {
    Entry(PrefixOf(r), HopOf(r))
  }

  /** The base has no bits past the prefix length, which is the level the route is stored at. */
  ghost predicate Canonical(r: Route, len: nat) {
    r.prefixLength == len && len <= 32 && r.base == Pad(r.base[..len])
  }

  ghost predicate AllCanonical(level: Level, len: nat) {
    forall r :: r in level ==> Canonical(r, len)
  }

  ghost predicate Distinct(level: Level) {
    && (forall r, q :: r in level && q in level && r.base == q.base ==> r == q)
    && (forall r :: r in level ==> multiset(level)[r] == 1)
  }

  ghost predicate CanonicalTable(t: Table) {
    |t| == 33 && forall len :: 0 <= len < 33 ==> AllCanonical(t[len], len)
  }

  ghost predicate WellFormed(t: Table) {
    CanonicalTable(t) && forall len :: 0 <= len < 33 ==> Distinct(t[len])
  }

  ghost function RibOf(t: Table): Rib
    requires CanonicalTable(t)
  {
    set len, r | 0 <= len < 33 && r in t[len] :: EntryOf(r)
  }

  /** The gateways, and the interfaces they are reached on, that a table mentions. */
  ghost function HopsOf(t: Table): set<Hop> {
    set k, r | 0 <= k < |t| && r in t[k] :: HopOf(r)
  }

  function Total(t: Table): nat {
    if t == [] then 0 else Total(t[..|t| - 1]) + |t[|t| - 1]|
  }

  /** The route is a longest match for the address. */
  ghost predicate BestRoute(t: Table, a: Word, r: Route)
    requires CanonicalTable(t)
  {
    && r.prefixLength <= 32
    && r in t[r.prefixLength]
    && PrefixOf(r) <= a
    && forall len, q :: 0 <= len < 33 && q in t[len] && PrefixOf(q) <= a ==> len <= r.prefixLength
  }

  ghost predicate NoMatch(t: Table, a: Word)
    requires CanonicalTable(t)
  {
    forall len, r :: 0 <= len < 33 && r in t[len] ==> !(PrefixOf(r) <= a)
  }

  /** The answer a lookup owes: the index of the longest match, or NH_INVALID without one. */
  ghost predicate IsLookup(t: Table, a: Word, index: nat)
    requires CanonicalTable(t)
  {
    && (forall r :: BestRoute(t, a, r) ==> index == r.index)
    && (NoMatch(t, a) ==> index == NH_INVALID)
  }

  ghost predicate ValidIndices(t: Table) {
    forall len, r :: 0 <= len < |t| && r in t[len] ==> r.index != NH_INVALID
  }

  /** A canonical base equals the masked address exactly when the prefix matches. */
  lemma CanonicalMatch(r: Route, len: nat, a: Word)
    requires Canonical(r, len)
    ensures r.base == Pad(a[..len]) <==> PrefixOf(r) <= a
  {
  }

  lemma SameBase(r: Route, q: Route, len: nat)
    requires Canonical(r, len) && Canonical(q, len) && PrefixOf(r) == PrefixOf(q)
    ensures r.base == q.base
  {
  }

  lemma InRib(t: Table, len: nat, r: Route)
    requires CanonicalTable(t) && len < 33 && r in t[len]
    ensures EntryOf(r) in RibOf(t)
  {
  }

  lemma FromRib(t: Table, e: Entry) returns (r: Route)
    requires CanonicalTable(t) && e in RibOf(t)
    ensures |e.prefix| < 33 && r in t[|e.prefix|] && EntryOf(r) == e
  {
    var len, q :| 0 <= len < 33 && q in t[len] && EntryOf(q) == e;
    r := q;
  }

  lemma WellFormedUnique(t: Table)
    requires WellFormed(t)
    ensures Unique(RibOf(t))
  {
  }

  /** Longest matches of routes are longest matches of their entries. */
  lemma BestRouteIsBest(t: Table, a: Word, r: Route)
    requires CanonicalTable(t) && BestRoute(t, a, r)
    ensures Best(RibOf(t), a, EntryOf(r))
  {
  }

  lemma BestRouteExists(t: Table, a: Word, e: Entry) returns (r: Route)
    requires CanonicalTable(t) && Best(RibOf(t), a, e)
    ensures BestRoute(t, a, r) && EntryOf(r) == e
  {
    r := FromRib(t, e);
    forall len, q | 0 <= len < 33 && q in t[len] && PrefixOf(q) <= a ensures len <= r.prefixLength {
      InRib(t, len, q);
    }
  }

  /** An address either has a longest matching route or no matching route at all. */
  lemma MatchOrNot(t: Table, a: Word)
    requires CanonicalTable(t)
    ensures NoMatch(t, a) || exists r :: BestRoute(t, a, r)
  {
    if !NoMatch(t, a) {
      var len, q :| 0 <= len < 33 && q in t[len] && PrefixOf(q) <= a;
      InRib(t, len, q);
      var e := BestExists(RibOf(t), a, EntryOf(q));
      var r := BestRouteExists(t, a, e);
    }
  }

  /** There is only one right answer. */
  lemma LookupUnique(t: Table, a: Word, x: nat, y: nat)
    requires CanonicalTable(t) && IsLookup(t, a, x) && IsLookup(t, a, y)
    ensures x == y
  {
    MatchOrNot(t, a);
  }

  /** In a well-formed table the longest matching route is unique. */
  lemma BestRouteUnique(t: Table, a: Word, r: Route, q: Route)
    requires WellFormed(t) && BestRoute(t, a, r) && BestRoute(t, a, q)
    ensures r == q
  {
  }

  lemma {:induction false} TotalUpdate(t: Table, len: nat, level: Level)
    requires len < |t|
    ensures Total(t[len := level]) + |t[len]| == Total(t) + |level|
  {
    var u := t[len := level];
    if len == |t| - 1 {
      assert u[..|u| - 1] == t[..|t| - 1];
    } else {
      TotalUpdate(t[..|t| - 1], len, level);
      assert u[..|u| - 1] == t[..|t| - 1][len := level];
    }
  }

  /** Rearranging one level changes neither well-formedness, meaning nor hops. */
  lemma Rearranged(t: Table, len: nat, level: Level)
    requires CanonicalTable(t) && len < 33 && multiset(level) == multiset(t[len])
    ensures CanonicalTable(t[len := level]) && RibOf(t[len := level]) == RibOf(t)
    ensures HopsOf(t[len := level]) == HopsOf(t)
    ensures WellFormed(t) ==> WellFormed(t[len := level])
  {
    var u := t[len := level];
    assert forall r :: r in level <==> r in multiset(level);
    assert forall r :: r in t[len] <==> r in multiset(t[len]);
    assert forall k, r :: 0 <= k < 33 ==> (r in u[k] <==> r in t[k]);
  }

  /** Equal elements at two places count twice. */
  lemma CountTwo(s: Level, i: nat, j: nat)
    requires i < j < |s| && s[i] == s[j]
    ensures multiset(s)[s[i]] >= 2
  {
    assert s == s[..i] + [s[i]] + s[i + 1..];
    assert s[i + 1..][j - i - 1] == s[j];
  }
}
