/** How the lookup structures read a table in which a prefix stands twice: of the routes in the
    longest matching level, the trie takes the last one and the scan the first. */
module Reading {
  import opened Words
  import opened Rib
  import opened Routes

  datatype Option<T> = None | Some(value: T)

  /** The last route of a level with a given prefix. */
  function LastRoute(level: Level, p: Bits): (o: Option<Route>)
    requires |p| <= 32
    ensures o.Some? ==> o.value in level && o.value.base[..|p|] == p
    ensures o.None? ==> forall r :: r in level ==> r.base[..|p|] != p
  {
    if level == [] then None
    else if level[|level| - 1].base[..|p|] == p then Some(level[|level| - 1])
    else
      assert level == level[..|level| - 1] + [level[|level| - 1]];
      LastRoute(level[..|level| - 1], p)
  }

  /** The first one. */
  function FirstRoute(level: Level, p: Bits): (o: Option<Route>)
    requires |p| <= 32
    ensures o.Some? ==> o.value in level && o.value.base[..|p|] == p
    ensures o.None? ==> forall r :: r in level ==> r.base[..|p|] != p
  {
    if level == [] then None
    else if level[0].base[..|p|] == p then Some(level[0])
    else
      assert level == [level[0]] + level[1..];
      FirstRoute(level[1..], p)
  }

  /** What the trie finds among the levels up to `d`. */
  function Read(t: Table, a: Word, d: nat): Option<Route>
    requires |t| == 33 && d <= 32
  {
    if LastRoute(t[d], a[..d]).Some? then LastRoute(t[d], a[..d])
    else if d == 0 then None
    else Read(t, a, d - 1)
  }

  /** What the scan finds. */
  function Scan(t: Table, a: Word, d: nat): Option<Route>
    requires |t| == 33 && d <= 32
  {
    if FirstRoute(t[d], a[..d]).Some? then FirstRoute(t[d], a[..d])
    else if d == 0 then None
    else Scan(t, a, d - 1)
  }

  function IndexIn(o: Option<Route>): nat {
    if o.Some? then o.value.index else NH_INVALID
  }

  function HopIn(o: Option<Route>): Option<Hop> {
    if o.Some? then Some(HopOf(o.value)) else None
  }

  /** The next hop the trie has for an address. */
  function HopRead(t: Table, a: Word): Option<Hop>
    requires |t| == 33
  {
    HopIn(Read(t, a, 32))
  }

  ghost predicate SameReading(t: Table, u: Table)
    requires |t| == 33 && |u| == 33
  {
    forall a: Word :: HopRead(t, a) == HopRead(u, a)
  }

  /** Some route of level `k` matches the address. */
  ghost predicate Hit(t: Table, a: Word, k: nat)
    requires |t| == 33 && k <= 32
  {
    LastRoute(t[k], a[..k]).Some?
  }

  /** No route of a level above `len` matches the address. */
  ghost predicate Left(t: Table, a: Word, len: nat)
    requires |t| == 33
  {
    forall k :: len < k < 33 ==> !Hit(t, a, k)
  }

  /** The levels above `len` have the same last routes. */
  ghost predicate SameAbove(t: Table, u: Table, a: Word, len: nat)
    requires |t| == 33 && |u| == 33
  {
    forall k {:trigger t[k]} {:trigger u[k]} :: len < k < 33 ==> LastRoute(t[k], a[..k]) == LastRoute(u[k], a[..k])
  }

  /** Some address with this prefix is left to the level of the prefix. */
  ghost predicate Shown(t: Table, p: Bits)
    requires |t| == 33
  {
    exists a: Word :: p <= a && Left(t, a, |p|)
  }

  // The last route of a level that is put together from others.

  lemma {:induction false} LastConcat(x: Level, y: Level, p: Bits)
    requires |p| <= 32
    ensures LastRoute(x + y, p) == if LastRoute(y, p).Some? then LastRoute(y, p) else LastRoute(x, p)
  {
    if y == [] {
      assert x + y == x;
    } else {
      var k := |y| - 1;
      assert (x + y)[..|x + y| - 1] == x + y[..k];
      LastConcat(x, y[..k], p);
    }
  }

  lemma LastOne(r: Route, p: Bits)
    requires |p| <= 32
    ensures LastRoute([r], p) == if r.base[..|p|] == p then Some(r) else None
  {
  }

  lemma LastAppend(level: Level, r: Route, p: Bits)
    requires |p| <= 32
    ensures LastRoute(level + [r], p) == if r.base[..|p|] == p then Some(r) else LastRoute(level, p)
  {
    LastConcat(level, [r], p);
    LastOne(r, p);
  }

  /** The routes of a level that stand behind a position decide, if there is one with the prefix. */
  lemma LastSplit(level: Level, i: nat, p: Bits)
    requires |p| <= 32 && i <= |level|
    ensures LastRoute(level, p) == if LastRoute(level[i..], p).Some? then LastRoute(level[i..], p) else LastRoute(level[..i], p)
  {
    assert level == level[..i] + level[i..];
    LastConcat(level[..i], level[i..], p);
  }

  lemma NoneWith(level: Level, p: Bits)
    requires |p| <= 32 && forall r :: r in level ==> r.base[..|p|] != p
    ensures LastRoute(level, p) == None
  {
  }

  // Reading level by level.

  /** Levels without a match are passed over. */
  lemma {:induction false} ReadPasses(t: Table, a: Word, d: nat, e: nat)
    requires |t| == 33 && e <= d <= 32 && forall k :: e < k <= d ==> !Hit(t, a, k)
    ensures Read(t, a, d) == Read(t, a, e)
  {
    if e < d {
      assert !Hit(t, a, d);
      ReadPasses(t, a, d - 1, e);
    }
  }

  /** The longest level with a match is read. */
  lemma ReadAt(t: Table, a: Word, k: nat)
    requires |t| == 33 && k <= 32 && Hit(t, a, k) && Left(t, a, k)
    ensures Read(t, a, 32) == LastRoute(t[k], a[..k])
  {
    ReadPasses(t, a, 32, k);
  }

  lemma {:induction false} LongestHit(t: Table, a: Word, len: nat) returns (k: nat)
    requires |t| == 33 && len <= 32 && !Left(t, a, len)
    ensures len < k <= 32 && Hit(t, a, k) && Left(t, a, k)
    decreases 32 - len
  {
    if Left(t, a, len + 1) {
      k := len + 1;
    } else {
      k := LongestHit(t, a, len + 1);
    }
  }

  /** Tables that agree above a level read alike where one of those levels matches. */
  lemma ReadAbove(t: Table, u: Table, a: Word, len: nat)
    requires |t| == 33 && |u| == 33 && len <= 32 && SameAbove(t, u, a, len)
    ensures Left(t, a, len) <==> Left(u, a, len)
    ensures !Left(t, a, len) ==> Read(t, a, 32) == Read(u, a, 32)
  {
    forall k | len < k < 33 ensures Hit(t, a, k) <==> Hit(u, a, k) {
      assert LastRoute(t[k], a[..k]) == LastRoute(u[k], a[..k]);
    }
    if !Left(t, a, len) {
      var k := LongestHit(t, a, len);
      assert Left(u, a, k);
      assert LastRoute(t[k], a[..k]) == LastRoute(u[k], a[..k]);
      ReadAt(t, a, k);
      ReadAt(u, a, k);
    }
  }

  lemma {:induction false} ReadSame(t: Table, u: Table, a: Word, d: nat)
    requires |t| == 33 && |u| == 33 && d <= 32
    requires forall k :: 0 <= k <= d ==> LastRoute(t[k], a[..k]) == LastRoute(u[k], a[..k])
    ensures Read(t, a, d) == Read(u, a, d)
  {
    if d > 0 {
      ReadSame(t, u, a, d - 1);
    }
  }

  /** Where the reading comes from. */
  lemma ReadFrom(t: Table, a: Word) returns (k: nat)
    requires |t| == 33
    ensures Read(t, a, 32).Some? ==> k <= 32 && Hit(t, a, k) && Left(t, a, k) && Read(t, a, 32) == LastRoute(t[k], a[..k])
    ensures Read(t, a, 32).None? ==> Left(t, a, 0) && !Hit(t, a, 0)
  {
    if Left(t, a, 0) {
      ReadPasses(t, a, 32, 0);
      k := 0;
    } else {
      k := LongestHit(t, a, 0);
      ReadAt(t, a, k);
    }
  }

  /** A route matches exactly when it has the address's prefix. */
  lemma MatchIsPrefix(r: Route, k: nat, a: Word)
    requires Canonical(r, k)
    ensures PrefixOf(r) <= a <==> r.base[..k] == a[..k]
  {
  }

  /** The trie reads a longest match. */
  lemma ReadIsBest(t: Table, a: Word)
    requires CanonicalTable(t)
    ensures Read(t, a, 32).Some? ==> BestRoute(t, a, Read(t, a, 32).value)
    ensures Read(t, a, 32).None? ==> NoMatch(t, a)
  {
    var k := ReadFrom(t, a);
    forall j, r | 0 <= j < 33 && r in t[j] && PrefixOf(r) <= a ensures Hit(t, a, j) {
      MatchIsPrefix(r, j, a);
    }
  }

  /** In a well-formed table that is the one longest match. */
  lemma ReadResolves(t: Table, a: Word, h: Hop)
    requires WellFormed(t)
    ensures HopRead(t, a) == Some(h) <==> Resolves(RibOf(t), a, h)
  {
    ReadIsBest(t, a);
    if HopRead(t, a) == Some(h) {
      BestRouteIsBest(t, a, Read(t, a, 32).value);
    }
    if Resolves(RibOf(t), a, h) {
      var e :| Best(RibOf(t), a, e) && e.hop == h;
      var r := BestRouteExists(t, a, e);
      if Read(t, a, 32).Some? {
        BestRouteUnique(t, a, r, Read(t, a, 32).value);
      }
    }
  }

  /** The answer the trie owes: the index of the route it reads. */
  ghost predicate IsRead(t: Table, a: Word, index: nat)
    requires |t| == 33
  {
    index == IndexIn(Read(t, a, 32))
  }

  /** In a well-formed table that is the index of the longest match. */
  lemma ReadIsLookup(t: Table, a: Word, index: nat)
    requires WellFormed(t)
    ensures IsRead(t, a, index) <==> IsLookup(t, a, index)
  {
    ReadIsBest(t, a);
    if Read(t, a, 32).Some? {
      forall r | BestRoute(t, a, r) ensures r == Read(t, a, 32).value {
        BestRouteUnique(t, a, r, Read(t, a, 32).value);
      }
    }
  }

  /** On well-formed tables, to read alike is to mean the same. */
  lemma ReadingIsMeaning(t: Table, u: Table)
    requires WellFormed(t) && WellFormed(u)
    ensures SameReading(t, u) <==> SameMeaning(RibOf(t), RibOf(u))
  {
    forall a: Word, h ensures HopRead(t, a) == Some(h) <==> Resolves(RibOf(t), a, h) {
      ReadResolves(t, a, h);
    }
    forall a: Word, h ensures HopRead(u, a) == Some(h) <==> Resolves(RibOf(u), a, h) {
      ReadResolves(u, a, h);
    }
    if SameMeaning(RibOf(t), RibOf(u)) {
      forall a: Word ensures HopRead(t, a) == HopRead(u, a) {
        if HopRead(t, a).Some? {
          assert Resolves(RibOf(t), a, HopRead(t, a).value);
        } else if HopRead(u, a).Some? {
          assert Resolves(RibOf(u), a, HopRead(u, a).value);
        }
      }
    }
  }

  /** Other indices in the same places read as the same hops. */
  lemma {:induction false} LastReindexed(level: Level, other: Level, p: Bits)
    requires |p| <= 32 && |level| == |other|
    requires forall j :: 0 <= j < |level| ==> other[j] == level[j].(index := other[j].index)
    ensures HopIn(LastRoute(level, p)) == HopIn(LastRoute(other, p))
  {
    if level != [] {
      var k := |level| - 1;
      LastReindexed(level[..k], other[..k], p);
    }
  }

  lemma {:induction false} ReadReindexed(t: Table, u: Table, a: Word, d: nat)
    requires |t| == 33 && |u| == 33 && d <= 32 && forall k :: 0 <= k < 33 ==> |t[k]| == |u[k]|
    requires forall k, j :: 0 <= k < 33 && 0 <= j < |t[k]| ==> u[k][j] == t[k][j].(index := u[k][j].index)
    ensures HopIn(Read(t, a, d)) == HopIn(Read(u, a, d))
  {
    LastReindexed(t[d], u[d], a[..d]);
    if d > 0 {
      ReadReindexed(t, u, a, d - 1);
    }
  }

  // Trie and scan on tables with duplicates.

  lemma FirstAndLast(level: Level, p: Bits)
    requires |p| <= 32
    ensures FirstRoute(level, p).Some? <==> LastRoute(level, p).Some?
  {
  }

  lemma {:induction false} ScanPasses(t: Table, a: Word, d: nat, e: nat)
    requires |t| == 33 && e <= d <= 32 && forall k :: e < k <= d ==> !Hit(t, a, k)
    ensures Scan(t, a, d) == Scan(t, a, e)
  {
    if e < d {
      assert !Hit(t, a, d);
      FirstAndLast(t[d], a[..d]);
      ScanPasses(t, a, d - 1, e);
    }
  }

  lemma ScanAt(t: Table, a: Word, k: nat)
    requires |t| == 33 && k <= 32 && Hit(t, a, k) && Left(t, a, k)
    ensures Scan(t, a, 32) == FirstRoute(t[k], a[..k])
  {
    ScanPasses(t, a, 32, k);
    FirstAndLast(t[k], a[..k]);
  }

  /** At every prefix that is shown, the first and the last route have the same index. */
  ghost predicate DuplicatesAgree(t: Table)
    requires |t| == 33
  {
    forall p :: |p| <= 32 && Shown(t, p) ==> IndexIn(FirstRoute(t[|p|], p)) == IndexIn(LastRoute(t[|p|], p))
  }

  /** Reading the first and reading the last route give the same index for every address exactly
      when they do at every prefix that is shown. */
  lemma DuplicatesExact(t: Table)
    requires |t| == 33
    ensures (forall a: Word :: IndexIn(Scan(t, a, 32)) == IndexIn(Read(t, a, 32))) <==> DuplicatesAgree(t)
  {
    if DuplicatesAgree(t) {
      forall a: Word ensures IndexIn(Scan(t, a, 32)) == IndexIn(Read(t, a, 32)) {
        var k := ReadFrom(t, a);
        if Read(t, a, 32).Some? {
          assert a[..k] <= a && Shown(t, a[..k]);
          ScanAt(t, a, k);
        } else {
          ScanPasses(t, a, 32, 0);
          FirstAndLast(t[0], a[..0]);
        }
      }
    } else {
      var p :| |p| <= 32 && Shown(t, p) && IndexIn(FirstRoute(t[|p|], p)) != IndexIn(LastRoute(t[|p|], p));
      var a: Word :| p <= a && Left(t, a, |p|);
      assert a[..|p|] == p;
      FirstAndLast(t[|p|], p);
      assert Hit(t, a, |p|);
      ReadAt(t, a, |p|);
      ScanAt(t, a, |p|);
      assert IndexIn(Scan(t, a, 32)) != IndexIn(Read(t, a, 32));
    }
  }
}
