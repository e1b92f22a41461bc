/** Sibling aggregation as a transformation of tables (src/routingTable.cpp, `aggregate`). */
module Aggregation {
  import opened Words
  import opened Rib
  import opened Routes

  /** Two routes of one level that differ in their last prefix bit only and go the same way. */
  predicate Siblings(first: Route, second: Route, len: nat)
    requires 1 <= len <= 30
  {
    && Xor(first.base, second.base) == OneShl(32 - len)
    && first.nextHop == second.nextHop
    && first.iface == second.iface
  }

  function ParentOf(first: Route, len: nat): Route
    requires 1 <= len <= 30
  {
    Route(And(first.base, Not(OneShl(32 - len))), first.nextHop, len - 1, first.iface, first.index)
  }

  function Without(level: Level, i: nat): Level
    requires i + 1 < |level|
  {
    level[..i] + level[i + 2..]
  }

  /** The table after erasing routes `i` and `i+1` of a level and appending their parent. */
  function MergeAt(t: Table, len: nat, i: nat): Table
    requires |t| == 33 && 1 <= len <= 30 && i + 1 < |t[len]|
  {
    t[len := Without(t[len], i)][len - 1 := t[len - 1] + [ParentOf(t[len][i], len)]]
  }

  predicate Ascending(level: Level) {
    forall i, j :: 0 <= i < j < |level| ==> Value(level[i].base) <= Value(level[j].base)
  }

  predicate StrictlyAscending(level: Level) {
    forall i, j :: 0 <= i < j < |level| ==> Value(level[i].base) < Value(level[j].base)
  }

  /** What aggregation maintains about a table, relative to the table it started from. */
  ghost predicate Preserved(before: Table, after: Table)
    requires CanonicalTable(before)
  {
    && WellFormed(after)
    && NoneCovered(RibOf(after))
    && SameMeaning(RibOf(before), RibOf(after))
  }

  lemma AscendingStrict(level: Level)
    requires Ascending(level) && Distinct(level)
    ensures StrictlyAscending(level)
  {
    forall i, j | 0 <= i < j < |level| ensures Value(level[i].base) < Value(level[j].base) {
      if Value(level[i].base) == Value(level[j].base) {
        ValueInjective(level[i].base, level[j].base);
        CountTwo(level, i, j);
      }
    }
  }

  /** Inserting between a smaller-or-equal and a larger element keeps the order. */
  lemma InsertAscending(s: Level, j: nat, r: Route)
    requires Ascending(s) && j <= |s|
    requires j > 0 ==> Value(s[j - 1].base) <= Value(r.base)
    requires j < |s| ==> Value(r.base) < Value(s[j].base)
    ensures Ascending(s[..j] + [r] + s[j..])
  {
    var u := s[..j] + [r] + s[j..];
    forall i, k | 0 <= i < k < |u| ensures Value(u[i].base) <= Value(u[k].base) {
      if k < j {
        assert u[i] == s[i] && u[k] == s[k];
      } else if k == j {
        assert u[i] == s[i] && (i == j - 1 || Value(s[i].base) <= Value(s[j - 1].base));
      } else if i < j {
        assert u[i] == s[i] && u[k] == s[k - 1];
      } else if i == j {
        assert u[k] == s[k - 1] && (k - 1 == j || Value(s[j].base) <= Value(s[k - 1].base));
      } else {
        assert u[i] == s[i - 1] && u[k] == s[k - 1];
      }
    }
  }

  lemma InsertMultiset(s: Level, j: nat, r: Route)
    requires j <= |s|
    ensures multiset(s[..j] + [r] + s[j..]) == multiset(s) + multiset{r}
  {
    assert s == s[..j] + s[j..];
  }

  lemma WithoutAscending(level: Level, i: nat)
    requires i + 1 < |level| && Ascending(level)
    ensures Ascending(Without(level, i))
  {
  }

  lemma ParentCanonical(first: Route, len: nat)
    requires 1 <= len <= 30 && Canonical(first, len)
    ensures Canonical(ParentOf(first, len), len - 1)
    ensures EntryOf(ParentOf(first, len)) == Entry(first.base[..len - 1], HopOf(first))
  {
  }

  lemma SiblingHalves(first: Route, second: Route, len: nat)
    requires 1 <= len <= 30 && Canonical(first, len) && Canonical(second, len)
    requires Siblings(first, second, len)
    ensures var p := first.base[..len - 1];
            EntryOf(first) == Half(p, HopOf(first), first.base[len - 1]) &&
            EntryOf(second) == Half(p, HopOf(first), !first.base[len - 1])
  {
    XorIsOneBit(first.base, second.base, 32 - len);
    assert first.base[..len] == first.base[..len - 1] + [first.base[len - 1]];
    assert second.base[..len] == second.base[..len - 1] + [second.base[len - 1]];
  }

  lemma WithoutMultiset(level: Level, i: nat)
    requires i + 1 < |level|
    ensures multiset(level) == multiset(Without(level, i)) + multiset{level[i], level[i + 1]}
  {
    assert level == level[..i] + [level[i], level[i + 1]] + level[i + 2..];
  }

  lemma WithoutMembers(level: Level, i: nat, r: Route)
    requires i + 1 < |level| && Distinct(level)
    ensures r in Without(level, i) <==> r in level && r != level[i] && r != level[i + 1]
    ensures level[i] != level[i + 1]
  {
    WithoutMultiset(level, i);
    var first, second, rest := level[i], level[i + 1], multiset(Without(level, i));
    assert first in level && multiset(level)[first] == 1;
    assert second in level && multiset(level)[second] == 1;
    assert multiset(level)[first] == rest[first] + multiset{first, second}[first];
    assert multiset(level)[second] == rest[second] + multiset{first, second}[second];
    assert multiset(level)[r] == rest[r] + multiset{first, second}[r];
    assert r in Without(level, i) <==> rest[r] > 0;
    assert r in level <==> multiset(level)[r] > 0;
  }

  lemma WithoutDistinct(level: Level, i: nat)
    requires i + 1 < |level| && Distinct(level)
    ensures Distinct(Without(level, i))
  {
    WithoutMultiset(level, i);
    forall r ensures r in Without(level, i) ==> r in level && multiset(Without(level, i))[r] == 1 {
      WithoutMembers(level, i, r);
    }
  }

  /** Erasing two routes keeps the others, erases no more, and adds nothing. */
  lemma WithoutRest(level: Level, i: nat, r: Route)
    requires i + 1 < |level|
    ensures r in Without(level, i) ==> r in level
    ensures r in level ==> r in Without(level, i) || r == level[i] || r == level[i + 1]
  {
    WithoutMultiset(level, i);
    assert r in level <==> r in multiset(level);
    assert r in Without(level, i) <==> r in multiset(Without(level, i));
  }

  lemma MergeAtCanonical(t: Table, len: nat, i: nat)
    requires CanonicalTable(t) && 1 <= len <= 30 && i + 1 < |t[len]|
    ensures CanonicalTable(MergeAt(t, len, i))
  {
    ParentCanonical(t[len][i], len);
    var u := MergeAt(t, len, i);
    forall k, r | 0 <= k < 33 && r in u[k] ensures Canonical(r, k) {
      if k == len {
        WithoutRest(t[len], i, r);
      }
    }
  }

  /** A merge leaves no address unmatched that was matched, matches no new one, and uses the
      same hops; covered routes and duplicates do not matter here. */
  lemma MergeAtCovers(t: Table, len: nat, i: nat)
    requires CanonicalTable(t) && 1 <= len <= 30 && i + 1 < |t[len]| && Siblings(t[len][i], t[len][i + 1], len)
    ensures CanonicalTable(MergeAt(t, len, i))
    ensures SameCoverage(RibOf(t), RibOf(MergeAt(t, len, i)))
    ensures HopsOf(MergeAt(t, len, i)) == HopsOf(t)
  {
    MergeAtCanonical(t, len, i);
    var u := MergeAt(t, len, i);
    forall a: Word ensures Matched(RibOf(t), a) <==> Matched(RibOf(u), a) {
      MergeAtMatched(t, len, i, a);
      MergeAtUnmatched(t, len, i, a);
    }
    MergeAtHops(t, len, i);
  }

  lemma MergeAtMatched(t: Table, len: nat, i: nat, a: Word)
    requires CanonicalTable(t) && 1 <= len <= 30 && i + 1 < |t[len]| && Siblings(t[len][i], t[len][i + 1], len)
    requires CanonicalTable(MergeAt(t, len, i))
    ensures Matched(RibOf(t), a) ==> Matched(RibOf(MergeAt(t, len, i)), a)
  {
    var u, first := MergeAt(t, len, i), t[len][i];
    var parent := ParentOf(first, len);
    if e :| e in RibOf(t) && e.prefix <= a {
      var r := FromRib(t, e);
      SiblingHalves(first, t[len][i + 1], len);
      ParentCanonical(first, len);
      InRib(u, len - 1, parent);
      if |e.prefix| == len {
        WithoutRest(t[len], i, r);
      }
      if r in u[|e.prefix|] {
        InRib(u, |e.prefix|, r);
      } else {
        assert EntryOf(parent).prefix <= a;
      }
    }
  }

  lemma MergeAtUnmatched(t: Table, len: nat, i: nat, a: Word)
    requires CanonicalTable(t) && 1 <= len <= 30 && i + 1 < |t[len]| && Siblings(t[len][i], t[len][i + 1], len)
    requires CanonicalTable(MergeAt(t, len, i))
    ensures Matched(RibOf(MergeAt(t, len, i)), a) ==> Matched(RibOf(t), a)
  {
    var u, first := MergeAt(t, len, i), t[len][i];
    if e :| e in RibOf(u) && e.prefix <= a {
      var r := FromRib(u, e);
      SiblingHalves(first, t[len][i + 1], len);
      ParentCanonical(first, len);
      InRib(t, len, first);
      InRib(t, len, t[len][i + 1]);
      if |e.prefix| == len {
        WithoutRest(t[len], i, r);
      }
      if r in t[|e.prefix|] {
        InRib(t, |e.prefix|, r);
      } else {
        HalfMatches(first.base[..len - 1], HopOf(first), a);
      }
    }
  }

  lemma MergeAtHops(t: Table, len: nat, i: nat)
    requires |t| == 33 && 1 <= len <= 30 && i + 1 < |t[len]| && Siblings(t[len][i], t[len][i + 1], len)
    ensures HopsOf(MergeAt(t, len, i)) == HopsOf(t)
  {
    var u, parent := MergeAt(t, len, i), ParentOf(t[len][i], len);
    forall h ensures h in HopsOf(u) <==> h in HopsOf(t) {
      if h in HopsOf(u) {
        var k, r :| 0 <= k < 33 && r in u[k] && HopOf(r) == h;
        if k == len { WithoutRest(t[len], i, r); }
        assert r in t[k] || HopOf(t[len][i]) == h;
      }
      if h in HopsOf(t) {
        var k, r :| 0 <= k < 33 && r in t[k] && HopOf(r) == h;
        if k == len { WithoutRest(t[len], i, r); }
        assert parent in u[len - 1];
        assert r in u[k] || HopOf(parent) == h;
      }
    }
  }

  lemma MergeAtInto(t: Table, len: nat, i: nat, e: Entry)
    requires WellFormed(t) && 1 <= len <= 30 && i + 1 < |t[len]|
    requires Siblings(t[len][i], t[len][i + 1], len)
    requires CanonicalTable(MergeAt(t, len, i)) && e in RibOf(MergeAt(t, len, i))
    ensures e in Merge(RibOf(t), t[len][i].base[..len - 1], HopOf(t[len][i]))
  {
    var first, second := t[len][i], t[len][i + 1];
    SiblingHalves(first, second, len);
    ParentCanonical(first, len);
    var r := FromRib(MergeAt(t, len, i), e);
    if |e.prefix| == len {
      WithoutMembers(t[len], i, r);
      InRib(t, len, r);
      if PrefixOf(r) == PrefixOf(first) { SameBase(r, first, len); }
      if PrefixOf(r) == PrefixOf(second) { SameBase(r, second, len); }
    } else if r in t[|e.prefix|] {
      InRib(t, |e.prefix|, r);
    }
  }

  lemma MergeAtFrom(t: Table, len: nat, i: nat, e: Entry)
    requires WellFormed(t) && 1 <= len <= 30 && i + 1 < |t[len]|
    requires Siblings(t[len][i], t[len][i + 1], len) && CanonicalTable(MergeAt(t, len, i))
    requires e in Merge(RibOf(t), t[len][i].base[..len - 1], HopOf(t[len][i]))
    ensures e in RibOf(MergeAt(t, len, i))
  {
    var u := MergeAt(t, len, i);
    var first, second := t[len][i], t[len][i + 1];
    SiblingHalves(first, second, len);
    ParentCanonical(first, len);
    if e == EntryOf(ParentOf(first, len)) {
      InRib(u, len - 1, ParentOf(first, len));
    } else {
      var r := FromRib(t, e);
      if |e.prefix| == len {
        WithoutMembers(t[len], i, r);
      }
      InRib(u, |e.prefix|, r);
    }
  }

  /** On tables, erasing two siblings and appending the parent is the merge of their entries. */
  lemma MergeAtRib(t: Table, len: nat, i: nat)
    requires WellFormed(t) && 1 <= len <= 30 && i + 1 < |t[len]|
    requires Siblings(t[len][i], t[len][i + 1], len)
    ensures CanonicalTable(MergeAt(t, len, i))
    ensures var p, h := t[len][i].base[..len - 1], HopOf(t[len][i]);
            Mergeable(RibOf(t), p, h) && RibOf(MergeAt(t, len, i)) == Merge(RibOf(t), p, h)
  {
    MergeAtCanonical(t, len, i);
    var first, second := t[len][i], t[len][i + 1];
    var p, h := first.base[..len - 1], HopOf(first);
    SiblingHalves(first, second, len);
    InRib(t, len, first);
    InRib(t, len, second);
    var left, right := RibOf(MergeAt(t, len, i)), Merge(RibOf(t), p, h);
    forall e ensures e in left <==> e in right {
      if e in left { MergeAtInto(t, len, i, e); }
      if e in right { MergeAtFrom(t, len, i, e); }
    }
    assert left == right;
  }

  /** With no covered route a merge keeps well-formedness and everything `Preserved` lists. */
  lemma MergeAtPreserved(before: Table, t: Table, len: nat, i: nat)
    requires CanonicalTable(before) && Preserved(before, t)
    requires 1 <= len <= 30 && i + 1 < |t[len]| && Siblings(t[len][i], t[len][i + 1], len)
    ensures Preserved(before, MergeAt(t, len, i))
  {
    var u := MergeAt(t, len, i);
    MergeAtRib(t, len, i);
    MergeAtWellFormed(t, len, i);
    WellFormedUnique(t);
    MergeKeeps(RibOf(t), t[len][i].base[..len - 1], HopOf(t[len][i]));
    SameMeaningTrans(RibOf(before), RibOf(t), RibOf(u));
  }

  lemma MergeAtWellFormed(t: Table, len: nat, i: nat)
    requires WellFormed(t) && NoneCovered(RibOf(t))
    requires 1 <= len <= 30 && i + 1 < |t[len]| && Siblings(t[len][i], t[len][i + 1], len)
    ensures WellFormed(MergeAt(t, len, i))
  {
    MergeAtRib(t, len, i);
    WithoutDistinct(t[len], i);
    AppendDistinct(t, len, t[len][i]);
  }

  /** A merge leaves one route less. */
  lemma MergeAtTotal(t: Table, len: nat, i: nat)
    requires |t| == 33 && 1 <= len <= 30 && i + 1 < |t[len]|
    ensures Total(MergeAt(t, len, i)) + 1 == Total(t)
  {
    var mid := t[len := Without(t[len], i)];
    TotalUpdate(t, len, Without(t[len], i));
    TotalUpdate(mid, len - 1, t[len - 1] + [ParentOf(t[len][i], len)]);
  }

  /** The appended parent meets no route with its own prefix. */
  lemma AppendDistinct(t: Table, len: nat, first: Route)
    requires WellFormed(t) && NoneCovered(RibOf(t)) && 1 <= len <= 30 && Canonical(first, len)
    requires Mergeable(RibOf(t), first.base[..len - 1], HopOf(first))
    ensures Distinct(t[len - 1] + [ParentOf(first, len)])
  {
    var parent := ParentOf(first, len);
    ParentCanonical(first, len);
    forall r | r in t[len - 1] ensures r.base != parent.base {
      InRib(t, len - 1, r);
      NoParent(RibOf(t), first.base[..len - 1], HopOf(first), EntryOf(r));
    }
    assert parent !in multiset(t[len - 1]);
  }

}
