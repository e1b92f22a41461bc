/** The meaning of a routing table, independent of any lookup structure: a set of
    prefixes with their hops, resolved by longest match (section 5.2.4.3 of RFC 1812). */
module Rib {
  import opened Words

  type IfaceId = nat

  /** Where matching packets go: a gateway (zero when directly connected) and an interface. */
  datatype Hop = Hop(gateway: Word, iface: IfaceId)

  datatype Entry = Entry(prefix: Bits, hop: Hop)

  type Rib = set<Entry>

  /** `e` is a longest match for the address. */
  ghost predicate Best(rib: Rib, a: Word, e: Entry) {
    && e in rib
    && e.prefix <= a
    && forall f :: f in rib && f.prefix <= a ==> |f.prefix| <= |e.prefix|
  }

  ghost predicate Resolves(rib: Rib, a: Word, h: Hop) {
    exists e :: Best(rib, a, e) && e.hop == h
  }

  ghost predicate SameMeaning(r: Rib, s: Rib) {
    forall a: Word, h :: Resolves(r, a, h) <==> Resolves(s, a, h)
  }

  /** Some entry matches the address. */
  ghost predicate Matched(rib: Rib, a: Word) {
    exists e :: e in rib && e.prefix <= a
  }

  ghost predicate SameCoverage(r: Rib, s: Rib) {
    forall a: Word :: Matched(r, a) <==> Matched(s, a)
  }

  ghost predicate Unique(rib: Rib) {
    forall e, f :: e in rib && f in rib && e.prefix == f.prefix ==> e == f
  }

  /** Some address is routed by this entry: longer prefixes do not cover all of it. */
  ghost predicate Visible(rib: Rib, e: Entry) {
    exists a: Word :: Best(rib, a, e)
  }

  ghost predicate NoneCovered(rib: Rib) {
    forall e :: e in rib ==> Visible(rib, e)
  }

  function Half(p: Bits, h: Hop, bit: bool): Entry {
    Entry(p + [bit], h)
  }

  /** Replace two sibling entries by their common parent. */
  function Merge(rib: Rib, p: Bits, h: Hop): Rib {
    rib - {Half(p, h, false), Half(p, h, true)} + {Entry(p, h)}
  }

  /** The parent prefix already carries a different hop. */
  ghost predicate Conflict(rib: Rib, p: Bits, h: Hop) {
    exists e :: e in rib && e.prefix == p && e.hop != h
  }

  ghost predicate Mergeable(rib: Rib, p: Bits, h: Hop) {
    |p| < 32 && Half(p, h, false) in rib && Half(p, h, true) in rib
  }

  /** An address with a matching entry has a longest matching entry. */
  lemma BestExists(rib: Rib, a: Word, e: Entry) returns (b: Entry)
    requires e in rib && e.prefix <= a
    ensures Best(rib, a, b)
    decreases 32 - |e.prefix|
  {
    if Best(rib, a, e) {
      b := e;
    } else {
      var f :| f in rib && f.prefix <= a && |f.prefix| > |e.prefix|;
      b := BestExists(rib, a, f);
    }
  }

  /** The half of `p` that contains an address under `p`. */
  lemma HalfMatches(p: Bits, h: Hop, a: Word)
    requires |p| < 32 && p <= a
    ensures Half(p, h, a[|p|]).prefix <= a
    ensures !(Half(p, h, !a[|p|]).prefix <= a)
  {
  }

  /** Under the merged prefix: longer matches survive, the half is replaced by the parent. */
  lemma MergeUnder(rib: Rib, p: Bits, h: Hop, a: Word, e: Entry)
    requires Unique(rib) && Mergeable(rib, p, h) && p <= a
    requires Best(rib, a, e)
    ensures e == Half(p, h, a[|p|]) || (|e.prefix| > |p| + 1 && Best(Merge(rib, p, h), a, e))
    ensures e == Half(p, h, a[|p|]) ==> Best(Merge(rib, p, h), a, Entry(p, h))
  {
  }

  lemma MergeOutside(rib: Rib, p: Bits, h: Hop, a: Word)
    requires Mergeable(rib, p, h) && !(p <= a)
    ensures forall e :: Best(rib, a, e) <==> Best(Merge(rib, p, h), a, e)
  {
  }

  /** Every result after the merge was a result before it, unless the parent conflicted. */
  lemma MergeBack(rib: Rib, p: Bits, h: Hop, a: Word, e: Entry)
    requires Unique(rib) && Mergeable(rib, p, h) && p <= a
    requires Best(Merge(rib, p, h), a, e)
    ensures Best(rib, a, e) || (e.prefix == p && Best(rib, a, Half(p, h, a[|p|])))
  {
  }

  lemma MergePreserves(rib: Rib, p: Bits, h: Hop)
    requires Unique(rib) && Mergeable(rib, p, h) && !Conflict(rib, p, h)
    ensures SameMeaning(rib, Merge(rib, p, h))
  {
    var m := Merge(rib, p, h);
    forall a: Word, g ensures Resolves(rib, a, g) <==> Resolves(m, a, g) {
      if p <= a {
        if Resolves(rib, a, g) {
          var e :| Best(rib, a, e) && e.hop == g;
          MergeUnder(rib, p, h, a, e);
        }
        if Resolves(m, a, g) {
          var e :| Best(m, a, e) && e.hop == g;
          MergeBack(rib, p, h, a, e);
          assert e.prefix == p ==> e.hop == h;
        }
      } else {
        MergeOutside(rib, p, h, a);
      }
    }
  }

  /** In a table without covered entries no parent of two entries is present. */
  lemma NoParent(rib: Rib, p: Bits, h: Hop, e: Entry)
    requires Mergeable(rib, p, h) && NoneCovered(rib)
    requires e in rib
    ensures e.prefix != p
  {
    if e.prefix == p {
      var a: Word :| Best(rib, a, e);
      HalfMatches(p, h, a);
      assert false;
    }
  }

  lemma MergeKeepsVisible(rib: Rib, p: Bits, h: Hop, e: Entry)
    requires Unique(rib) && Mergeable(rib, p, h) && NoneCovered(rib)
    requires e in Merge(rib, p, h)
    ensures Visible(Merge(rib, p, h), e)
  {
    if e == Entry(p, h) {
      var half := Half(p, h, false);
      assert half in rib;
      var a: Word :| Best(rib, a, half);
      HalfMatches(p, h, a);
      MergeUnder(rib, p, h, a, half);
    } else {
      var a: Word :| Best(rib, a, e);
      if p <= a {
        MergeUnder(rib, p, h, a, e);
      } else {
        MergeOutside(rib, p, h, a);
      }
    }
  }

  /** In a table without covered entries a merge keeps the meaning, uniqueness and
      visibility. */
  lemma MergeKeeps(rib: Rib, p: Bits, h: Hop)
    requires Unique(rib) && Mergeable(rib, p, h) && NoneCovered(rib)
    ensures Unique(Merge(rib, p, h)) && NoneCovered(Merge(rib, p, h))
    ensures SameMeaning(rib, Merge(rib, p, h))
  {
    forall e | e in rib ensures e.prefix != p {
      NoParent(rib, p, h, e);
    }
    assert Unique(Merge(rib, p, h));
    MergePreserves(rib, p, h);
    forall e | e in Merge(rib, p, h) ensures Visible(Merge(rib, p, h), e) {
      MergeKeepsVisible(rib, p, h, e);
    }
  }

  lemma SameMeaningTrans(r: Rib, s: Rib, t: Rib)
    requires SameMeaning(r, s) && SameMeaning(s, t)
    ensures SameMeaning(r, t)
  {
  }
}
