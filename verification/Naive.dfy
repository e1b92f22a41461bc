/** The reference lookup: a linear scan from the longest level down (src/naive.cpp). */
module Naives {
  import opened Words
  import opened Routes
  import opened Reading

  /** Entry `(len, i)` is the first match met when scanning from level 32 down. */
  ghost predicate FirstHit(t: Table, a: Word, len: nat, i: nat)
    requires |t| == 33
  {
    && len < 33 && i < |t[len]| && t[len][i].base == Pad(a[..len])
    && (forall j :: 0 <= j < i ==> t[len][j].base != Pad(a[..len]))
    && NoHitAbove(t, a, len + 1)
  }

  ghost predicate NoHitAbove(t: Table, a: Word, len: nat)
    requires |t| == 33
  {
    forall k, j :: len <= k < 33 && 0 <= j < |t[k]| ==> t[k][j].base != Pad(a[..k])
  }

  class Naive {
    const entries: Table
    const masks: array<Word>

    ghost predicate Valid()
      reads masks
    {
      && |entries| == 33 && masks.Length == 33
      && forall i :: 0 <= i < 33 ==> masks[i] == Ones(i) + Zeros(32 - i)
    }

    constructor (table: Table)
      requires |table| == 33
      ensures entries == table && Valid()
    {
      entries := table;
      masks := new Word[33](_ => ZERO);
      new;
      var mask: Word := ZERO;
      for i := 0 to 33
        invariant i <= 32 ==> mask == Ones(i) + Zeros(32 - i)
        invariant forall k :: 0 <= k < i ==> masks[k] == Ones(k) + Zeros(32 - k)
      {
        masks[i] := mask;
        mask := Shr1(mask);
        mask := Or(mask, OneShl(31));
        if i < 32 {
          assert mask == Ones(i + 1) + Zeros(31 - i);
        }
      }
    }

    method Route(addr: Word) returns (index: nat)
      requires Valid()
      ensures (exists len: nat, i: nat :: FirstHit(entries, addr, len, i) && index == entries[len][i].index)
              || (NoHitAbove(entries, addr, 0) && index == NH_INVALID)
    {
      for len := 33 downto 0
        invariant NoHitAbove(entries, addr, len)
      {
        MaskCuts(addr, len);
        for i := 0 to |entries[len]|
          invariant forall j :: 0 <= j < i ==> entries[len][j].base != Pad(addr[..len])
        {
          if entries[len][i].base == And(addr, masks[len]) {
            assert FirstHit(entries, addr, len, i);
            return entries[len][i].index;
          }
        }
      }
      return NH_INVALID;
    }
  }

  /** On canonical tables the first hit of the scan is a longest match. */
  lemma FirstHitIsBest(t: Table, a: Word, len: nat, i: nat)
    requires CanonicalTable(t) && FirstHit(t, a, len, i)
    ensures BestRoute(t, a, t[len][i])
  {
    assert t[len][i] in t[len];
    CanonicalMatch(t[len][i], len, a);
    forall k, q | 0 <= k < 33 && q in t[k] && PrefixOf(q) <= a ensures k <= len {
      CanonicalMatch(q, k, a);
      var j :| 0 <= j < |t[k]| && t[k][j] == q;
    }
  }

  lemma NoHitIsNoMatch(t: Table, a: Word)
    requires CanonicalTable(t) && NoHitAbove(t, a, 0)
    ensures NoMatch(t, a)
  {
  }

  /** The scan returns the index of the longest match, or NH_INVALID when nothing matches. */
  lemma ScanIsLongestMatch(t: Table, a: Word, index: nat)
    requires WellFormed(t)
    requires (exists len: nat, i: nat :: FirstHit(t, a, len, i) && index == t[len][i].index)
             || (NoHitAbove(t, a, 0) && index == NH_INVALID)
    ensures IsLookup(t, a, index)
  {
    if NoHitAbove(t, a, 0) && index == NH_INVALID {
      NoHitIsNoMatch(t, a);
    } else {
      var len: nat, i: nat :| FirstHit(t, a, len, i) && index == t[len][i].index;
      FirstHitIsBest(t, a, len, i);
      forall r | BestRoute(t, a, r) ensures r.index == index {
        BestRouteUnique(t, a, r, t[len][i]);
      }
    }
  }

  lemma {:induction false} FirstFound(level: Level, len: nat, i: nat, a: Word)
    requires len <= 32 && AllCanonical(level, len) && i < |level| && level[i].base == Pad(a[..len])
    requires forall j :: 0 <= j < i ==> level[j].base != Pad(a[..len])
    ensures FirstRoute(level, a[..len]) == Some(level[i])
  {
    assert level[0] in level;
    CanonicalMatch(level[0], len, a);
    MatchIsPrefix(level[0], len, a);
    if i > 0 {
      assert forall r :: r in level[1..] ==> r in level;
      FirstFound(level[1..], len, i - 1, a);
    }
  }

  lemma NoHitMisses(t: Table, a: Word, from: nat, k: nat)
    requires CanonicalTable(t) && NoHitAbove(t, a, from) && from <= k < 33
    ensures !Hit(t, a, k)
  {
    forall r | r in t[k] ensures r.base[..k] != a[..k] {
      var j :| 0 <= j < |t[k]| && t[k][j] == r;
      CanonicalMatch(r, k, a);
      MatchIsPrefix(r, k, a);
    }
    NoneWith(t[k], a[..k]);
  }

  /** On every canonical table the scan returns the first route of the longest matching level. */
  lemma ScanReadsFirst(t: Table, a: Word, index: nat)
    requires CanonicalTable(t)
    requires (exists len: nat, i: nat :: FirstHit(t, a, len, i) && index == t[len][i].index)
             || (NoHitAbove(t, a, 0) && index == NH_INVALID)
    ensures index == IndexIn(Scan(t, a, 32))
  {
    if NoHitAbove(t, a, 0) && index == NH_INVALID {
      forall k | 0 <= k < 33 ensures !Hit(t, a, k) {
        NoHitMisses(t, a, 0, k);
      }
      ScanPasses(t, a, 32, 0);
      FirstAndLast(t[0], a[..0]);
    } else {
      var len: nat, i: nat :| FirstHit(t, a, len, i) && index == t[len][i].index;
      forall k | len < k < 33 ensures !Hit(t, a, k) {
        NoHitMisses(t, a, len + 1, k);
      }
      FirstFound(t[len], len, i, a);
      FirstAndLast(t[len], a[..len]);
      ScanAt(t, a, len);
    }
  }
}
