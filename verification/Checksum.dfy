/** IPv4 header checksum, header verification and the incremental update on forwarding
    (include/util.hpp, src/worker.cpp), on a little-endian host. */
module Checksum {

  type byte = b: int | 0 <= b < 256 witness 0

  type uint16 = n: int | 0 <= n < 0x10000 witness 0

  /** ntohs and htons: exchange the two bytes. */
  function Swap(x: uint16): uint16 {
    x % 256 * 256 + x / 256
  }

  /** A 16-bit field in network order; `Net16(lo, hi)` reads it the way a little-endian host does. */
  function Net16(hi: byte, lo: byte): uint16 {
    hi as int * 256 + lo as int
  }

  function DecByte(b: byte): byte {
    (b as int + 255) % 256
  }

  /** One step of the checksum loop: add, then fold the carry back once. */
  function AddFold(acc: uint16, w: uint16): uint16 {
    if acc + w >= 0x10000 then (acc + w) % 0x10000 + 1 else acc + w
  }

  /** The accumulator after all words. */
  function OnesSum(ws: seq<uint16>): uint16 {
    if ws == [] then 0 else AddFold(OnesSum(ws[..|ws| - 1]), ws[|ws| - 1])
  }

  function PlainSum(ws: seq<uint16>): nat {
    if ws == [] then 0 else PlainSum(ws[..|ws| - 1]) + ws[|ws| - 1]
  }

  /** The representative of a sum in one's-complement arithmetic: zero only for zero. */
  function Residue(n: nat): uint16 {
    if n == 0 then 0 else (n - 1) % 0xffff + 1
  }

  /** The 16-bit words of a header in network order. */
  function HeaderWords(h: seq<byte>, n: nat): (ws: seq<uint16>)
    requires 2 * n <= |h|
    ensures |ws| == n
  {
    seq(n, i requires 0 <= i < n => Net16(h[2 * i], h[2 * i + 1]))
  }

  type Header = h: seq<byte> | |h| >= 60 witness seq(60, _ => 0)

  function Ihl(h: Header): nat { h[0] % 16 }
  function Version(h: Header): nat { h[0] / 16 }
  function TotalLength(h: Header): uint16 { Net16(h[2], h[3]) }
  function Ttl(h: Header): byte { h[8] }
  function Stored(h: Header): uint16 { Net16(h[10], h[11]) }

  function Zeroed(h: Header): Header { h[10 := 0][11 := 0] }

  /** The words the checksum covers, and the value it ought to have. */
  function Covered(h: Header): seq<uint16> { HeaderWords(h, 2 * Ihl(h)) }

  function Computed(h: Header): uint16 { 0xffff - OnesSum(Covered(Zeroed(h))) }

  /** What the verification demands (section 5.2.2 of RFC 1812, and a live TTL). */
  predicate Verified(h: Header, fLen: nat) {
    && fLen >= 20
    && Computed(h) == Stored(h)
    && Version(h) == 4
    && Ihl(h) >= 5
    && TotalLength(h) >= 4 * Ihl(h)
    && Ttl(h) > 1
  }

  /** The same in the bytes of the header: version 4, at least five words of header, a total length
      that holds them, a live TTL, and words that sum to 0xffff, with a checksum other than 0xffff. */
  predicate Acceptable(h: Header, fLen: nat) {
    var words := h[0] % 16;
    && fLen >= 20 && h[0] / 16 == 4 && words >= 5
    && 256 * h[2] as int + h[3] as int >= 4 * words as int
    && h[8] > 1
    && OnesSum(HeaderWords(h, 2 * words)) == 0xffff && !(h[10] == 255 && h[11] == 255)
  }

  /** The header after `ttl--; checksum++`, the increment acting on the little-endian field. */
  function Forwarded(h: Header): Header {
    var raw: uint16 := (Net16(h[11], h[10]) as int + 1) % 0x10000;
    h[8 := DecByte(h[8])][10 := raw % 256][11 := raw / 256]
  }

  /** One hop further: the TTL is one less, the checksum read byte-swapped one more, and every other
      byte is the same. */
  predicate Hopped(h: Header, g: Header) {
    && |g| == |h| && (forall i :: 0 <= i < |h| && i != 8 && i != 10 && i != 11 ==> g[i] == h[i])
    && g[8] as int == (h[8] as int + 255) % 256
    && 256 * g[11] as int + g[10] as int == (256 * h[11] as int + h[10] as int + 1) % 0x10000
  }

  /** And no other header is. */
  lemma HoppedExact(h: Header, g: Header)
    ensures Hopped(h, g) <==> g == Forwarded(h)
  {
    var f := Forwarded(h);
    assert Hopped(h, f);
    if Hopped(h, g) {
      assert g[10] == f[10] && g[11] == f[11];
      forall i | 0 <= i < |h| ensures g[i] == f[i] {
      }
    }
  }

  method FoldIn(acc: uint16, w: uint16) returns (r: uint16)
    ensures r == AddFold(acc, w)
  {
    var result: int := acc as int + w as int;
    if result >= 0x10000 {
      result := result % 0x10000;
      result := result + 1;
    }
    r := result;
  }

  /** The checksum loop over the first `n` words. */
  method SumWords(h: array<byte>, n: nat) returns (result: uint16)
    requires 2 * n <= h.Length
    ensures result == OnesSum(HeaderWords(h[..], n))
  {
    result := 0;
    ghost var ws := HeaderWords(h[..], n);
    for i := 0 to n
      invariant result == OnesSum(ws[..i])
    {
      var w := Net16(h[2 * i], h[2 * i + 1]);
      assert ws[..i + 1][..i] == ws[..i] && ws[..i + 1][i] == w;
      result := FoldIn(result, w);
    }
    assert ws[..n] == ws;
  }

  method IPv4HdrChecksum(h: array<byte>) returns (raw: uint16)
    requires h.Length >= 60
    modifies h
    ensures h[..] == old(h[..])
    ensures raw == Swap(Computed(h[..]))
  {
    ghost var start := h[..];
    var hi, lo := h[10], h[11];
    h[10], h[11] := 0, 0;
    assert h[..] == Zeroed(start);
    var result := SumWords(h, 2 * (h[0] as int % 16));
    h[10], h[11] := hi, lo;
    assert h[..] == start;
    raw := Swap(0xffff - result);
  }

  method IPv4HdrVerification(h: array<byte>, fLen: nat) returns (ok: bool)
    requires h.Length >= 60
    modifies h
    ensures h[..] == old(h[..])
    ensures ok <==> Verified(h[..], fLen)
    ensures ok <==> Acceptable(h[..], fLen)
  {
    VerifiedExact(h[..], fLen);
    if fLen < 20 {
      return false;
    }
    var raw := IPv4HdrChecksum(h);
    SwapTwice(Computed(h[..]));
    SwapNet16(h[10], h[11]);
    SwapTwice(Stored(h[..]));
    if raw != Net16(h[11], h[10]) {
      return false;
    }
    if h[0] / 16 != 4 {
      return false;
    }
    if h[0] % 16 < 5 {
      return false;
    }
    if Net16(h[2], h[3]) as int < h[0] as int % 16 * 4 {
      return false;
    }
    if h[8] <= 1 {
      return false;
    }
    return true;
  }

  method Forward(h: array<byte>)
    requires h.Length >= 60
    modifies h
    ensures h[..] == Forwarded(old(h[..])) && Hopped(old(h[..]), h[..])
  {
    h[8] := DecByte(h[8]);
    var raw: int := Net16(h[11], h[10]);
    raw := (raw + 1) % 0x10000;
    h[10], h[11] := raw % 256, raw / 256;
    HoppedExact(old(h[..]), h[..]);
  }

  lemma SwapTwice(x: uint16)
    ensures Swap(Swap(x)) == x
  {
    assert (x % 256 * 256 + x / 256) % 256 == x / 256;
    assert (x % 256 * 256 + x / 256) / 256 == x % 256;
  }

  lemma SwapNet16(hi: byte, lo: byte)
    ensures Swap(Net16(hi, lo)) == Net16(lo, hi)
  {
    var n: int := hi as int * 256 + lo as int;
    assert n / 256 == hi as int && n % 256 == lo as int;
  }

  lemma ResidueAdd(n: nat, w: uint16)
    ensures AddFold(Residue(n), w) == Residue(n + w)
  {
    if n > 0 {
      var q, r := (n - 1) / 0xffff, (n - 1) % 0xffff;
      assert n + w - 1 == 0xffff * q + (r + w);
    }
  }

  /** Folding at every step gives the one's-complement sum of all words, whatever their order. */
  lemma {:induction false} OnesSumIsResidue(ws: seq<uint16>)
    ensures OnesSum(ws) == Residue(PlainSum(ws))
  {
    if ws != [] {
      OnesSumIsResidue(ws[..|ws| - 1]);
      ResidueAdd(PlainSum(ws[..|ws| - 1]), ws[|ws| - 1]);
    }
  }

  /** The accumulator is zero only when every word is. */
  lemma {:induction false} OnesSumZero(ws: seq<uint16>)
    ensures OnesSum(ws) == 0 <==> forall i :: 0 <= i < |ws| ==> ws[i] == 0
  {
    if ws != [] {
      var k := |ws| - 1;
      OnesSumZero(ws[..k]);
      assert forall i :: 0 <= i < k ==> ws[i] == ws[..k][i];
    }
  }

  lemma ResidueUnique(a: uint16, b: uint16, q: int)
    requires a - b == 0xffff * q && (a == 0 <==> b == 0)
    ensures a == b
  {
  }

  function SwapAll(ws: seq<uint16>): (r: seq<uint16>)
    ensures |r| == |ws|
  {
    seq(|ws|, i requires 0 <= i < |ws| => Swap(ws[i]))
  }

  lemma SwapValue(x: uint16)
    ensures Swap(x) == 256 * x - 0xffff * (x / 256)
  {
    assert x == 256 * (x / 256) + x % 256;
  }

  lemma AddFoldSwap(acc: uint16, w: uint16)
    ensures AddFold(Swap(acc), Swap(w)) == Swap(AddFold(acc, w))
  {
    var s := AddFold(acc, w);
    var x := if acc + w >= 0x10000 then 1 else 0;
    assert s == acc + w - 0xffff * x;
    var l := AddFold(Swap(acc), Swap(w));
    var y := if Swap(acc) + Swap(w) >= 0x10000 then 1 else 0;
    assert l == Swap(acc) + Swap(w) - 0xffff * y;
    SwapValue(acc);
    SwapValue(w);
    SwapValue(s);
    ResidueUnique(l, Swap(s), s / 256 + 256 * x - acc / 256 - w / 256 - y);
  }

  /** Byte-order independence (section 2(B) of RFC 1071). */
  lemma {:induction false} ByteOrderIndependence(ws: seq<uint16>)
    ensures OnesSum(SwapAll(ws)) == Swap(OnesSum(ws))
  {
    if ws != [] {
      var k := |ws| - 1;
      ByteOrderIndependence(ws[..k]);
      assert SwapAll(ws)[..k] == SwapAll(ws[..k]);
      AddFoldSwap(OnesSum(ws[..k]), ws[k]);
    }
  }

  lemma {:induction false} PlainSumUpdate(ws: seq<uint16>, i: nat, x: uint16)
    requires i < |ws|
    ensures PlainSum(ws[i := x]) == PlainSum(ws) - ws[i] + x
  {
    var k := |ws| - 1;
    if i == k {
      assert ws[i := x][..k] == ws[..k];
    } else {
      PlainSumUpdate(ws[..k], i, x);
      assert ws[i := x][..k] == ws[..k][i := x];
    }
  }

  lemma {:induction false} PlainSumLower(ws: seq<uint16>, i: nat)
    requires i < |ws|
    ensures PlainSum(ws) >= ws[i]
  {
    if i < |ws| - 1 {
      PlainSumLower(ws[..|ws| - 1], i);
    }
  }

  /** The sum without the checksum field, for a header long enough to contain it. */
  function Rest(h: Header): nat { PlainSum(Covered(Zeroed(h))) }

  lemma SumSplits(h: Header)
    requires Ihl(h) >= 5
    ensures PlainSum(Covered(h)) == Rest(h) + Stored(h)
    ensures Computed(h) == 0xffff - Residue(Rest(h))
    ensures Version(h) == 4 ==> Rest(h) >= 0x4000
  {
    assert Covered(Zeroed(h)) == Covered(h)[5 := 0];
    PlainSumUpdate(Covered(h), 5, 0);
    OnesSumIsResidue(Covered(Zeroed(h)));
    PlainSumLower(Covered(Zeroed(h)), 0);
  }

  lemma ResidueOfMultiple(n: nat, k: int)
    requires n > 0 && n == 0xffff * k
    ensures Residue(n) == 0xffff
  {
    assert n - 1 == 0xffff * (k - 1) + 0xfffe;
  }

  lemma ResidueSplit(n: nat)
    requires n > 0
    ensures n == 0xffff * ((n - 1) / 0xffff) + Residue(n) && Residue(n) > 0
  {
  }

  /** A verified header has one's-complement sum 0xffff, and its checksum is not 0xffff. */
  lemma VerifiedSum(h: Header, fLen: nat)
    requires Verified(h, fLen)
    ensures OnesSum(Covered(h)) == 0xffff
    ensures Stored(h) != 0xffff
  {
    SumSplits(h);
    ResidueSplit(Rest(h));
    OnesSumIsResidue(Covered(h));
    ResidueOfMultiple(PlainSum(Covered(h)), (Rest(h) - 1) / 0xffff + 1);
  }

  /** A balanced header whose checksum is not 0xffff carries the checksum that would be computed. */
  lemma BalancedIsComputed(h: Header)
    requires Ihl(h) >= 5 && Version(h) == 4 && OnesSum(Covered(h)) == 0xffff && Stored(h) != 0xffff
    ensures Computed(h) == Stored(h)
  {
    SumSplits(h);
    OnesSumIsResidue(Covered(h));
    ResidueBalances(Rest(h), Stored(h));
  }

  lemma ResidueBalances(rest: nat, stored: uint16)
    requires rest > 0 && stored < 0xffff && Residue(rest + stored) == 0xffff
    ensures Residue(rest) + stored == 0xffff
  {
    ResidueSplit(rest);
    ResidueSplit(rest + stored);
    var p: int, q: int := (rest - 1) / 0xffff, (rest + stored - 1) / 0xffff;
    assert Residue(rest) + stored == 0xffff * (q + 1 - p);
    assert 0 < Residue(rest) + stored < 2 * 0xffff;
  }

  /** The six checks accept exactly the headers that are acceptable by their bytes. */
  lemma VerifiedExact(h: Header, fLen: nat)
    requires |h| >= 60
    ensures Verified(h, fLen) <==> Acceptable(h, fLen)
  {
    if Verified(h, fLen) {
      VerifiedSum(h, fLen);
    }
    if Acceptable(h, fLen) {
      BalancedIsComputed(h);
    }
  }

  /** How the raw increment moves the network-order field: up by 0x100, with end-around carry. */
  lemma IncrementIsEndAround(h: Header)
    requires Stored(h) != 0xffff
    ensures Stored(Forwarded(h)) == Stored(h) + 0x100 || Stored(Forwarded(h)) == Stored(h) + 0x100 - 0xffff
    ensures Stored(Forwarded(h)) == 0xffff <==> Stored(h) == 0xfeff
  {
    IncrementBytes(h[10], h[11]);
  }

  lemma IncrementBytes(hi: byte, lo: byte)
    requires Net16(hi, lo) != 0xffff
    ensures var raw := (Net16(lo, hi) as int + 1) % 0x10000;
            Net16(raw % 256, raw / 256) == if hi < 255 then Net16(hi, lo) + 0x100 else Net16(hi, lo) + 0x100 - 0xffff
  {
    var raw: int := lo as int * 256 + hi as int + 1;
    assert raw < 0x10000;
    if hi < 255 {
      assert raw == lo as int * 256 + (hi as int + 1) && raw / 256 == lo as int && raw % 256 == hi as int + 1;
    } else {
      assert raw == (lo as int + 1) * 256 && raw / 256 == lo as int + 1 && raw % 256 == 0;
    }
  }

  /** Forwarding touches the TTL and the checksum only. */
  lemma ForwardedFields(h: Header)
    requires Ttl(h) > 0
    ensures Zeroed(Forwarded(h)) == Zeroed(h)[8 := h[8] - 1]
    ensures Ihl(Forwarded(h)) == Ihl(h) && Version(Forwarded(h)) == Version(h)
    ensures TotalLength(Forwarded(h)) == TotalLength(h) && Ttl(Forwarded(h)) == Ttl(h) - 1
  {
    assert DecByte(h[8]) == h[8] - 1;
  }

  lemma TtlWord(h: Header, n: nat)
    requires 5 <= n <= 30 && Ttl(h) > 0
    ensures HeaderWords(h, n)[4] >= 0x100
    ensures HeaderWords(h[8 := h[8] - 1], n) == HeaderWords(h, n)[4 := HeaderWords(h, n)[4] - 0x100]
  {
    var g, ws := h[8 := h[8] - 1], HeaderWords(h, n);
    assert ws[4] == Net16(h[8], h[9]) && Net16(h[8] - 1, h[9]) == ws[4] - 0x100;
    forall i | 0 <= i < n ensures HeaderWords(g, n)[i] == ws[4 := ws[4] - 0x100][i] {
      if i != 4 {
        assert 2 * i != 8 && 2 * i + 1 != 8;
      }
    }
  }

  lemma ForwardedRest(h: Header)
    requires Ihl(h) >= 5 && Ttl(h) > 0
    ensures Rest(Forwarded(h)) == Rest(h) - 0x100
  {
    ForwardedFields(h);
    var z, n := Zeroed(h), 2 * Ihl(h);
    TtlWord(z, n);
    PlainSumUpdate(HeaderWords(z, n), 4, HeaderWords(z, n)[4] - 0x100);
  }

  /** After forwarding the full sum is still 0xffff; the stored field equals the recomputed
      checksum except exactly when the old one was 0xfeff, where it is 0xffff instead of 0. */
  lemma ForwardedSum(h: Header, fLen: nat)
    requires Verified(h, fLen)
    ensures OnesSum(Covered(Forwarded(h))) == 0xffff
    ensures Stored(Forwarded(h)) == Computed(Forwarded(h)) <==> Stored(h) != 0xfeff
    ensures Stored(h) == 0xfeff ==> Stored(Forwarded(h)) == 0xffff && Computed(Forwarded(h)) == 0
  {
    var g := Forwarded(h);
    VerifiedSum(h, fLen);
    IncrementIsEndAround(h);
    ForwardedFields(h);
    ForwardedRest(h);
    StillBalanced(h, g);
  }

  /** A header with 0x100 less elsewhere and 0x100 more in the checksum field, end-around. */
  lemma StillBalanced(h: Header, g: Header)
    requires Ihl(h) >= 5 && Ihl(g) >= 5 && Version(h) == 4 && Stored(h) == Computed(h)
    requires Rest(g) == Rest(h) - 0x100
    requires Stored(g) == Stored(h) + 0x100 || Stored(g) == Stored(h) + 0x100 - 0xffff
    ensures OnesSum(Covered(g)) == 0xffff && Computed(g) < 0xffff
    ensures Stored(g) == Computed(g) || (Stored(g) == 0xffff && Computed(g) == 0)
  {
    SumSplits(h);
    SumSplits(g);
    OnesSumIsResidue(Covered(g));
    IncrementedSum(Rest(h), Stored(h), Rest(g), Stored(g));
  }

  /** Taking 0x100 out of the sum and adding it end-around to the field keeps them balanced. */
  lemma IncrementedSum(rest: nat, stored: uint16, rest': nat, stored': uint16)
    requires rest >= 0x4000 && stored == 0xffff - Residue(rest) && rest' == rest - 0x100
    requires stored' == stored + 0x100 || stored' == stored + 0x100 - 0xffff
    ensures Residue(rest' + stored') == 0xffff
    ensures Residue(rest') > 0
    ensures stored' == 0xffff - Residue(rest') || (stored' == 0xffff && Residue(rest') == 0xffff)
  {
    ResidueSplit(rest);
    ResidueSplit(rest');
    var p: int, q: int := (rest - 1) / 0xffff, (rest' - 1) / 0xffff;
    var d: int := if stored' == stored + 0x100 then 0 else 1;
    assert rest' + stored' == 0xffff * (p + 1 - d);
    ResidueOfMultiple(rest' + stored', p + 1 - d);
    StoredOrComputed(stored', 0xffff - Residue(rest'), p - d - q);
  }

  lemma StoredOrComputed(stored: uint16, computed: uint16, q: int)
    requires stored - computed == 0xffff * q && computed < 0xffff
    ensures stored == computed || (stored == 0xffff && computed == 0)
  {
  }

  /** The next router running the same verification accepts the forwarded header exactly when
      the old checksum was not 0xfeff and the TTL is still alive. */
  lemma NextHopAccepts(h: Header, fLen: nat)
    requires Verified(h, fLen)
    ensures Verified(Forwarded(h), fLen) <==> Stored(h) != 0xfeff && Ttl(h) > 2
  {
    ForwardedSum(h, fLen);
    ForwardedFields(h);
  }

  /** Version 4, length 20, TTL 64; the identification field makes the checksum 0xfeff. */
  function ExceptionHeader(): Header {
    seq(60, i => 0)[0 := 0x45][3 := 20][4 := 0x7b][5 := 0xeb][8 := 0x40][10 := 0xfe][11 := 0xff]
  }

  lemma {:induction false} PlainSumZeros(a: seq<uint16>)
    requires forall i :: 0 <= i < |a| ==> a[i] == 0
    ensures PlainSum(a) == 0
  {
    if a != [] {
      PlainSumZeros(a[..|a| - 1]);
    }
  }

  lemma FourWords(ws: seq<uint16>, a: uint16, b: uint16, c: uint16, d: uint16)
    requires |ws| == 10 && ws[0] == a && ws[1] == b && ws[2] == c && ws[3] == 0 && ws[4] == d
    requires forall i :: 5 <= i < 10 ==> ws[i] == 0
    ensures PlainSum(ws) == a + b + c + d
  {
    var z: seq<uint16> := seq(10, i => 0);
    PlainSumZeros(z);
    var z1 := z[0 := a];
    var z2 := z1[1 := b];
    var z3 := z2[2 := c];
    PlainSumUpdate(z, 0, a);
    PlainSumUpdate(z1, 1, b);
    PlainSumUpdate(z2, 2, c);
    PlainSumUpdate(z3, 4, d);
    assert ws == z3[4 := d];
  }

  ghost predicate ExceptionBytes(z: Header) {
    && z[0] == 0x45 && z[3] == 20 && z[4] == 0x7b && z[5] == 0xeb && z[8] == 0x40
    && forall i :: 0 <= i < 20 && i !in {0, 3, 4, 5, 8} ==> z[i] == 0
  }

  lemma ExceptionZeroed()
    ensures ExceptionBytes(Zeroed(ExceptionHeader()))
  {
  }

  lemma ExceptionWord(z: Header, i: nat)
    requires ExceptionBytes(z) && i < 10
    ensures HeaderWords(z, 10)[i] ==
            if i == 0 then 0x4500 else if i == 1 then 20 else if i == 2 then 0x7beb else if i == 4 then 0x4000 else 0
  {
    assert HeaderWords(z, 10)[i] == Net16(z[2 * i], z[2 * i + 1]);
    if i == 3 || i > 4 {
      assert 2 * i !in {0, 3, 4, 5, 8} && 2 * i + 1 !in {0, 3, 4, 5, 8};
    }
  }

  lemma ExceptionSum(z: Header)
    requires ExceptionBytes(z)
    ensures PlainSum(Covered(z)) == 0x100ff
  {
    assert 2 * Ihl(z) == 10;
    forall i: nat | i < 10
      ensures HeaderWords(z, 10)[i] ==
              if i == 0 then 0x4500 else if i == 1 then 20 else if i == 2 then 0x7beb else if i == 4 then 0x4000 else 0
    {
      ExceptionWord(z, i);
    }
    FourWords(HeaderWords(z, 10), 0x4500, 20, 0x7beb, 0x4000);
  }

  lemma ExceptionRest()
    ensures Rest(ExceptionHeader()) == 0x100ff
  {
    ExceptionZeroed();
    ExceptionSum(Zeroed(ExceptionHeader()));
  }

  lemma ExceptionFields()
    ensures var h := ExceptionHeader();
            Stored(h) == 0xfeff && Version(h) == 4 && Ihl(h) == 5 && TotalLength(h) == 20 && Ttl(h) == 64
  {
  }

  /** The exception occurs: this header is accepted here and refused after one hop. */
  lemma ExceptionOccurs()
    ensures Verified(ExceptionHeader(), 34) && !Verified(Forwarded(ExceptionHeader()), 34)
  {
    var h := ExceptionHeader();
    ExceptionFields();
    ExceptionRest();
    SumSplits(h);
    NextHopAccepts(h, 34);
  }
}
