/** Machine words as bit strings, most significant bit first, and the handful of
    C operators the lookup code applies to them (include/util.hpp). */
module Words {

  type Bits = seq<bool>

  type Word = w: Bits | |w| == 32 witness seq(32, _ => false)

  function Zeros(n: nat): (r: Bits)
    ensures |r| == n
  {
    seq(n, _ => false)
  }

  function Ones(n: nat): (r: Bits)
    ensures |r| == n
  {
    seq(n, _ => true)
  }

  const ZERO: Word := Zeros(32)

  /** The canonical base address of a prefix: the prefix followed by zero bits. */
  function Pad(p: Bits): (w: Word)
    requires |p| <= 32
    ensures p <= w
  {
    p + Zeros(32 - |p|)
  }

  function And(a: Word, b: Word): Word {
    seq(32, i requires 0 <= i < 32 => a[i] && b[i])
  }

  function Or(a: Word, b: Word): Word {
    seq(32, i requires 0 <= i < 32 => a[i] || b[i])
  }

  function Xor(a: Word, b: Word): Word {
    seq(32, i requires 0 <= i < 32 => a[i] != b[i])
  }

  function Not(b: Bits): (r: Bits)
    ensures |r| == |b|
  {
    seq(|b|, i requires 0 <= i < |b| => !b[i])
  }

  /** The word `1 << k`. */
  function OneShl(k: nat): Word
    requires k < 32
  {
    seq(32, i => i == 31 - k)
  }

  /** The word `w >> 1`. */
  function Shr1(w: Word): Word {
    [false] + w[..31]
  }

  /** Unsigned value of a bit string. */
  function Value(b: Bits): nat {
    if b == [] then 0 else 2 * Value(b[..|b| - 1]) + if b[|b| - 1] then 1 else 0
  }

  /** The low `width` bits of a number. */
  function FromValue(n: nat, width: nat): (b: Bits)
    ensures |b| == width
  {
    if width == 0 then [] else FromValue(n / 2, width - 1) + [n % 2 == 1]
  }

  function Pow2(k: nat): (r: nat)
    ensures r >= 1
  {
    if k == 0 then 1 else 2 * Pow2(k - 1)
  }

  /** PREFIX_MASK: complement of `(1 << (32-len)) - 1` in 64 bits, cut to 32 bits. */
  function PrefixMask(len: nat): Word
    requires len <= 32
  {
    Not(FromValue(Pow2(32 - len) - 1, 64))[32..]
  }

  /** extractBit for a position inside the word. */
  predicate ExtractBit(addr: Word, pos: nat)
    requires pos < 32
  {
    And(addr, OneShl(31 - pos)) != ZERO
  }

  lemma {:induction false} FromValueZero(width: nat)
    ensures FromValue(0, width) == Zeros(width)
  {
    if width > 0 {
      FromValueZero(width - 1);
      assert Zeros(width) == Zeros(width - 1) + [false];
    }
  }

  lemma HalfOfOnes(n: nat)
    requires n >= 1
    ensures (2 * n - 1) / 2 == n - 1 && (2 * n - 1) % 2 == 1
  {
  }

  lemma {:induction false} FromValueAllOnes(k: nat, width: nat)
    requires k <= width
    ensures FromValue(Pow2(k) - 1, width) == Zeros(width - k) + Ones(k)
  {
    if k == 0 {
      FromValueZero(width);
    } else {
      FromValueAllOnes(k - 1, width - 1);
      HalfOfOnes(Pow2(k - 1));
      assert Ones(k) == Ones(k - 1) + [true];
    }
  }

  /** The mask macro yields `len` one bits followed by zero bits. */
  lemma PrefixMaskBits(len: nat)
    requires len <= 32
    ensures PrefixMask(len) == Ones(len) + Zeros(32 - len)
  {
    FromValueAllOnes(32 - len, 64);
    var low := Zeros(32 + len) + Ones(32 - len);
    assert Not(low) == Ones(32 + len) + Zeros(32 - len);
  }

  /** Masking with `len` one bits cuts a word to its first `len` bits. */
  lemma MaskCuts(a: Word, len: nat)
    requires len <= 32
    ensures And(a, Ones(len) + Zeros(32 - len)) == Pad(a[..len])
  {
  }

  lemma PrefixMaskCuts(a: Word, len: nat)
    requires len <= 32
    ensures And(a, PrefixMask(len)) == Pad(a[..len])
  {
    PrefixMaskBits(len);
    MaskCuts(a, len);
  }

  /** extractBit reads exactly the addressed bit. */
  lemma ExtractBitReads(addr: Word, pos: nat)
    requires pos < 32
    ensures ExtractBit(addr, pos) <==> addr[pos]
  {
    var w := And(addr, OneShl(31 - pos));
    assert w[pos] == addr[pos];
    assert !addr[pos] ==> w == ZERO;
  }

  /** Two words whose exclusive-or is a single bit differ in that bit and no other. */
  lemma XorIsOneBit(a: Word, b: Word, k: nat)
    requires k < 32
    ensures Xor(a, b) == OneShl(k) <==>
            a[..31 - k] == b[..31 - k] && a[31 - k] != b[31 - k] && a[32 - k..] == b[32 - k..]
  {
    var x := Xor(a, b);
    if x == OneShl(k) {
      forall i | 0 <= i < 32 ensures (a[i] != b[i]) == (i == 31 - k) {
        assert x[i] == OneShl(k)[i];
      }
    }
    if a[..31 - k] == b[..31 - k] && a[31 - k] != b[31 - k] && a[32 - k..] == b[32 - k..] {
      forall i | 0 <= i < 32 ensures x[i] == OneShl(k)[i] {
        if i < 31 - k {
          assert a[i] == a[..31 - k][i] && b[i] == b[..31 - k][i];
        } else if i > 31 - k {
          assert a[i] == a[32 - k..][i - (32 - k)] && b[i] == b[32 - k..][i - (32 - k)];
        }
      }
      assert x == OneShl(k);
    }
  }

  /** Equal-length bit strings have equal values only when they are equal. */
  lemma {:induction false} ValueInjective(a: Bits, b: Bits)
    requires |a| == |b| && Value(a) == Value(b)
    ensures a == b
  {
    if a != [] {
      ValueInjective(a[..|a| - 1], b[..|b| - 1]);
      assert a == a[..|a| - 1] + [a[|a| - 1]];
      assert b == b[..|b| - 1] + [b[|b| - 1]];
    }
  }

  /** The first bit that differs decides the order of values. */
  lemma {:induction false} ValueLess(a: Bits, b: Bits, k: nat)
    requires |a| == |b| && k < |a| && a[..k] == b[..k] && !a[k] && b[k]
    ensures Value(a) < Value(b)
  {
    var n := |a| - 1;
    if k == n {
      assert a[..n] == b[..n];
    } else {
      assert a[..n][..k] == a[..k] && b[..n][..k] == b[..k];
      ValueLess(a[..n], b[..n], k);
    }
  }

  lemma TimesTwo(a: nat, p: nat)
    ensures a * (2 * p) == 2 * (a * p)
  {
  }

  lemma {:induction false} ValueConcat(a: Bits, b: Bits)
    ensures Value(a + b) == Value(a) * Pow2(|b|) + Value(b)
  {
    if b == [] {
      assert a + b == a;
    } else {
      var k := |b| - 1;
      assert (a + b)[..|a + b| - 1] == a + b[..k];
      ValueConcat(a, b[..k]);
      TimesTwo(Value(a), Pow2(k));
    }
  }

  /** A number that fits is read back. */
  lemma {:induction false} ValueOf(n: nat, width: nat)
    requires n < Pow2(width)
    ensures Value(FromValue(n, width)) == n
  {
    if width > 0 {
      ValueOf(n / 2, width - 1);
      assert FromValue(n, width)[..width - 1] == FromValue(n / 2, width - 1);
    }
  }

  /** mostSigOne: distance of the highest one bit from the top, or -1 for zero. */
  method MostSigOne(num: Word) returns (r: int)
    ensures -1 <= r < 32
    ensures r == -1 <==> num == ZERO
    ensures r >= 0 ==> num[r] && num[..r] == Zeros(r)
  {
    for i := 32 downto 0
      invariant num[..32 - i] == Zeros(32 - i)
    {
      var test := OneShl(i);
      var hit := And(num, test);
      assert hit[31 - i] == num[31 - i];
      assert !num[31 - i] ==> hit == ZERO;
      if hit != ZERO {
        return 31 - i;
      }
      assert num[..32 - i] == num[..31 - i] + [num[31 - i]];
    }
    assert num == num[..32];
    return -1;
  }
}
