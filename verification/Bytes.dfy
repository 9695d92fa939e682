/**
 Octets and the big-endian arithmetic the codecs share. Go strings are byte
 strings, so names and texts are `seq<Byte>` as well.
 */
module Bytes {

  type Byte = b: int | 0 <= b < 256

  /** 256 to the power k. */
  function Pow256(k: nat): (p: nat)
    ensures p >= 1
  {
    if k == 0 then 1 else 256 * Pow256(k - 1)
  }

  /** The value a shift-and-or loop accumulates over bs. */
  function ToNat(bs: seq<Byte>): (n: nat)
  {
    if bs == [] then 0 else ToNat(bs[..|bs| - 1]) * 256 + bs[|bs| - 1]
  }

  /** n >> 8*j, the arithmetic shift: floor division also for negative n. */
  function Shr8(n: int, j: nat): int
    decreases j
  {
    if j == 0 then n else Shr8(n / 256, j - 1)
  }

  /** The k low-order octets of n in two's complement, most significant first. */
  function Fixed(n: int, k: nat): (bs: seq<Byte>)
    ensures |bs| == k
    decreases k, n
  {
    if k == 0 then [] else Fixed(n / 256, k - 1) + [n % 256]
  }

  /** How many octets n occupies; none for zero. */
  function ByteCount(n: nat): (k: nat)
    ensures n > 0 ==> k >= 1
  {
    if n == 0 then 0 else 1 + ByteCount(n / 256)
  }

  lemma {:induction false} FixedAt(n: int, k: nat, i: nat)
    requires i < k
    ensures Fixed(n, k)[i] == Shr8(n, k - 1 - i) % 256
    decreases k
  {
    if i < k - 1 {
      FixedAt(n / 256, k - 1, i);
    }
  }

  lemma {:induction false} ToNatBound(bs: seq<Byte>)
    ensures ToNat(bs) < Pow256(|bs|)
  {
    if bs != [] {
      ToNatBound(bs[..|bs| - 1]);
    }
  }

  lemma {:induction false} ToNatConcat(a: seq<Byte>, b: seq<Byte>)
    ensures ToNat(a + b) == ToNat(a) * Pow256(|b|) + ToNat(b)
  {
    if b == [] {
      assert a + b == a;
    } else {
      var c := b[..|b| - 1];
      ToNatConcat(a, c);
      assert (a + b)[..|a + b| - 1] == a + c;
      MulShift(ToNat(a), Pow256(|c|));
    }
  }

  lemma MulShift(x: int, p: int)
    ensures x * p * 256 == x * (256 * p)
  {
  }

  lemma ToNatCons(b: Byte, bs: seq<Byte>)
    ensures ToNat([b] + bs) == b * Pow256(|bs|) + ToNat(bs)
  {
    ToNatConcat([b], bs);
    assert ToNat([b]) == b by { assert [b][..0] == []; }
  }

  /** Fixed and ToNat invert each other: unsigned reading. */
  lemma {:induction false} ToNatFixed(n: nat, k: nat)
    requires n < Pow256(k)
    ensures ToNat(Fixed(n, k)) == n
  {
    if k > 0 {
      ToNatFixed(n / 256, k - 1);
      assert Fixed(n, k)[..k - 1] == Fixed(n / 256, k - 1);
    }
  }

  /** Two's complement: the octets of a negative n read as n + 256^k. */
  lemma {:induction false} ToNatFixedNegative(n: int, k: nat)
    requires 0 - Pow256(k) <= n < 0
    ensures ToNat(Fixed(n, k)) == n + Pow256(k)
    decreases k
  {
    if k > 0 {
      ToNatFixedNegative(n / 256, k - 1);
      assert Fixed(n, k)[..k - 1] == Fixed(n / 256, k - 1);
    }
  }

  lemma {:induction false} FixedToNat(bs: seq<Byte>)
    ensures Fixed(ToNat(bs), |bs|) == bs
  {
    if bs != [] {
      var front, last := bs[..|bs| - 1], bs[|bs| - 1];
      FixedToNat(front);
      LastOctet(ToNat(front), last);
      assert bs == front + [last];
    }
  }

  lemma LastOctet(x: nat, b: Byte)
    ensures (256 * x + b) / 256 == x && (256 * x + b) % 256 == b
  {
  }

  /** ByteCount is the least width that holds n. */
  lemma {:induction false} ByteCountLeast(n: nat, k: nat)
    ensures ByteCount(n) <= k <==> n < Pow256(k)
  {
    if n > 0 && k > 0 {
      ByteCountLeast(n / 256, k - 1);
    }
  }

  lemma {:induction false} Pow256Monotone(i: nat, j: nat)
    requires i <= j
    ensures Pow256(i) <= Pow256(j)
  {
    if i < j {
      Pow256Monotone(i, j - 1);
    }
  }

  lemma Pow256Values()
    ensures Pow256(0) == 1
    ensures Pow256(1) == 0x100
    ensures Pow256(2) == 0x1_0000
    ensures Pow256(3) == 0x100_0000
    ensures Pow256(4) == 0x1_0000_0000
    ensures Pow256(7) == 0x100_0000_0000_0000
    ensures Pow256(8) == 0x1_0000_0000_0000_0000
  {
    assert Pow256(1) == 256 * Pow256(0);
    assert Pow256(2) == 256 * Pow256(1);
    assert Pow256(3) == 256 * Pow256(2);
    assert Pow256(4) == 256 * Pow256(3);
    assert Pow256(5) == 256 * Pow256(4);
    assert Pow256(6) == 256 * Pow256(5);
    assert Pow256(7) == 256 * Pow256(6);
    assert Pow256(8) == 256 * Pow256(7);
  }
}
