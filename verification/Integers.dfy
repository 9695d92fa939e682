/**
 INTEGER contents (X.690 section 8.3): minimal two's complement on encode,
 sign extension and a width limit on decode. Models the integer codecs of
 internal/berutil/berutil.go and internal/pdu/data.go.
 */
module Integers {
  import opened Bytes
  import opened Results

  const MIN_INT64: int := -0x8000_0000_0000_0000
  const MAX_INT64: int := 0x7fff_ffff_ffff_ffff
  const MAX_UINT64: int := 0xffff_ffff_ffff_ffff
  const MAX_UINT32: int := 0xffff_ffff

  type Int64 = v: int | MIN_INT64 <= v <= MAX_INT64
  type Uint64 = v: int | 0 <= v <= MAX_UINT64
  type Uint32 = v: int | 0 <= v <= MAX_UINT32

  /** The two's complement reading of a non-empty content. */
  function Signed(bs: seq<Byte>): int
    requires bs != []
  {
    if bs[0] >= 128 then ToNat(bs) - Pow256(|bs|) else ToNat(bs)
  }

  /** The first octet repeats the sign of the second (X.690 section 8.3.2 forbids this). */
  predicate Redundant(bs: seq<Byte>) {
    |bs| > 1 && ((bs[0] == 0 && bs[1] < 128) || (bs[0] == 255 && bs[1] >= 128))
  }

  function Strip(bs: seq<Byte>): (r: seq<Byte>)
    requires bs != []
    ensures r != [] && |r| <= |bs|
  {
    if Redundant(bs) then Strip(bs[1..]) else bs
  }

  /** The minimal content of an int64. */
  function EncodeInt(v: Int64): (bs: seq<Byte>)
    ensures 1 <= |bs| <= 8
  {
    Strip(Fixed(v, 8))
  }

  /** The minimal non-negative content of v: its octets, with a zero pad when the top bit is set. */
  function EncodeUnsigned(v: nat): (bs: seq<Byte>)
    ensures bs != []
  {
    if v == 0 then [0]
    else
      var m := Fixed(v, ByteCount(v));
      if m[0] >= 128 then [0] + m else m
  }

  function DecodeSigned(data: seq<Byte>, width: nat): (r: Result<int>)
  {
    if data == [] || |data| > width then Err else Ok(Signed(data))
  }

  function DecodeUnsigned(data: seq<Byte>, width: nat): (r: Result<nat>)
  {
    if data == [] || data[0] >= 128 then Err
    else
      var body := if data[0] == 0 && |data| > 1 then data[1..] else data;
      if |body| > width then Err else Ok(ToNat(body))
  }

  // ----- the loops of the source

  /** The slice-trimming loop of berutil.EncodeInt. */
  method TrimInt(v: Int64) returns (b: seq<Byte>)
    ensures b == EncodeInt(v)
  {
    b := Fixed(v, 8);
    while |b| > 1 && ((b[0] == 0 && b[1] < 128) || (b[0] == 255 && b[1] >= 128))
      invariant b != [] && Strip(b) == EncodeInt(v)
    {
      b := b[1..];
    }
  }

  /** pdu.encodeSignedInt, whose loops look at one sign only, agrees with berutil.EncodeInt. */
  method EncodeSignedInt(v: Int64) returns (bs: seq<Byte>)
    ensures bs == EncodeInt(v)
  {
    if v == 0 {
      ZeroContent();
      return [0];
    }
    var buf := Fixed(v, 8);
    TopOctet(v);
    var i := 0;
    if v > 0 {
      while i < 7 && buf[i] == 0 && buf[i + 1] < 128
        invariant 0 <= i <= 7 && Strip(buf[i..]) == EncodeInt(v)
        invariant buf[i] < 128
      {
        assert buf[i..][1..] == buf[i + 1..];
        i := i + 1;
      }
      return buf[i..];
    }
    while i < 7 && buf[i] == 255 && buf[i + 1] >= 128
      invariant 0 <= i <= 7 && Strip(buf[i..]) == EncodeInt(v)
      invariant buf[i] >= 128
    {
      assert buf[i..][1..] == buf[i + 1..];
      i := i + 1;
    }
    return buf[i..];
  }

  /** The sign-extending accumulator of decodeSignedInt and DecodeInteger; it never leaves int64. */
  method ScanSigned(data: seq<Byte>, width: nat) returns (r: Result<int>)
    requires width <= 8
    ensures r == DecodeSigned(data, width)
  {
    if |data| == 0 || |data| > width {
      return Err;
    }
    var negative := data[0] >= 128;
    var v := if negative then -1 else 0;
    for i := 0 to |data|
      invariant v == if negative then ToNat(data[..i]) - Pow256(i) else ToNat(data[..i])
      invariant MIN_INT64 <= v <= MAX_INT64
    {
      assert data[..i + 1][..i] == data[..i];
      v := v * 256 + data[i];
      SignedFits(data[..i + 1]);
    }
    assert data[..|data|] == data;
    return Ok(v);
  }

  /** pdu.encodeUnsignedInt: skip leading zero octets of the 8-octet form, then pad. */
  method EncodeUnsignedInt(v: Uint64) returns (bs: seq<Byte>)
    ensures bs == EncodeUnsigned(v)
  {
    if v == 0 {
      return [0];
    }
    Pow256Values();
    var i := 0;
    var buf := Fixed(v, 8);
    ByteCountLeast(v, 8);
    FixedSuffix(v, 8, 0);
    while i < 7 && buf[i] == 0
      invariant 0 <= i <= 7 && buf[i..] == Fixed(v, 8 - i) && ByteCount(v) <= 8 - i
    {
      FixedTop(v, 8 - i);
      FixedSuffix(v, 8 - i, 1);
      assert buf[i..][1..] == buf[i + 1..];
      i := i + 1;
    }
    FixedTop(v, 8 - i);
    if buf[i] >= 128 {
      return [0] + buf[i..];
    }
    return buf[i..];
  }

  /** berutil.EncodeUint32: append from the first non-zero octet on, then pad. */
  method EncodeUint32(v: Uint32) returns (buf: seq<Byte>)
    ensures buf == EncodeUnsigned(v)
  {
    if v == 0 {
      return [0];
    }
    Pow256Values();
    ByteCountLeast(v, 4);
    buf := [];
    var j: nat := 4;
    while j > 0
      invariant 0 <= j <= 4
      invariant buf == [] ==> ByteCount(v) <= j
      invariant buf != [] ==> j < ByteCount(v) && buf == Fixed(v, ByteCount(v))[..ByteCount(v) - j]
    {
      j := j - 1;
      var b := Shr8(v, j) % 256;
      FixedAt(v, j + 1, 0);
      if buf == [] {
        FixedTop(v, j + 1);
      } else {
        FixedAt(v, ByteCount(v), ByteCount(v) - 1 - j);
      }
      if buf != [] || b != 0 {
        buf := buf + [b];
      }
    }
    if buf[0] >= 128 {
      buf := [0] + buf;
    }
  }

  // ----- sign, width and minimality

  lemma MulMonotone(a: int, b: int, p: nat)
    requires a <= b
    ensures a * p <= b * p
  {
  }

  lemma LeadingOctet(bs: seq<Byte>)
    requires bs != []
    ensures bs[0] * Pow256(|bs| - 1) <= ToNat(bs) < bs[0] * Pow256(|bs| - 1) + Pow256(|bs| - 1)
  {
    assert bs == [bs[0]] + bs[1..];
    ToNatCons(bs[0], bs[1..]);
    ToNatBound(bs[1..]);
  }

  lemma SignedRange(bs: seq<Byte>)
    requires bs != []
    ensures bs[0] < 128 ==> 0 <= ToNat(bs) < 128 * Pow256(|bs| - 1)
    ensures bs[0] >= 128 ==> -128 * Pow256(|bs| - 1) <= ToNat(bs) - Pow256(|bs|) < 0
  {
    LeadingOctet(bs);
    if bs[0] < 128 {
      MulMonotone(bs[0], 127, Pow256(|bs| - 1));
    } else {
      MulMonotone(128, bs[0], Pow256(|bs| - 1));
      MulMonotone(bs[0], 255, Pow256(|bs| - 1));
    }
  }

  lemma {:induction false} StripKeepsValue(bs: seq<Byte>)
    requires bs != []
    ensures Signed(Strip(bs)) == Signed(bs)
    ensures !Redundant(Strip(bs))
  {
    if Redundant(bs) {
      assert bs == [bs[0]] + bs[1..];
      ToNatCons(bs[0], bs[1..]);
      StripKeepsValue(bs[1..]);
    }
  }

  /** A content without a redundant first octet cannot be expressed in one octet less. */
  lemma NeedsItsWidth(a: seq<Byte>)
    requires |a| >= 2
    requires !Redundant(a)
    ensures Signed(a) >= 128 * Pow256(|a| - 2) || Signed(a) < -128 * Pow256(|a| - 2)
  {
    var p := Pow256(|a| - 2);
    assert a == [a[0]] + a[1..];
    ToNatCons(a[0], a[1..]);
    LeadingOctet(a[1..]);
    SignedRange(a[1..]);
    if a[1] >= 128 {
      MulMonotone(128, a[1], p);
    }
    if 1 <= a[0] < 128 {
      MulMonotone(1, a[0], 256 * p);
    } else if 128 <= a[0] < 255 {
      MulMonotone(a[0], 254, 256 * p);
    }
  }

  /** Minimality (X.690 section 8.3.2): no content denoting the same integer is shorter. */
  lemma NonRedundantIsShortest(a: seq<Byte>, b: seq<Byte>)
    requires a != [] && b != []
    requires !Redundant(a)
    requires Signed(a) == Signed(b)
    ensures |a| <= |b|
  {
    if |b| < |a| {
      NeedsItsWidth(a);
      SignedRange(b);
      Pow256Monotone(|b| - 1, |a| - 2);
    }
  }

  /** Two non-redundant contents of the same integer are the same octets. */
  lemma NonRedundantUnique(a: seq<Byte>, b: seq<Byte>)
    requires a != [] && b != []
    requires !Redundant(a) && !Redundant(b)
    requires Signed(a) == Signed(b)
    ensures a == b
  {
    NonRedundantIsShortest(a, b);
    NonRedundantIsShortest(b, a);
    assert ToNat(a) == ToNat(b) by {
      SignedRange(a);
      SignedRange(b);
    }
    FixedToNat(a);
    FixedToNat(b);
  }

  // ----- the signed codec

  lemma TopOctet(v: Int64)
    ensures Fixed(v, 8)[0] >= 128 <==> v < 0
    ensures Signed(Fixed(v, 8)) == v
  {
    Pow256Values();
    var bs := Fixed(v, 8);
    if v >= 0 {
      ToNatFixed(v, 8);
    } else {
      ToNatFixedNegative(v, 8);
    }
    SignedRange(bs);
  }

  lemma IntContent(v: Int64)
    ensures Signed(EncodeInt(v)) == v
    ensures !Redundant(EncodeInt(v))
  {
    TopOctet(v);
    StripKeepsValue(Fixed(v, 8));
  }

  /** Every int64 survives, in the fewest octets that can denote it. */
  lemma IntRoundTrip(v: Int64, width: nat)
    requires |EncodeInt(v)| <= width
    ensures DecodeSigned(EncodeInt(v), width) == Ok(v)
    ensures forall other: seq<Byte> :: other != [] && Signed(other) == v ==> |EncodeInt(v)| <= |other|
  {
    IntContent(v);
    forall other: seq<Byte> | other != [] && Signed(other) == v
      ensures |EncodeInt(v)| <= |other|
    {
      NonRedundantIsShortest(EncodeInt(v), other);
    }
  }

  lemma SignedWithin(bs: seq<Byte>, k: nat)
    requires 1 <= |bs| <= k
    ensures -128 * Pow256(k - 1) <= Signed(bs) < 128 * Pow256(k - 1)
  {
    SignedRange(bs);
    Pow256Monotone(|bs| - 1, k - 1);
  }

  lemma SignedFits(data: seq<Byte>)
    requires 1 <= |data| <= 8
    ensures MIN_INT64 <= Signed(data) <= MAX_INT64
  {
    SignedWithin(data, 8);
    Pow256Values();
  }

  /** Decoding then encoding yields the stripped content: never longer, and the same value again. */
  lemma IntNormalises(data: seq<Byte>)
    requires 1 <= |data| <= 8
    ensures MIN_INT64 <= Signed(data) <= MAX_INT64
    ensures EncodeInt(Signed(data)) == Strip(data)
  {
    SignedFits(data);
    IntContent(Signed(data));
    StripKeepsValue(data);
    NonRedundantUnique(EncodeInt(Signed(data)), Strip(data));
  }

  /** |EncodeInt(v)| <= k exactly on the k-octet two's complement range. */
  lemma IntWidth(v: Int64, k: nat)
    requires k >= 1
    ensures |EncodeInt(v)| <= k <==> -128 * Pow256(k - 1) <= v < 128 * Pow256(k - 1)
  {
    IntContent(v);
    if |EncodeInt(v)| <= k {
      SignedWithin(EncodeInt(v), k);
    } else {
      NeedsItsWidth(EncodeInt(v));
      Pow256Monotone(k - 1, |EncodeInt(v)| - 2);
    }
  }

  lemma ZeroContent()
    ensures EncodeInt(0) == [0]
  {
    IntContent(0);
    assert Signed([0]) == 0 by { assert [0][..0] == []; }
    NonRedundantUnique(EncodeInt(0), [0]);
  }

  // ----- the unsigned codec

  lemma FixedSuffix(n: int, k: nat, i: nat)
    requires i <= k
    ensures Fixed(n, k)[i..] == Fixed(n, k - i)
  {
    forall j | 0 <= j < k - i
      ensures Fixed(n, k)[i..][j] == Fixed(n, k - i)[j]
    {
      FixedAt(n, k, i + j);
      FixedAt(n, k - i, j);
    }
  }

  /** The first octet of a width that holds v is zero exactly when one octet less also holds it. */
  lemma FixedTop(v: nat, k: nat)
    requires k >= 1 && ByteCount(v) <= k
    ensures Fixed(v, k)[0] == 0 <==> ByteCount(v) < k
  {
    ByteCountLeast(v, k);
    ToNatFixed(v, k);
    LeadingOctet(Fixed(v, k));
    ByteCountLeast(v, k - 1);
    if Fixed(v, k)[0] > 0 {
      MulMonotone(1, Fixed(v, k)[0], Pow256(k - 1));
    }
  }

  lemma OctetsOf(v: nat, k: nat)
    requires v > 0 && k == ByteCount(v)
    ensures ToNat(Fixed(v, k)) == v
    ensures Fixed(v, k)[0] != 0
  {
    ByteCountLeast(v, k);
    ToNatFixed(v, k);
    FixedTop(v, k);
  }

  lemma UnsignedContent(v: nat)
    ensures !Redundant(EncodeUnsigned(v))
    ensures EncodeUnsigned(v)[0] < 128
    ensures ToNat(EncodeUnsigned(v)) == v
  {
    if v == 0 {
      assert [0][..0] == [];
    } else {
      var m := Fixed(v, ByteCount(v));
      OctetsOf(v, ByteCount(v));
      ToNatCons(0, m);
    }
  }

  /** On non-negative int64 the signed and unsigned encoders write the same octets. */
  lemma UnsignedIsInt(v: nat)
    requires v <= MAX_INT64
    ensures EncodeUnsigned(v) == EncodeInt(v)
  {
    UnsignedContent(v);
    IntContent(v);
    NonRedundantUnique(EncodeUnsigned(v), EncodeInt(v));
  }

  lemma UnsignedSize(v: nat, width: nat)
    requires width >= 1 && v < Pow256(width)
    ensures |EncodeUnsigned(v)| <= width + 1
  {
    ByteCountLeast(v, width);
  }

  /** A width that holds v decodes it back; a narrower one refuses it. */
  lemma UnsignedRoundTrip(v: nat, width: nat)
    requires width >= 1
    ensures DecodeUnsigned(EncodeUnsigned(v), width) == if v < Pow256(width) then Ok(v) else Err
  {
    ByteCountLeast(v, width);
    if v == 0 {
      assert [0][..0] == [];
    } else {
      var m := Fixed(v, ByteCount(v));
      OctetsOf(v, ByteCount(v));
      PaddedRead(m, width);
    }
  }

  lemma PaddedRead(m: seq<Byte>, width: nat)
    requires m != [] && m[0] != 0
    ensures DecodeUnsigned(if m[0] >= 128 then [0] + m else m, width) == if |m| <= width then Ok(ToNat(m)) else Err
  {
    assert ([0] + m)[1..] == m;
  }

  /** A decoded unsigned value re-encodes in no more octets than it was read from. */
  lemma UnsignedNormalises(data: seq<Byte>, width: nat)
    requires width >= 1
    requires DecodeUnsigned(data, width).Ok?
    ensures DecodeUnsigned(data, width).value < Pow256(width)
    ensures |EncodeUnsigned(DecodeUnsigned(data, width).value)| <= |data|
  {
    var v := DecodeUnsigned(data, width).value;
    var body := if data[0] == 0 && |data| > 1 then data[1..] else data;
    ToNatBound(body);
    Pow256Monotone(|body|, width);
    assert data == [data[0]] + data[1..];
    ToNatCons(data[0], data[1..]);
    UnsignedContent(v);
    NonRedundantIsShortest(EncodeUnsigned(v), data);
  }
}
