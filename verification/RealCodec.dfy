/**
 ASN.1 REAL contents (X.690 section 8.5, binary base-2 form) of IEEE 754
 doubles, internal/pdu/data.go. A double is its sign, exponent field and
 fraction field; conversions and products round to nearest, ties to even.
 */
module RealCodec {
  import opened Bytes
  import opened Integers
  import opened Results

  const HIDDEN_BIT := 0x10_0000_0000_0000
  const MIN_EXPONENT: int := -1074

  type Field11 = f: int | 0 <= f < 2048
  type Field52 = f: int | 0 <= f < HIDDEN_BIT

  datatype Double = Double(negative: bool, exponent: Field11, fraction: Field52) {
    predicate IsZero() {
      exponent == 0 && fraction == 0
    }

    predicate IsNaN() {
      exponent == 2047 && fraction != 0
    }

    predicate IsFiniteNonZero() {
      exponent != 2047 && !IsZero()
    }
  }

  /** (-1)^negative * mantissa * 2^exponent. */
  datatype Numeral = Numeral(negative: bool, mantissa: nat, exponent: int)

  /** What math.NaN returns. */
  const QUIET_NAN := Double(false, 2047, 0x8_0000_0000_0001)

  /** The sign of the NaN that 0 * Inf gives depends on the machine. */
  const INVALID_NEGATIVE: bool

  /** What 0 * Inf gives. */
  const INVALID := Double(INVALID_NEGATIVE, 2047, 0x8_0000_0000_0000)

  const POSITIVE_INFINITY := Double(false, 2047, 0)
  const NEGATIVE_INFINITY := Double(true, 2047, 0)

  /** The integer mantissa and exponent of a finite double. */
  function Parts(d: Double): (n: Numeral)
    requires d.IsFiniteNonZero()
    ensures 0 < n.mantissa < 2 * HIDDEN_BIT
    ensures MIN_EXPONENT <= n.exponent <= 971
    ensures n.mantissa < HIDDEN_BIT ==> n.exponent == MIN_EXPONENT
  {
    if d.exponent == 0 then Numeral(d.negative, d.fraction, MIN_EXPONENT)
    else Numeral(d.negative, HIDDEN_BIT + d.fraction, d.exponent - 1075)
  }

  /** Moves factors of two from the mantissa to the exponent. */
  function Odd(n: Numeral): (r: Numeral)
    requires n.mantissa > 0
    ensures 0 < r.mantissa <= n.mantissa && r.mantissa % 2 == 1
    ensures r.exponent >= n.exponent && r.negative == n.negative
    decreases n.mantissa
  {
    if n.mantissa % 2 == 0 then Odd(Numeral(n.negative, n.mantissa / 2, n.exponent + 1)) else n
  }

  function EncodeNumeral(n: Numeral): (bs: seq<Byte>)
    requires n.mantissa > 0
    requires MIN_INT64 <= n.exponent <= MAX_INT64
  {
    var e := EncodeInt(n.exponent);
    var sign := if n.negative then 0xc0 else 0x80;
    var header := if |e| <= 3 then [sign + |e| - 1] else [sign + 3, |e|];
    header + e + Fixed(n.mantissa, ByteCount(n.mantissa))
  }

  lemma OddExponent(d: Double)
    requires d.IsFiniteNonZero()
    ensures MIN_EXPONENT <= Odd(Parts(d)).exponent <= 1023
  {
    Pow2Hidden();
    OddBound(Parts(d), 53);
  }

  function EncodeReal(d: Double): (bs: seq<Byte>)
  {
    if d.IsZero() then (if d.negative then [0x43] else [])
    else if d == POSITIVE_INFINITY then [0x40]
    else if d == NEGATIVE_INFINITY then [0x41]
    else if d.IsNaN() then [0x42]
    else
      OddExponent(d);
      EncodeNumeral(Odd(Parts(d)))
  }

  /** The binary form: base 2, 8 or 16, a scaling factor, then exponent and mantissa octets. */
  function DecodeNumeral(content: seq<Byte>): (r: Result<Numeral>)
    requires content != []
    ensures r.Ok? ==> content[0] >= 128 && r.value.mantissa <= MAX_UINT64
  {
    var info := content[0];
    var base := (info / 16) % 4;
    if info < 128 || base == 3 then Err
    else
      var shift := if base == 0 then 1 else if base == 1 then 3 else 4;
      var scaling := (info / 4) % 4;
      var form := info % 4;
      if form == 3 && |content| < 2 then Err
      else
        var expLen := if form == 3 then content[1] else form + 1;
        var offset := if form == 3 then 2 else 1;
        if offset + expLen > |content| then Err
        else
          var exp :- DecodeSigned(content[offset..offset + expLen], 8);
          var m := content[offset + expLen..];
          if m == [] || |m| > 8 then Err
          else
            MantissaFits(m);
            Ok(Numeral(info >= 0xc0, ToNat(m), Wrap64(scaling + exp * shift)))
  }

  /** int64 arithmetic wraps around. */
  function Wrap64(n: int): Int64 {
    (n + 0x8000_0000_0000_0000) % 0x1_0000_0000_0000_0000 - 0x8000_0000_0000_0000
  }

  lemma WrapStands(n: Int64)
    ensures Wrap64(n) == n
  {
  }

  lemma MantissaFits(m: seq<Byte>)
    requires |m| <= 8
    ensures ToNat(m) <= MAX_UINT64
  {
    ToNatBound(m);
    Pow256Values();
    Pow256Monotone(|m|, 8);
  }

  // ----- rounding

  function BitLen(m: nat): nat {
    if m == 0 then 0 else 1 + BitLen(m / 2)
  }

  /** m / p to the nearest integer, ties to even. */
  function NearestEven(m: nat, p: nat): (r: nat)
    requires p > 0
  {
    var d, rest := m / p, m % p;
    if 2 * rest < p || (2 * rest == p && d % 2 == 0) then d else d + 1
  }

  /** The exponent of the last place of the double nearest to n. */
  function LastPlace(n: Numeral): (q: int)
    ensures q >= MIN_EXPONENT
  {
    var q := BitLen(n.mantissa) + n.exponent - 53;
    if q < MIN_EXPONENT then MIN_EXPONENT else q
  }

  /** n in units of its last place, rounded. */
  function Significand(n: Numeral): nat
  {
    var q := LastPlace(n);
    if q <= n.exponent then Shl(n.mantissa, n.exponent - q) else NearestEven(n.mantissa, Pow2(q - n.exponent))
  }

  /** The double k * 2^q: infinite above the range, with the hidden bit moved up when rounding filled it. */
  function Pack(negative: bool, k: nat, q: int): Double
    requires q >= MIN_EXPONENT
    decreases k
  {
    if k >= 2 * HIDDEN_BIT then Pack(negative, k / 2, q + 1)
    else if k < HIDDEN_BIT then Double(negative, 0, k)
    else if q > 971 then Double(negative, 2047, 0)
    else Double(negative, q + 1075, k - HIDDEN_BIT)
  }

  /** The double nearest to n, ties to even. */
  function Round(n: Numeral): Double
  {
    Pack(n.negative, Significand(n), LastPlace(n))
  }

  /** float64(m) * 2^e, both factors and the product rounded. */
  function Product(m: nat, e: int): (d: Double)
    requires m <= MAX_UINT64
  {
    if e > 1023 then (if m == 0 then INVALID else POSITIVE_INFINITY)
    else if e < MIN_EXPONENT || m == 0 then Double(false, 0, 0)
    else
      IntegerIsFinite(m);
      var factor := Parts(Round(Numeral(false, m, 0)));
      Round(Numeral(false, factor.mantissa, factor.exponent + e))
  }

  /** The product, with its sign changed for a negative REAL. */
  function Evaluate(n: Numeral): (d: Double)
    requires n.mantissa <= MAX_UINT64
  {
    var d := Product(n.mantissa, n.exponent);
    if n.negative then d.(negative := !d.negative) else d
  }

  function DecodeReal(content: seq<Byte>): (r: Result<Double>)
  {
    if content == [] then Ok(Double(false, 0, 0))
    else if content[0] == 0x40 then Ok(POSITIVE_INFINITY)
    else if content[0] == 0x41 then Ok(NEGATIVE_INFINITY)
    else if content[0] == 0x42 then Ok(QUIET_NAN)
    else if content[0] == 0x43 then Ok(Double(true, 0, 0))
    else
      var n :- DecodeNumeral(content);
      Ok(Evaluate(n))
  }

  /** The trailing-zero loop terminates with an odd mantissa. */
  method TrailingZeros(n: Numeral) returns (mantissa: nat, exponent: int)
    requires n.mantissa > 0
    ensures Numeral(n.negative, mantissa, exponent) == Odd(n)
    ensures mantissa % 2 == 1
  {
    mantissa, exponent := n.mantissa, n.exponent;
    while mantissa != 0 && mantissa % 2 == 0
      invariant mantissa > 0
      invariant Odd(Numeral(n.negative, mantissa, exponent)) == Odd(n)
      decreases mantissa
    {
      mantissa := mantissa / 2;
      exponent := exponent + 1;
    }
  }

  // ----- what a numeral denotes

  function Pow2(k: nat): (p: nat)
    ensures p >= 1
  {
    if k == 0 then 1 else 2 * Pow2(k - 1)
  }

  /** m * 2^s. */
  function Shl(m: nat, s: nat): (r: nat)
    ensures m > 0 ==> r > 0
  {
    if s == 0 then m else 2 * Shl(m, s - 1)
  }

  /** The number in units of the least double, 2^-1074. */
  function Units(n: Numeral): nat
    requires n.exponent >= MIN_EXPONENT
  {
    Shl(n.mantissa, n.exponent - MIN_EXPONENT)
  }

  lemma {:induction false} ShlMove(m: nat, s: nat)
    ensures Shl(2 * m, s) == Shl(m, s + 1)
  {
    if s > 0 {
      ShlMove(m, s - 1);
    }
  }

  lemma {:induction false} ShlLess(a: nat, b: nat, s: nat)
    ensures a < b ==> Shl(a, s) < Shl(b, s)
    ensures a <= b ==> Shl(a, s) <= Shl(b, s)
  {
    if s > 0 {
      ShlLess(a, b, s - 1);
    }
  }

  lemma {:induction false} ShlPow2(k: nat, s: nat)
    ensures Shl(Pow2(k), s) == Pow2(k + s)
  {
    if s > 0 {
      ShlPow2(k, s - 1);
    }
  }

  lemma {:induction false} Pow2Add(i: nat, j: nat)
    ensures Pow2(i + j) == Pow2(i) * Pow2(j)
  {
    if i > 0 {
      Pow2Add(i - 1, j);
      assert 2 * (Pow2(i - 1) * Pow2(j)) == Pow2(i) * Pow2(j);
    }
  }

  lemma Pow2Hidden()
    ensures Pow2(53) == 2 * HIDDEN_BIT
  {
    assert Pow2(4) == 16;
    Pow2Add(4, 4);
    Pow2Add(8, 4);
    assert Pow2(13) == 8192;
    Pow2Add(13, 13);
    Pow2Add(26, 26);
  }

  /** A mantissa below 2^k loses at most k-1 factors of two. */
  lemma {:induction false} OddBound(n: Numeral, k: nat)
    requires 0 < n.mantissa < Pow2(k)
    ensures Odd(n).exponent - n.exponent < k
    decreases k
  {
    if n.mantissa % 2 == 0 {
      OddBound(Numeral(n.negative, n.mantissa / 2, n.exponent + 1), k - 1);
    }
  }

  lemma {:induction false} OddKeepsNumber(n: Numeral)
    requires n.mantissa > 0 && n.exponent >= MIN_EXPONENT
    ensures Units(Odd(n)) == Units(n)
    decreases n.mantissa
  {
    if n.mantissa % 2 == 0 {
      var half := Numeral(n.negative, n.mantissa / 2, n.exponent + 1);
      OddKeepsNumber(half);
      ShlMove(half.mantissa, n.exponent - MIN_EXPONENT);
    }
  }

  // ----- rounding is exact on doubles

  lemma {:induction false} BitLenBounds(m: nat)
    requires m > 0
    ensures BitLen(m) > 0 && Pow2(BitLen(m) - 1) <= m < Pow2(BitLen(m))
  {
    if m > 1 {
      BitLenBounds(m / 2);
    }
  }

  lemma {:induction false} BitLenWithin(m: nat, k: nat)
    requires m < Pow2(k)
    ensures BitLen(m) <= k
  {
    if m > 0 {
      BitLenWithin(m / 2, k - 1);
    }
  }

  lemma NearestHalf(a: nat, p: nat)
    requires p > 0
    ensures NearestEven(2 * a, 2 * p) == NearestEven(a, p)
    ensures NearestEven(2 * a, 2) == a
  {
    DoubleDivision(a, p);
  }

  lemma DoubleDivision(a: nat, p: nat)
    requires p > 0
    ensures (2 * a) / (2 * p) == a / p && (2 * a) % (2 * p) == 2 * (a % p)
  {
    DivMod(a, p);
    DivMod(2 * a, 2 * p);
    DoubledParts(a, p, a / p, a % p);
    SameQuotient(2 * p, a / p, 2 * (a % p), (2 * a) / (2 * p), (2 * a) % (2 * p));
  }

  lemma DivMod(m: nat, p: nat)
    requires p > 0
    ensures m == p * (m / p) + m % p && 0 <= m % p < p && 0 <= m / p
  {
  }

  lemma DoubledParts(a: nat, p: nat, d: nat, r: nat)
    requires a == p * d + r
    ensures 2 * a == (2 * p) * d + 2 * r
  {
  }

  lemma SameQuotient(p: nat, d: nat, r: nat, e: nat, t: nat)
    requires p * d + r == p * e + t && r < p && t < p
    ensures d == e && r == t
  {
    if d < e {
      MulStep(p, d, e);
    } else if e < d {
      MulStep(p, e, d);
    }
  }

  lemma {:induction false} MulStep(p: nat, a: nat, b: nat)
    requires a < b
    ensures p * a + p <= p * b
    decreases b
  {
    if a + 1 < b {
      MulStep(p, a, b - 1);
    }
    assert p * b == p * (b - 1) + p;
  }

  /** Rounding looks at the number, not at how its factors of two are spread. */
  lemma RoundHalf(n: Numeral)
    requires n.mantissa > 0 && n.mantissa % 2 == 0
    ensures var half := Numeral(n.negative, n.mantissa / 2, n.exponent + 1);
            LastPlace(half) == LastPlace(n) && Significand(half) == Significand(n)
  {
    var q, a := LastPlace(n), n.mantissa / 2;
    if q <= n.exponent {
      ShlMove(a, n.exponent - q);
    } else {
      NearestHalf(a, Pow2(q - n.exponent - 1));
    }
  }

  lemma {:induction false} RoundOdd(n: Numeral)
    requires n.mantissa > 0
    ensures LastPlace(Odd(n)) == LastPlace(n) && Significand(Odd(n)) == Significand(n)
    decreases n.mantissa
  {
    if n.mantissa % 2 == 0 {
      RoundHalf(n);
      RoundOdd(Numeral(n.negative, n.mantissa / 2, n.exponent + 1));
    }
  }

  /** A mantissa that fits is kept as it is. */
  lemma PartsStand(n: Numeral)
    requires 0 < n.mantissa < 2 * HIDDEN_BIT && n.exponent >= MIN_EXPONENT
    requires n.mantissa < HIDDEN_BIT ==> n.exponent == MIN_EXPONENT
    ensures LastPlace(n) == n.exponent && Significand(n) == n.mantissa
  {
    hide BitLen;
    Pow2Hidden();
    BitLenWithin(n.mantissa, 53);
    BitLenBounds(n.mantissa);
    if n.mantissa >= HIDDEN_BIT && BitLen(n.mantissa) < 53 {
      Pow2Monotone(BitLen(n.mantissa), 52);
    }
  }

  lemma {:induction false} Pow2Monotone(i: nat, j: nat)
    requires i <= j
    ensures Pow2(i) <= Pow2(j)
    decreases j
  {
    if i < j {
      Pow2Monotone(i, j - 1);
    }
  }

  /** Whatever numeral denotes a double, it is rounded to that double. */
  lemma RoundExact(n: Numeral, d: Double)
    requires n.mantissa > 0 && d.IsFiniteNonZero() && Odd(n) == Odd(Parts(d))
    ensures Round(n) == d
  {
    hide LastPlace, Significand, Odd;
    OddSign(n);
    OddSign(Parts(d));
    RoundOdd(n);
    RoundOdd(Parts(d));
    PartsStand(Parts(d));
  }

  lemma {:induction false} OddSign(n: Numeral)
    requires n.mantissa > 0
    ensures Odd(n).negative == n.negative
  {
  }

  /** float64 of a positive 64-bit integer. */
  lemma IntegerIsFinite(m: nat)
    requires 0 < m <= MAX_UINT64
    ensures Round(Numeral(false, m, 0)).IsFiniteNonZero()
  {
    hide BitLen, NearestEven, Pow2;
    var n := Numeral(false, m, 0);
    Pow2Large();
    BitLenWithin(m, 64);
    BitLenBounds(m);
    var q := LastPlace(n);
    if q > 0 {
      NearestBounds(m, q);
    } else {
      ShlPow2(BitLen(m), 0 - q);
      ShlLess(m, Pow2(BitLen(m)), 0 - q);
      Pow2Monotone(53, 65);
    }
    PackFinite(Significand(n), q, 12);
  }

  lemma Pow2Large()
    ensures Pow2(64) == 0x1_0000_0000_0000_0000 && Pow2(65) == 0x2_0000_0000_0000_0000
  {
    Pow2Hidden();
    assert Pow2(11) == 2048;
    Pow2Add(53, 11);
  }

  /** A 64-bit integer rounded at a place within it. */
  lemma NearestBounds(m: nat, q: nat)
    requires 0 < m <= MAX_UINT64 && q == BitLen(m) - 53 > 0
    ensures 0 < NearestEven(m, Pow2(q)) < Pow2(65)
  {
    hide BitLen, Pow2;
    Pow2Large();
    BitLenBounds(m);
    Pow2Monotone(q, BitLen(m) - 1);
    QuotientBounds(m, Pow2(q));
  }

  lemma QuotientBounds(m: nat, p: nat)
    requires 0 < p <= m
    ensures 0 < m / p <= m
  {
    DivMod(m, p);
    if m / p > m {
      MulStep(p, m, m / p);
    }
  }

  lemma {:induction false} PackFinite(k: nat, q: int, j: nat)
    requires 0 < k < Pow2(53 + j) && MIN_EXPONENT <= q && q + j <= 971
    ensures Pack(false, k, q).IsFiniteNonZero()
    decreases j
  {
    Pow2Hidden();
    if k >= 2 * HIDDEN_BIT {
      PackFinite(k / 2, q + 1, j - 1);
    }
  }

  // ----- rounding is to the nearest

  /** Off by at most half a unit, and even where it is exactly half. */
  lemma NearestIsNearest(m: nat, p: nat)
    requires p > 0
    ensures var r := NearestEven(m, p);
            && 2 * m - p <= 2 * (p * r) <= 2 * m + p
            && (2 * (p * r) == 2 * m - p || 2 * (p * r) == 2 * m + p ==> r % 2 == 0)
  {
    DivMod(m, p);
    var d := m / p;
    assert p * (d + 1) == p * d + p;
  }

  lemma QuotientWithin(m: nat, p: nat, b: nat)
    requires p > 0
    ensures m < p * b ==> m / p < b
    ensures p * b <= m ==> b <= m / p
  {
    DivMod(m, p);
    if b < m / p {
      MulStep(p, b, m / p);
    } else if m / p < b {
      MulStep(p, m / p, b);
    }
  }

  /** The significand has 53 bits, fewer only at the least exponent, and is off by at most half a unit of its last place. */
  lemma RoundIsNearest(n: Numeral)
    requires n.mantissa > 0
    ensures var k, q := Significand(n), LastPlace(n);
            && k <= 2 * HIDDEN_BIT && (k < HIDDEN_BIT ==> q == MIN_EXPONENT)
            && (q > n.exponent ==>
                  var p := Pow2(q - n.exponent);
                  && 2 * n.mantissa - p <= 2 * (p * k) <= 2 * n.mantissa + p
                  && (2 * (p * k) == 2 * n.mantissa - p || 2 * (p * k) == 2 * n.mantissa + p ==> k % 2 == 0))
  {
    hide BitLen, Pow2, NearestEven;
    var q := LastPlace(n);
    if q <= n.exponent {
      ExactBits(n.mantissa, n.exponent - q);
    } else {
      RoundedBits(n.mantissa, q - n.exponent);
      NearestIsNearest(n.mantissa, Pow2(q - n.exponent));
    }
  }

  lemma ExactBits(m: nat, s: nat)
    requires m > 0 && BitLen(m) + s <= 53
    ensures Shl(m, s) < 2 * HIDDEN_BIT
    ensures BitLen(m) + s == 53 ==> Shl(m, s) >= HIDDEN_BIT
  {
    hide BitLen, Pow2, Shl;
    var l := BitLen(m);
    Pow2Hidden();
    Pow2Half();
    BitLenBounds(m);
    ShlLess(m, Pow2(l), s);
    ShlLess(Pow2(l - 1), m, s);
    ShlPow2(l, s);
    ShlPow2(l - 1, s);
    Pow2Monotone(l + s, 53);
  }

  lemma RoundedBits(m: nat, s: nat)
    requires m > 0 && s > 0 && BitLen(m) <= 53 + s
    ensures NearestEven(m, Pow2(s)) <= 2 * HIDDEN_BIT
    ensures BitLen(m) == 53 + s ==> NearestEven(m, Pow2(s)) >= HIDDEN_BIT
  {
    hide BitLen, Pow2;
    Pow2Hidden();
    Pow2Half();
    BitLenBounds(m);
    Pow2Monotone(BitLen(m), 53 + s);
    Pow2Add(s, 53);
    Pow2Add(s, 52);
    QuotientWithin(m, Pow2(s), 2 * HIDDEN_BIT);
    QuotientWithin(m, Pow2(s), HIDDEN_BIT);
  }

  lemma Pow2Half()
    ensures Pow2(52) == HIDDEN_BIT
  {
    Pow2Hidden();
  }

  // ----- a REAL that denotes a double

  /** Signs and common exponents pass through the removal of factors of two. */
  lemma {:induction false} OddMove(n: Numeral, negative: bool, c: int)
    requires n.mantissa > 0
    ensures Odd(Numeral(negative, n.mantissa, n.exponent + c)) == Numeral(negative, Odd(n).mantissa, Odd(n).exponent + c)
    decreases n.mantissa
  {
    if n.mantissa % 2 == 0 {
      OddMove(Numeral(n.negative, n.mantissa / 2, n.exponent + 1), negative, c);
    }
  }

  lemma {:induction false} OddScale(n: Numeral, i: nat)
    requires n.mantissa > 0
    ensures Odd(Numeral(n.negative, Shl(n.mantissa, i), n.exponent - i)) == Odd(n)
    decreases i
  {
    if i > 0 {
      OddScale(n, i - 1);
    }
  }

  /** The double with a given odd mantissa below 2^53, well inside the exponent range. */
  function SmallDouble(a: nat, j: nat): (d: Double)
    requires 0 < a < 2 * HIDDEN_BIT && j <= 64
    ensures d.IsFiniteNonZero() && Odd(Parts(d)) == Odd(Numeral(false, a, j))
  {
    Pow2Hidden();
    BitLenWithin(a, 53);
    var s := 53 - BitLen(a);
    ExactBits(a, s);
    OddScale(Numeral(false, a, j), s);
    Double(false, j - s + 1075, Shl(a, s) - HIDDEN_BIT)
  }

  /** A 64-bit integer whose odd part has 53 bits is converted exactly. */
  lemma IntegerExact(m: nat)
    requires 0 < m <= MAX_UINT64 && Odd(Numeral(false, m, 0)).mantissa < 2 * HIDDEN_BIT
    ensures Round(Numeral(false, m, 0)).IsFiniteNonZero()
    ensures Odd(Parts(Round(Numeral(false, m, 0)))) == Odd(Numeral(false, m, 0))
  {
    hide Round, Odd, Pow2;
    var n := Numeral(false, m, 0);
    var o := Odd(n);
    Pow2Large();
    OddBound(n, 64);
    OddSign(n);
    OddOfOdd(n);
    var d := SmallDouble(o.mantissa, o.exponent);
    RoundExact(n, d);
  }

  lemma {:induction false} OddOfOdd(n: Numeral)
    requires n.mantissa > 0
    ensures Odd(Odd(n)) == Odd(n)
    decreases n.mantissa
  {
    if n.mantissa % 2 == 0 {
      OddOfOdd(Numeral(n.negative, n.mantissa / 2, n.exponent + 1));
    }
  }

  lemma ProductExact(m: nat, e: int, d: Double)
    requires 0 < m <= MAX_UINT64 && MIN_EXPONENT <= e <= 1023
    requires d.IsFiniteNonZero() && !d.negative && Odd(Numeral(false, m, e)) == Odd(Parts(d))
    ensures Product(m, e) == d
  {
    hide Round, Odd, Parts;
    var n := Numeral(false, m, 0);
    OddMove(n, false, e);
    OddWithin(d);
    IntegerIsFinite(m);
    IntegerExact(m);
    var factor := Parts(Round(n));
    OddMove(factor, false, e);
    RoundExact(Numeral(false, factor.mantissa, factor.exponent + e), d);
  }

  lemma OddWithin(d: Double)
    requires d.IsFiniteNonZero()
    ensures Odd(Parts(d)).mantissa < 2 * HIDDEN_BIT
  {
  }

  /** A numeral that denotes a double is read as that double exactly when its own exponent is not below the range. */
  lemma EvaluateExact(n: Numeral, d: Double)
    requires 0 < n.mantissa <= MAX_UINT64 && d.IsFiniteNonZero() && Odd(n) == Odd(Parts(d))
    ensures Evaluate(n) == d <==> n.exponent >= MIN_EXPONENT
  {
    hide Odd, Parts, Product;
    SameMagnitude(n, d);
    if n.exponent >= MIN_EXPONENT {
      ProductExact(n.mantissa, n.exponent, Double(false, d.exponent, d.fraction));
    } else {
      ProductVanishes(n.mantissa, n.exponent);
    }
  }

  lemma SameMagnitude(n: Numeral, d: Double)
    requires n.mantissa > 0 && d.IsFiniteNonZero() && Odd(n) == Odd(Parts(d))
    ensures var plain := Double(false, d.exponent, d.fraction);
            plain.IsFiniteNonZero() && Odd(Numeral(false, n.mantissa, n.exponent)) == Odd(Parts(plain))
    ensures n.negative == d.negative && n.exponent <= 1023
  {
    hide Odd, Parts;
    OddSign(n);
    OddExponent(d);
    PlainParts(d);
    OddMove(n, false, 0);
    OddMove(Parts(d), false, 0);
    OddRises(n);
  }

  lemma PlainParts(d: Double)
    requires d.IsFiniteNonZero()
    ensures var plain := Double(false, d.exponent, d.fraction);
            plain.IsFiniteNonZero() && Parts(plain) == Numeral(false, Parts(d).mantissa, Parts(d).exponent + 0)
    ensures Parts(d).negative == d.negative
    ensures Odd(Parts(d)).negative == d.negative
  {
    OddSign(Parts(d));
  }

  lemma OddRises(n: Numeral)
    requires n.mantissa > 0
    ensures Odd(n).exponent >= n.exponent
  {
  }

  lemma ProductVanishes(m: nat, e: int)
    requires m <= MAX_UINT64 && e < MIN_EXPONENT
    ensures Product(m, e) == Double(false, 0, 0)
  {
  }

  // ----- the codec

  /** Reading one information octet in base 2 without scaling, then a one or two octet exponent. */
  lemma ReadNumeral(bs: seq<Byte>, negative: bool, k: nat)
    requires 1 <= k <= 2 && 1 <= |bs| - 1 - k <= 8
    requires bs[0] == (if negative then 0xc0 else 0x80) + k - 1
    ensures DecodeNumeral(bs) == Ok(Numeral(negative, ToNat(bs[1 + k..]), Signed(bs[1..1 + k])))
  {
    assert bs[0] % 4 == k - 1 && (bs[0] / 4) % 4 == 0 && (bs[0] / 16) % 4 == 0;
    Pow256Values();
    SignedWithin(bs[1..1 + k], 2);
    WrapStands(Signed(bs[1..1 + k]));
  }

  /** Exponent and mantissa of any numeral with a mantissa of at most 64 bits are read back exactly. */
  lemma NumeralRoundTrip(n: Numeral)
    requires 0 < n.mantissa <= MAX_UINT64
    requires -0x8000 <= n.exponent < 0x8000
    ensures DecodeNumeral(EncodeNumeral(n)) == Ok(n)
    ensures EncodeNumeral(n) != [] && EncodeNumeral(n)[0] >= 128
  {
    Pow256Values();
    IntWidth(n.exponent, 2);
    IntContent(n.exponent);
    ByteCountLeast(n.mantissa, 8);
    OctetsOf(n.mantissa, ByteCount(n.mantissa));
    NumeralLayout(n);
    ReadNumeral(EncodeNumeral(n), n.negative, |EncodeInt(n.exponent)|);
  }

  lemma NumeralLayout(n: Numeral)
    requires n.mantissa > 0
    requires MIN_INT64 <= n.exponent <= MAX_INT64
    requires |EncodeInt(n.exponent)| <= 2
    ensures var k, bs := |EncodeInt(n.exponent)|, EncodeNumeral(n);
            && |bs| == 1 + k + ByteCount(n.mantissa)
            && bs[0] == (if n.negative then 0xc0 else 0x80) + k - 1
            && bs[1..1 + k] == EncodeInt(n.exponent)
            && bs[1 + k..] == Fixed(n.mantissa, ByteCount(n.mantissa))
  {
    var e := EncodeInt(n.exponent);
    var m := Fixed(n.mantissa, ByteCount(n.mantissa));
    assert EncodeNumeral(n) == [(if n.negative then 0xc0 else 0x80) + |e| - 1] + e + m;
  }

  /** Every finite non-zero double, subnormals included, is decoded to exactly its number, with an odd mantissa. */
  lemma RealDenotes(d: Double)
    requires d.IsFiniteNonZero()
    ensures DecodeNumeral(EncodeReal(d)).Ok?
    ensures var n := DecodeNumeral(EncodeReal(d)).value;
            && n.mantissa % 2 == 1
            && n.negative == d.negative
            && n.exponent >= MIN_EXPONENT
            && Units(n) == Units(Parts(d))
  {
    OddExponent(d);
    NumeralRoundTrip(Odd(Parts(d)));
    OddKeepsNumber(Parts(d));
  }

  /** A double comes back as itself unless it is a NaN other than the one math.NaN returns. */
  lemma RealRoundTrip(d: Double)
    ensures DecodeReal(EncodeReal(d)) == Ok(d) <==> (!d.IsNaN() || d == QUIET_NAN)
    ensures d.IsNaN() ==> DecodeReal(EncodeReal(d)) == Ok(QUIET_NAN)
  {
    hide EncodeNumeral, DecodeNumeral, Evaluate, Odd, Parts;
    if d.IsFiniteNonZero() {
      var n := Odd(Parts(d));
      OddExponent(d);
      NumeralRoundTrip(n);
      OddOfOdd(Parts(d));
      EvaluateExact(n, d);
    }
  }

  /** Distinct doubles (one NaN) have distinct contents. */
  lemma RealInjective(c: Double, d: Double)
    requires EncodeReal(c) == EncodeReal(d)
    requires !c.IsNaN() && !d.IsNaN()
    ensures c == d
  {
    RealRoundTrip(c);
    RealRoundTrip(d);
  }

  /** A content has at most ten octets. */
  lemma RealSize(d: Double)
    ensures |EncodeReal(d)| <= 10
  {
    if d.IsFiniteNonZero() {
      OddExponent(d);
      Pow256Values();
      var n := Odd(Parts(d));
      IntWidth(n.exponent, 2);
      ByteCountLeast(n.mantissa, 7);
      NumeralLayout(n);
    }
  }

  // ----- what decoding can return

  lemma {:induction false} PackIsNumber(negative: bool, k: nat, q: int)
    requires q >= MIN_EXPONENT
    ensures !Pack(negative, k, q).IsNaN()
    decreases k
  {
    if k >= 2 * HIDDEN_BIT {
      PackIsNumber(negative, k / 2, q + 1);
    }
  }

  /** Octets decode to a NaN the encoder cannot write exactly when they multiply zero by an infinite power. */
  lemma RealLost(content: seq<Byte>)
    requires DecodeReal(content).Ok?
    ensures var d := DecodeReal(content).value;
            (d.IsNaN() && d != QUIET_NAN) <==>
            (content != [] && DecodeNumeral(content).Ok?
             && DecodeNumeral(content).value.mantissa == 0 && DecodeNumeral(content).value.exponent > 1023)
  {
    hide DecodeNumeral, Round;
    if content != [] && DecodeNumeral(content).Ok? {
      var n := DecodeNumeral(content).value;
      ProductIsNumber(n.mantissa, n.exponent);
    }
  }

  lemma ProductIsNumber(m: nat, e: int)
    requires m <= MAX_UINT64
    ensures Product(m, e).IsNaN() <==> m == 0 && e > 1023
    ensures m == 0 && e > 1023 ==> Product(m, e) == INVALID
  {
    hide Pack, Significand, LastPlace;
    if m > 0 && MIN_EXPONENT <= e <= 1023 {
      IntegerIsFinite(m);
      var factor := Parts(Round(Numeral(false, m, 0)));
      var n := Numeral(false, factor.mantissa, factor.exponent + e);
      PackIsNumber(false, Significand(n), LastPlace(n));
    }
  }

  // ----- what rounding gives

  lemma {:induction false} PackSign(k: nat, q: int)
    requires q >= MIN_EXPONENT
    ensures Pack(true, k, q) == Pack(false, k, q).(negative := true) && !Pack(false, k, q).negative
    decreases k
  {
    if k >= 2 * HIDDEN_BIT {
      PackSign(k / 2, q + 1);
    }
  }

  /** A significand at its last place is zero, the double of that number, or infinite from 2^1024 on. */
  lemma PackDenotes(negative: bool, k: nat, q: int)
    requires k <= 2 * HIDDEN_BIT && q >= MIN_EXPONENT && (k < HIDDEN_BIT ==> q == MIN_EXPONENT)
    ensures var d := Pack(negative, k, q);
            && d.negative == negative
            && (d.IsZero() <==> k == 0)
            && (d == Double(negative, 2047, 0) <==> q > 971 || (q == 971 && k == 2 * HIDDEN_BIT))
            && (d.IsFiniteNonZero() <==> k > 0 && !(q > 971 || (q == 971 && k == 2 * HIDDEN_BIT)))
            && (d.IsFiniteNonZero() ==> Units(Parts(d)) == Shl(k, q - MIN_EXPONENT))
  {
    if k == 2 * HIDDEN_BIT {
      assert k / 2 == HIDDEN_BIT;
      assert Pack(negative, k, q) == Pack(negative, HIDDEN_BIT, q + 1);
      ShlMove(HIDDEN_BIT, q - MIN_EXPONENT);
    }
  }

  /** Numerals with the same odd part round alike. */
  lemma SameRound(a: Numeral, b: Numeral)
    requires a.mantissa > 0 && b.mantissa > 0 && Odd(a) == Odd(b)
    ensures Round(a) == Round(b)
  {
    hide LastPlace, Significand, Odd;
    OddSign(a);
    OddSign(b);
    RoundOdd(a);
    RoundOdd(b);
  }

  lemma RoundSign(m: nat, e: int)
    ensures Round(Numeral(true, m, e)) == Round(Numeral(false, m, e)).(negative := true)
    ensures !Round(Numeral(false, m, e)).negative
  {
    hide Pack;
    PackSign(Significand(Numeral(false, m, e)), LastPlace(Numeral(false, m, e)));
  }

  /** Where the mantissa needs no rounding of its own, the product is rounded once. */
  lemma ProductRoundsOnce(m: nat, e: int)
    requires 0 < m <= MAX_UINT64 && MIN_EXPONENT <= e <= 1023 && Odd(Numeral(false, m, 0)).mantissa < 2 * HIDDEN_BIT
    ensures Product(m, e) == Round(Numeral(false, m, e))
  {
    hide Round, Odd, Parts;
    var n := Numeral(false, m, 0);
    IntegerIsFinite(m);
    IntegerExact(m);
    var factor := Parts(Round(n));
    OddMove(n, false, e);
    OddMove(factor, false, e);
    SameRound(Numeral(false, factor.mantissa, factor.exponent + e), Numeral(false, m, e));
  }

  /**
   What a received numeral is read as, for every numeral: the nearest double of its own sign where the
   mantissa has 53 significant bits, zero below the range of exponents, infinite above it.
   */
  lemma EvaluateMeaning(n: Numeral)
    requires n.mantissa <= MAX_UINT64
    ensures n.exponent < MIN_EXPONENT || (n.mantissa == 0 && n.exponent <= 1023) ==> Evaluate(n) == Double(n.negative, 0, 0)
    ensures n.exponent > 1023 && n.mantissa > 0 ==> Evaluate(n) == Double(n.negative, 2047, 0)
    ensures n.exponent > 1023 && n.mantissa == 0 ==> Evaluate(n).IsNaN()
    ensures n.mantissa > 0 && MIN_EXPONENT <= n.exponent <= 1023 && Odd(Numeral(false, n.mantissa, 0)).mantissa < 2 * HIDDEN_BIT ==>
              Evaluate(n) == Round(n)
  {
    hide Round, Odd;
    if n.mantissa > 0 && MIN_EXPONENT <= n.exponent <= 1023 && Odd(Numeral(false, n.mantissa, 0)).mantissa < 2 * HIDDEN_BIT {
      ProductRoundsOnce(n.mantissa, n.exponent);
      RoundSign(n.mantissa, n.exponent);
    }
  }

  /** A longer mantissa is rounded to 53 bits first, and the scaled result again. */
  lemma EvaluateTwice(n: Numeral)
    requires 0 < n.mantissa <= MAX_UINT64 && MIN_EXPONENT <= n.exponent <= 1023
    ensures var whole := Numeral(false, n.mantissa, 0);
            var k, q := Significand(whole), LastPlace(whole);
            && 0 < k && k <= 2 * HIDDEN_BIT && q >= -1074
            && Evaluate(n) == Round(Numeral(n.negative, k, q + n.exponent))
  {
    hide Round, Odd, Significand, LastPlace, Parts;
    var whole := Numeral(false, n.mantissa, 0);
    IntegerIsFinite(n.mantissa);
    RoundIsNearest(whole);
    WholeParts(whole);
    var factor := Parts(Round(whole));
    var k, q := Significand(whole), LastPlace(whole);
    OddMove(factor, false, n.exponent);
    OddMove(Numeral(false, k, q), false, n.exponent);
    SameRound(Numeral(false, factor.mantissa, factor.exponent + n.exponent), Numeral(false, k, q + n.exponent));
    RoundSign(k, q + n.exponent);
  }

  lemma WholeParts(n: Numeral)
    requires !n.negative && n.mantissa > 0 && Round(n).IsFiniteNonZero()
    ensures Significand(n) > 0
    ensures Odd(Parts(Round(n))) == Odd(Numeral(false, Significand(n), LastPlace(n)))
  {
    hide Significand, LastPlace, Odd;
    RoundIsNearest(n);
    PackOdd(Significand(n), LastPlace(n));
  }

  lemma {:induction false} PackOdd(k: nat, q: int)
    requires q >= MIN_EXPONENT && k <= 2 * HIDDEN_BIT && Pack(false, k, q).IsFiniteNonZero()
    requires k < HIDDEN_BIT ==> q == MIN_EXPONENT
    ensures k > 0 && Odd(Parts(Pack(false, k, q))) == Odd(Numeral(false, k, q))
  {
    if k == 2 * HIDDEN_BIT {
      assert k / 2 == HIDDEN_BIT;
      assert Pack(false, k, q) == Pack(false, HIDDEN_BIT, q + 1);
      assert Odd(Numeral(false, k, q)) == Odd(Numeral(false, HIDDEN_BIT, q + 1));
    }
  }
}
