/**
 What octets mean, for every content a decoder accepts and not only for those
 the encoders write (internal/berutil/berutil.go, internal/pdu/data.go). The
 readings are given by place value, as the Basic Encoding Rules do, and not by
 the loops of the code.
 */
module Meaning {
  import opened Bytes
  import opened Results
  import opened Ber
  import opened Integers
  import opened Oid
  import opened Times
  import opened RealCodec

  // ----- numbers

  /** The sum of the octets by place value, the first one the most significant. */
  function Place(bs: seq<Byte>): nat
  {
    if bs == [] then 0 else bs[0] * Pow256(|bs| - 1) + Place(bs[1..])
  }

  lemma {:induction false} PlaceValue(bs: seq<Byte>)
    ensures ToNat(bs) == Place(bs)
  {
    if bs != [] {
      PlaceValue(bs[1..]);
      ToNatCons(bs[0], bs[1..]);
      assert bs == [bs[0]] + bs[1..];
    }
  }

  /** Two's complement: congruent to the place value modulo 256^n, and in the range that is symmetric but for one. */
  ghost predicate TwosComplement(bs: seq<Byte>, v: int) {
    && (v == Place(bs) || v == Place(bs) - Pow256(|bs|))
    && 0 - Pow256(|bs|) <= 2 * v < Pow256(|bs|)
  }

  /** A signed content of every accepted length denotes its two's complement value. */
  lemma SignedMeaning(data: seq<Byte>, width: nat)
    ensures DecodeSigned(data, width).Ok? <==> 1 <= |data| <= width
    ensures DecodeSigned(data, width).Ok? ==> TwosComplement(data, DecodeSigned(data, width).value)
  {
    if 1 <= |data| <= width {
      PlaceValue(data);
      SignedRange(data);
    }
  }

  lemma ZeroInFront(bs: seq<Byte>)
    requires bs != [] && bs[0] == 0
    ensures Place(bs) == Place(bs[1..])
  {
    assert bs[0] * Pow256(|bs| - 1) == 0;
  }

  /** An unsigned content, padded with one zero or not, denotes its place value; a set top bit is refused. */
  lemma UnsignedMeaning(data: seq<Byte>, width: nat)
    ensures DecodeUnsigned(data, width).Ok? <==>
            && data != [] && data[0] < 128
            && (|data| <= width || (data[0] == 0 && |data| == width + 1 && width > 0))
    ensures DecodeUnsigned(data, width).Ok? ==> DecodeUnsigned(data, width).value == Place(data)
  {
    hide ToNat;
    if data != [] {
      PlaceValue(data);
      PlaceValue(data[1..]);
      if data[0] == 0 {
        ZeroInFront(data);
      }
    }
  }

  // ----- lengths and elements

  /** One octet below 128 is its own length. */
  lemma ShortLength(b: Byte, rest: seq<Byte>)
    requires b < 128
    ensures DecodeLength([b] + rest) == Ok(Length(b, 1))
  {
  }

  lemma LowBits(b: Byte)
    requires b >= 128
    ensures b % 128 == b - 128
  {
  }

  lemma LongLengthAt(data: seq<Byte>, k: nat)
    requires k < 128 && |data| > k && data[0] == 0x80 + k
    ensures DecodeLength(data) == if 1 <= k <= 3 then Ok(Length(Place(data[1..1 + k]), 1 + k)) else Err
  {
    hide ToNat, Place;
    LowBits(data[0]);
    PlaceValue(data[1..1 + k]);
  }

  /** One to three length octets denote their place value, minimal or not; no other count is taken. */
  lemma LongLength(octets: seq<Byte>, rest: seq<Byte>)
    requires |octets| < 128
    ensures DecodeLength([0x80 + |octets|] + octets + rest) ==
            if 1 <= |octets| <= 3 then Ok(Length(Place(octets), 1 + |octets|)) else Err
  {
    hide DecodeLength, Place;
    HeadAndTail(0x80 + |octets|, octets, rest);
    LongLengthAt([0x80 + |octets|] + octets + rest, |octets|);
  }

  lemma HeadAndTail(b: Byte, octets: seq<Byte>, rest: seq<Byte>)
    ensures var data := [b] + octets + rest;
            |data| == 1 + |octets| + |rest| && data[0] == b && data[1..1 + |octets|] == octets
  {
  }

  /** The length octets of a content of n octets in any form the decoder takes. */
  predicate LengthForm(form: seq<Byte>, n: nat) {
    || (n < 128 && form == [n])
    || (2 <= |form| <= 4 && form[0] == 0x80 + |form| - 1 && Place(form[1..]) == n)
  }

  lemma FormRead(form: seq<Byte>, n: nat, rest: seq<Byte>)
    requires LengthForm(form, n)
    ensures DecodeLength(form + rest) == Ok(Length(n, |form|))
  {
    if n < 128 && form == [n] {
      ShortLength(n, rest);
    } else {
      LongLength(form[1..], rest);
      assert form == [0x80 + |form[1..]|] + form[1..];
    }
  }

  /** An element is its identifier octet, its length in any form, and exactly that many octets. */
  lemma ElementMeaning(tag: Byte, form: seq<Byte>, content: seq<Byte>, rest: seq<Byte>)
    requires LengthForm(form, |content|)
    ensures DecodeTLV([tag] + form + content + rest) == Ok(Tlv(tag, content, 1 + |form| + |content|))
  {
    hide DecodeLength;
    var data := [tag] + form + content + rest;
    FormRead(form, |content|, content + rest);
    assert data[1..] == form + (content + rest);
    assert data[1 + |form|..1 + |form| + |content|] == content;
  }

  /** An element cut short is refused. */
  lemma ElementCut(tag: Byte, form: seq<Byte>, n: nat, content: seq<Byte>)
    requires LengthForm(form, n) && |content| < n
    ensures DecodeTLV([tag] + form + content) == Err
  {
    hide DecodeLength;
    FormRead(form, n, content);
    assert ([tag] + form + content)[1..] == form + content;
  }

  /** One element in some form of its length. */
  function El(tag: Byte, form: seq<Byte>, content: seq<Byte>): seq<Byte> {
    [tag] + form + content
  }

  /** A field is read off the front if it has the expected tag, and refused otherwise. */
  lemma FieldMeaning(tag: Byte, form: seq<Byte>, content: seq<Byte>, rest: seq<Byte>, expected: Byte)
    requires LengthForm(form, |content|)
    ensures ReadField(El(tag, form, content) + rest, expected) == if tag == expected then Ok(Field(content, rest)) else Err
  {
    hide DecodeTLV, LengthForm;
    ElementMeaning(tag, form, content, rest);
    assert (El(tag, form, content) + rest)[1 + |form| + |content|..] == rest;
  }

  lemma ElHead(tag: Byte, form: seq<Byte>, content: seq<Byte>, rest: seq<Byte>)
    ensures El(tag, form, content) + rest != [] && (El(tag, form, content) + rest)[0] == tag
    ensures |El(tag, form, content)| == 1 + |form| + |content|
  {
  }

  lemma LastField(tag: Byte, form: seq<Byte>, content: seq<Byte>)
    requires LengthForm(form, |content|)
    ensures ReadField(El(tag, form, content), tag) == Ok(Field(content, []))
  {
    hide ReadField, LengthForm;
    FieldMeaning(tag, form, content, [], tag);
    assert El(tag, form, content) + [] == El(tag, form, content);
  }

  // ----- object identifiers

  /** v moved up by k groups. */
  function Shifted(v: nat, k: nat): nat {
    v * Pow128(k)
  }

  /** Seven bits an octet, by place value. */
  function Place128(bs: seq<Byte>): nat
  {
    if bs == [] then 0 else Shifted(bs[0] % 128, |bs| - 1) + Place128(bs[1..])
  }

  lemma {:induction false} ScanMeaning(groups: seq<Byte>, last: Byte, rest: seq<Byte>, v: nat, n: nat)
    requires last < 128 && n <= 5
    requires forall i :: 0 <= i < |groups| ==> groups[i] >= 128
    ensures Scan(groups + [last] + rest, v, n) ==
            if n + |groups| <= 5 then Ok(Group(Shifted(v, |groups| + 1) + Place128(groups + [last]), n + |groups| + 1)) else Err
    decreases |groups|
  {
    hide Pow128;
    var data := groups + [last] + rest;
    if groups == [] {
      LastGroup(v, last);
      assert groups + [last] == [last];
      assert data[0] == last;
    } else {
      assert data[1..] == groups[1..] + [last] + rest && data[0] == groups[0];
      if n + 1 <= 5 {
        ScanMeaning(groups[1..], last, rest, v * 128 + groups[0] % 128, n + 1);
        FirstGroup(groups, last, v);
      }
    }
  }

  lemma LastGroup(v: nat, last: Byte)
    requires last < 128
    ensures Shifted(v, 1) + Place128([last]) == v * 128 + last
  {
    assert [last][1..] == [];
    assert Pow128(1) == 128;
  }

  lemma FirstGroup(groups: seq<Byte>, last: Byte, v: nat)
    requires groups != []
    ensures Shifted(v * 128 + groups[0] % 128, |groups|) + Place128(groups[1..] + [last])
         == Shifted(v, |groups| + 1) + Place128(groups + [last])
  {
    hide Shifted, Place128;
    assert (groups + [last])[1..] == groups[1..] + [last];
    PlaceStep(groups + [last]);
    ShiftedSum(v, groups[0] % 128, |groups|);
  }

  lemma PlaceStep(bs: seq<Byte>)
    requires bs != []
    ensures Place128(bs) == Shifted(bs[0] % 128, |bs| - 1) + Place128(bs[1..])
  {
    hide Shifted;
  }

  lemma ShiftedSum(v: nat, d: nat, k: nat)
    ensures Shifted(v * 128 + d, k) == Shifted(v, k + 1) + Shifted(d, k)
  {
    MovedUp(v, d, Pow128(k));
  }

  lemma MovedUp(v: nat, d: nat, p: nat)
    ensures (v * 128 + d) * p == v * (128 * p) + d * p
  {
  }

  lemma ShiftedZero(k: nat)
    ensures Shifted(0, k) == 0
  {
  }

  /** A number is the base-128 value of its groups, leading zero groups included, in at most six groups. */
  lemma Base128Meaning(groups: seq<Byte>, last: Byte, rest: seq<Byte>)
    requires last < 128 && forall i :: 0 <= i < |groups| ==> groups[i] >= 128
    ensures DecodeBase128(groups + [last] + rest) ==
            if |groups| <= 5 then Ok(Group(Place128(groups + [last]), |groups| + 1)) else Err
  {
    hide Scan, Place128, Shifted;
    ScanMeaning(groups, last, rest, 0, 0);
    ShiftedZero(|groups| + 1);
  }

  /** The first subidentifier is 40 times the first arc plus the second, and the others are the other arcs. */
  lemma ArcsMeaning(data: seq<Byte>)
    requires DecodeOid(data).Ok?
    ensures DecodeArcs(data).Ok? && DecodeArcs(data).value != []
    ensures var ids, oid := DecodeArcs(data).value, DecodeOid(data).value;
            && |oid| == |ids| + 1 && 40 * oid[0] + oid[1] == ids[0]
            && 0 <= oid[0] <= 2 && 0 <= oid[1] && (oid[0] < 2 ==> oid[1] < 40)
            && oid[2..] == ids[1..]
  {
    var ids := DecodeArcs(data).value;
    assert Arcs(ids)[2..] == ids[1..];
  }

  // ----- times

  /** Four octets of seconds since 1970, three of a binary fraction read to the nearest nanosecond, one of quality. */
  lemma UtcMeaning(secs: seq<Byte>, fraction: seq<Byte>, quality: Byte)
    requires |secs| == 4 && |fraction| == 3
    ensures DecodeUtc(secs + fraction + [quality]).Ok?
    ensures var u := DecodeUtc(secs + fraction + [quality]).value;
            && u.time.secs == Place(secs) && u.quality == quality
            && -0x80_0000 <= u.time.nanos * 0x100_0000 - Place(fraction) * 1_000_000_000 <= 0x80_0000
  {
    var data := secs + fraction + [quality];
    PlaceValue(secs);
    PlaceValue(fraction);
    ToNatBound(fraction);
    Pow256Values();
    assert data[..4] == secs && data[4..7] == fraction && data[7] == quality;
    NearestNano(ToNat(fraction));
  }

  lemma NearestNano(f: Fraction)
    ensures -0x80_0000 <= NanosOf(f) * 0x100_0000 - f * 1_000_000_000 <= 0x80_0000
  {
  }

  /** Days from 1 January 1970 to 1 January 1984: fourteen years with three leap days. */
  const DAYS_TO_1984 := 14 * 365 + 3

  /** Milliseconds of the day, and with two more octets the days since 1984; a day has 86,400,000 of them. */
  lemma TimeOfDayMeaning(day: seq<Byte>, days: seq<Byte>)
    requires |day| == 4 && |days| == 2
    ensures DecodeTimeOfDay(day) == if Place(day) < 24 * 60 * 60 * 1000 then Ok(Place(day)) else Err
    ensures DecodeTimeOfDay(day + days) ==
            if Place(day) < 24 * 60 * 60 * 1000 then Ok((DAYS_TO_1984 + Place(days)) * (24 * 60 * 60 * 1000) + Place(day)) else Err
  {
    PlaceValue(day);
    PlaceValue(days);
    assert day[..4] == day;
    assert (day + days)[..4] == day && (day + days)[4..6] == days;
  }

  // ----- REAL

  /** The special values of section 8.5.9 of ITU-T X.690, and plus zero, which has no content. */
  lemma RealSpecials(rest: seq<Byte>)
    ensures DecodeReal([]) == Ok(Double(false, 0, 0))
    ensures DecodeReal([0x40] + rest) == Ok(Double(false, 2047, 0))
    ensures DecodeReal([0x41] + rest) == Ok(Double(true, 2047, 0))
    ensures DecodeReal([0x42] + rest).Ok? && DecodeReal([0x42] + rest).value.IsNaN()
    ensures DecodeReal([0x43] + rest) == Ok(Double(true, 0, 0))
  {
  }

  /** The exponent of two in the base an information octet names: 2, 8 or 16. */
  function BaseBits(base: Byte): nat {
    if base == 0 then 1 else if base == 1 then 3 else 4
  }

  lemma BaseValues()
    ensures Pow2(BaseBits(0)) == 2 && Pow2(BaseBits(1)) == 8 && Pow2(BaseBits(2)) == 16
  {
  }

  /** The information octet of a binary REAL: sign, base, scaling factor and how the exponent length is given. */
  function Info(negative: bool, base: nat, scaling: nat, form: nat): (b: Byte)
    requires base < 4 && scaling < 4 && form < 4
  {
    0x80 + (if negative then 0x40 else 0) + 16 * base + 4 * scaling + form
  }

  lemma InfoParts(negative: bool, base: nat, scaling: nat, form: nat)
    requires base < 4 && scaling < 4 && form < 4
    ensures var b := Info(negative, base, scaling, form);
            && b >= 128 && (b >= 0xc0 <==> negative) && (b / 16) % 4 == base && (b / 4) % 4 == scaling && b % 4 == form
  {
  }

  /** The octets that give an exponent of k octets: in the information octet up to three, else one more. */
  predicate ExponentForm(form: nat, lead: seq<Byte>, k: nat) {
    if form < 3 then lead == [] && k == form + 1 else form == 3 && k < 256 && lead == [k]
  }

  lemma NumeralFields(content: seq<Byte>, base: nat, scaling: nat, form: nat, offset: nat, k: nat)
    requires content != [] && content[0] >= 128 && base < 3
    requires (content[0] / 16) % 4 == base && (content[0] / 4) % 4 == scaling && content[0] % 4 == form
    requires if form < 3 then offset == 1 && k == form + 1 else offset == 2 && |content| >= 2 && content[1] == k
    requires 1 <= k <= 8 && offset + k < |content| <= offset + k + 8
    ensures var m := content[offset + k..];
            DecodeNumeral(content)
            == Ok(Numeral(content[0] >= 0xc0, ToNat(m), Wrap64(scaling + Signed(content[offset..offset + k]) * BaseBits(base))))
    ensures ToNat(content[offset + k..]) <= MAX_UINT64
  {
    hide ToNat, Signed, Wrap64;
    MantissaFits(content[offset + k..]);
  }

  /**
   A binary REAL denotes sign * N * 2^F * B^E (section 8.5.7 of ITU-T X.690), with N the place value of
   the mantissa octets, F the scaling factor, B the base and E the two's complement exponent, as long as
   the exponent stays within int64.
   */
  lemma NumeralMeaning(negative: bool, base: nat, scaling: nat, form: nat, lead: seq<Byte>, exp: seq<Byte>, m: seq<Byte>)
    requires base < 3 && scaling < 4 && form < 4 && ExponentForm(form, lead, |exp|)
    requires 1 <= |exp| <= 8 && 1 <= |m| <= 8
    ensures var r := DecodeNumeral([Info(negative, base, scaling, form)] + lead + exp + m);
            && r.Ok? && r.value.negative == negative && r.value.mantissa == Place(m)
            && TwosComplement(exp, Signed(exp))
            && r.value.exponent == Wrap64(scaling + BaseBits(base) * Signed(exp))
            && (|exp| <= 7 ==> r.value.exponent == scaling + BaseBits(base) * Signed(exp))
  {
    hide Place, ToNat, Signed, Wrap64, TwosComplement, DecodeNumeral, Info;
    InfoParts(negative, base, scaling, form);
    NumeralSlices(Info(negative, base, scaling, form), lead, exp, m);
    NumeralFields([Info(negative, base, scaling, form)] + lead + exp + m, base, scaling, form, 1 + |lead|, |exp|);
    PlaceValue(m);
    SignedMeaning(exp, 8);
    if |exp| <= 7 {
      ExponentFits(exp, Signed(exp));
      WrapStands(scaling + BaseBits(base) * Signed(exp));
    }
  }

  lemma NumeralSlices(info: Byte, lead: seq<Byte>, exp: seq<Byte>, m: seq<Byte>)
    ensures var content := [info] + lead + exp + m;
            var offset := 1 + |lead|;
            && content[0] == info && (lead != [] ==> content[1] == lead[0])
            && content[offset..offset + |exp|] == exp && content[offset + |exp|..] == m
  {
  }

  lemma ExponentFits(exp: seq<Byte>, e: int)
    requires 1 <= |exp| <= 7 && TwosComplement(exp, e)
    ensures -0x80_0000_0000_0000 <= e < 0x80_0000_0000_0000
  {
    hide Place;
    Pow256Monotone(|exp|, 7);
    assert Pow256(7) == 0x100_0000_0000_0000 by { Pow256Values(); assert Pow256(3) == 0x100_0000; assert Pow256(5) == 0x100_0000 * 0x1_0000; }
  }

  /** The decimal forms, base 64 and missing mantissas are refused. */
  lemma NumeralRefused(content: seq<Byte>)
    requires content != []
    ensures content[0] < 128 ==> DecodeNumeral(content) == Err
    ensures (content[0] / 16) % 4 == 3 ==> DecodeNumeral(content) == Err
    ensures |content| == 1 ==> DecodeNumeral(content) == Err
  {
  }
}
