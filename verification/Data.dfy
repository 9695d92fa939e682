/**
 MMS Data elements (internal/pdu/data.go): a recursive BER encoder and a
 depth-, count- and length-limited decoder. Floating-point values are kept as
 IEEE bit patterns; GeneralizedTime (tag 0x8b) is not part of the model.
 */
module Data {
  import opened Bytes
  import opened Results
  import opened Ber
  import opened Integers
  import opened Oid
  import opened Times
  import opened RealCodec

  const MAX_DEPTH := 64
  const MAX_RESULTS := 65536

  datatype DataValue =
    | Boolean(b: bool)
    | Integer(i: Int64)
    | Unsigned(u: Uint64)
    | Float(wide: bool, bits: Uint64)
    | BitString(bytes: seq<Byte>, bitLen: int)
    | BooleanArray(bytes: seq<Byte>, bitLen: int)
    | OctetString(bytes: seq<Byte>)
    | VisibleString(text: seq<Byte>)
    | MmsString(text: seq<Byte>)
    | UtcTime(utc: Utc)
    | BinaryTime(ms: int)
    | Real(number: Double)
    | ObjectId(arcs: seq<int>)
    | Bcd(i: Int64)
    | AccessError(code: int)
    | Array(elements: seq<DataValue>)
    | Structure(elements: seq<DataValue>)

  datatype Element = Element(value: DataValue, consumed: nat)

  predicate IsScalar(v: DataValue) {
    !v.Array? && !v.Structure?
  }

  function Tag(v: DataValue): (t: Byte)
  {
    match v
    case AccessError(_) => 0x80
    case Array(_) => 0xa1
    case Structure(_) => 0xa2
    case Boolean(_) => 0x83
    case BitString(_, _) => 0x84
    case Integer(_) => 0x85
    case Unsigned(_) => 0x86
    case Float(_, _) => 0x87
    case Real(_) => 0x88
    case OctetString(_) => 0x89
    case VisibleString(_) => 0x8a
    case BinaryTime(_) => 0x8c
    case Bcd(_) => 0x8d
    case BooleanArray(_, _) => 0x8e
    case ObjectId(_) => 0x8f
    case MmsString(_) => 0x90
    case UtcTime(_) => 0x91
  }

  // ----- bit strings, floats and text

  function EncodeBits(bytes: seq<Byte>, bitLen: int): (bs: seq<Byte>)
    ensures |bs| == 1 + |bytes|
  {
    if bytes == [] then [0]
    else
      var unused := if bitLen > 0 && bitLen % 8 != 0 then 8 - bitLen % 8 else 0;
      [unused] + bytes
  }

  datatype Bits = Bits(bytes: seq<Byte>, bitLen: int)

  function DecodeBits(data: seq<Byte>): (r: Result<Bits>)
  {
    if data == [] || data[0] > 7 then Err
    else if |data| == 1 then (if data[0] != 0 then Err else Ok(Bits([], 0)))
    else Ok(Bits(data[1..], (|data| - 1) * 8 - data[0]))
  }

  /** A bit string survives exactly when it has as many octets as its bits need. */
  lemma BitsRoundTrip(bytes: seq<Byte>, bitLen: int)
    ensures DecodeBits(EncodeBits(bytes, bitLen)) == Ok(Bits(bytes, bitLen))
       <==> (bitLen >= 0 && |bytes| == (bitLen + 7) / 8)
  {
    assert EncodeBits(bytes, bitLen)[1..] == bytes;
  }

  lemma BitsNormalise(data: seq<Byte>)
    requires DecodeBits(data).Ok?
    ensures var b := DecodeBits(data).value;
            b.bitLen >= 0 && |b.bytes| == (b.bitLen + 7) / 8 && EncodeBits(b.bytes, b.bitLen) == data
  {
    if |data| > 1 {
      assert data == [data[0]] + data[1..];
    }
  }

  function EncodeFloat(wide: bool, bits: Uint64): (bs: seq<Byte>)
  {
    if wide then [11] + Fixed(bits, 8) else [8] + Fixed(bits, 4)
  }

  function DecodeFloat(data: seq<Byte>): (r: Result<DataValue>)
  {
    if |data| == 5 && data[0] == 8 then
      ToNatBound(data[1..]); Pow256Values(); Ok(Float(false, ToNat(data[1..])))
    else if |data| == 9 && data[0] == 11 then
      ToNatBound(data[1..]); Pow256Values(); Ok(Float(true, ToNat(data[1..])))
    else Err
  }

  lemma FloatRoundTrip(wide: bool, bits: Uint64)
    ensures DecodeFloat(EncodeFloat(wide, bits)) == Ok(Float(wide, bits)) <==> (wide || bits <= MAX_UINT32)
  {
    var k := if wide then 8 else 4;
    assert EncodeFloat(wide, bits)[1..] == Fixed(bits, k);
    Pow256Values();
    if wide || bits <= MAX_UINT32 {
      ToNatFixed(bits, k);
    } else {
      ToNatBound(Fixed(bits, k));
    }
  }

  lemma FloatNormalises(data: seq<Byte>)
    requires DecodeFloat(data).Ok?
    ensures DecodeFloat(data).value.Float?
    ensures var f := DecodeFloat(data).value; (f.wide || f.bits <= MAX_UINT32) && EncodeFloat(f.wide, f.bits) == data
  {
    assert data == [data[0]] + data[1..];
    FixedToNat(data[1..]);
    ToNatBound(data[1..]);
    Pow256Values();
  }

  predicate Continuation(bs: seq<Byte>, i: nat) {
    i < |bs| && 0x80 <= bs[i] <= 0xbf
  }

  /** unicode/utf8.Valid: shortest forms only, no surrogates, nothing above U+10FFFF. */
  predicate ValidUtf8(bs: seq<Byte>)
  {
    if bs == [] then true
    else if bs[0] < 0x80 then ValidUtf8(bs[1..])
    else if 0xc2 <= bs[0] <= 0xdf then Continuation(bs, 1) && ValidUtf8(bs[2..])
    else if 0xe0 <= bs[0] <= 0xef then
      && Continuation(bs, 1) && Continuation(bs, 2)
      && (bs[0] == 0xe0 ==> bs[1] >= 0xa0) && (bs[0] == 0xed ==> bs[1] <= 0x9f)
      && ValidUtf8(bs[3..])
    else if 0xf0 <= bs[0] <= 0xf4 then
      && Continuation(bs, 1) && Continuation(bs, 2) && Continuation(bs, 3)
      && (bs[0] == 0xf0 ==> bs[1] >= 0x90) && (bs[0] == 0xf4 ==> bs[1] <= 0x8f)
      && ValidUtf8(bs[4..])
    else false
  }

  // ----- the encoder

  function ScalarContent(v: DataValue): (r: Result<seq<Byte>>)
    requires IsScalar(v)
  {
    match v
    case Boolean(b) => Ok([if b then 0xff else 0])
    case Integer(i) => Ok(EncodeInt(i))
    case Unsigned(u) => Ok(EncodeUnsigned(u))
    case Float(wide, bits) => Ok(EncodeFloat(wide, bits))
    case BitString(bytes, bitLen) => Ok(EncodeBits(bytes, bitLen))
    case BooleanArray(bytes, bitLen) => Ok(EncodeBits(bytes, bitLen))
    case OctetString(bytes) => Ok(bytes)
    case VisibleString(text) => Ok(text)
    case MmsString(text) => if ValidUtf8(text) then Ok(text) else Err
    case UtcTime(utc) => EncodeUtc(utc)
    case BinaryTime(ms) => EncodeTimeOfDay(ms)
    case Real(x) => Ok(EncodeReal(x))
    case ObjectId(arcs) => EncodeOid(arcs)
    case Bcd(i) => Ok(EncodeInt(i))
    case AccessError(code) => if code < 0 then Err else Ok(EncodeUnsigned(code))
  }

  function Content(v: DataValue): (r: Result<seq<Byte>>)
    decreases v, 1
  {
    if IsScalar(v) then ScalarContent(v) else MarshalList(v.elements)
  }

  /** MarshalData. */
  function Marshal(v: DataValue): (r: Result<seq<Byte>>)
    decreases v, 2
  {
    var content :- Content(v);
    Ok(EncodeTLV(Tag(v), content))
  }

  function MarshalList(vs: seq<DataValue>): (r: Result<seq<Byte>>)
    decreases vs, 0
  {
    if vs == [] then Ok([])
    else
      var head :- Marshal(vs[0]);
      var tail :- MarshalList(vs[1..]);
      Ok(head + tail)
  }

  // ----- the decoder

  function DecodeScalar(tag: Byte, content: seq<Byte>): (r: Result<DataValue>)
  {
    if tag == 0x83 then (if |content| != 1 then Err else Ok(Boolean(content[0] != 0)))
    else if tag == 0x85 then DecodeInt64(content, (i: Int64) => Integer(i))
    else if tag == 0x86 then DecodeUint64(content)
    else if tag == 0x87 then DecodeFloat(content)
    else if tag == 0x84 then var b :- DecodeBits(content); Ok(BitString(b.bytes, b.bitLen))
    else if tag == 0x88 then var x :- DecodeReal(content); Ok(Real(x))
    else if tag == 0x89 then Ok(OctetString(content))
    else if tag == 0x8a then Ok(VisibleString(content))
    else if tag == 0x90 then (if ValidUtf8(content) then Ok(MmsString(content)) else Err)
    else if tag == 0x91 then var u :- DecodeUtc(content); Ok(UtcTime(u))
    else if tag == 0x8c then var ms :- DecodeTimeOfDay(content); Ok(BinaryTime(ms))
    else if tag == 0x8f then var oid :- DecodeOid(content); Ok(ObjectId(oid))
    else if tag == 0x8d then DecodeInt64(content, (i: Int64) => Bcd(i))
    else if tag == 0x8e then var b :- DecodeBits(content); Ok(BooleanArray(b.bytes, b.bitLen))
    else if tag == 0x80 then var code :- DecodeSigned(content, 4); Ok(AccessError(code))
    else Err
  }

  function DecodeInt64(content: seq<Byte>, wrap: Int64 -> DataValue): (r: Result<DataValue>)
  {
    var i :- DecodeSigned(content, 8);
    SignedFits(content);
    Ok(wrap(i))
  }

  function DecodeUint64(content: seq<Byte>): (r: Result<DataValue>)
  {
    var u :- DecodeUnsigned(content, 8);
    UnsignedNormalises(content, 8);
    Pow256Values();
    Ok(Unsigned(u))
  }

  function DecodeContent(tag: Byte, content: seq<Byte>, depth: nat): (r: Result<DataValue>)
    decreases |content|, 2
  {
    if tag == 0xa1 then var vs :- DecodeList(content, depth + 1, 0); Ok(Array(vs))
    else if tag == 0xa2 then var vs :- DecodeList(content, depth + 1, 0); Ok(Structure(vs))
    else DecodeScalar(tag, content)
  }

  /** unmarshalDataElementWithDepth on the octets from its offset on. */
  function DecodeElement(data: seq<Byte>, depth: nat): (r: Result<Element>)
    ensures r.Ok? ==> 2 <= r.value.consumed <= |data|
    decreases |data|, 0
  {
    if depth > MAX_DEPTH then Err
    else
      var tlv :- DecodeTLV(data);
      var v :- DecodeContent(tlv.tag, tlv.content, depth);
      Ok(Element(v, tlv.consumed))
  }

  /** unmarshalAccessResultsWithDepth, count elements having been collected already. */
  function DecodeList(data: seq<Byte>, depth: nat, count: nat): (r: Result<seq<DataValue>>)
    decreases |data|, 1
  {
    if data == [] then Ok([])
    else
      var e :- DecodeElement(data, depth);
      if count + 1 > MAX_RESULTS then Err
      else
        var rest :- DecodeList(data[e.consumed..], depth, count + 1);
        Ok([e.value] + rest)
  }

  // ----- the loop of the source

  method UnmarshalElement(data: seq<Byte>, offset: nat, depth: nat) returns (r: Result<Element>)
    requires offset <= |data|
    ensures r == DecodeElement(data[offset..], depth)
    decreases |data| - offset, 0
  {
    if depth > MAX_DEPTH {
      return Err;
    }
    DecodeAtSuffix(data, offset);
    var tlv := DecodeTLVAt(data, offset);
    if tlv.Err? {
      return Err;
    }
    var v := UnmarshalContent(tlv.value.tag, tlv.value.content, depth);
    if v.Err? {
      return Err;
    }
    return Ok(Element(v.value, tlv.value.consumed));
  }

  method UnmarshalContent(tag: Byte, content: seq<Byte>, depth: nat) returns (r: Result<DataValue>)
    ensures r == DecodeContent(tag, content, depth)
    decreases |content|, 2
  {
    if tag == 0xa1 || tag == 0xa2 {
      var vs := UnmarshalAccessResults(content, depth + 1);
      if vs.Err? {
        return Err;
      }
      return Ok(if tag == 0xa1 then Array(vs.value) else Structure(vs.value));
    }
    return DecodeScalar(tag, content);
  }

  /** The offset loop, which stops at the first error and at the 65537th element. */
  method UnmarshalAccessResults(data: seq<Byte>, depth: nat) returns (r: Result<seq<DataValue>>)
    ensures r == DecodeList(data, depth, 0)
    decreases |data|, 1
  {
    hide DecodeElement;
    var results: seq<DataValue>, offset: nat := [], 0;
    ghost var rest, outcome := data, DecodeList(data, depth, 0);
    PrependEmpty([], outcome);
    while offset < |data|
      invariant offset <= |data| && rest == data[offset..]
      invariant outcome == Prepend(results, DecodeList(rest, depth, |results|))
    {
      var e := UnmarshalElement(data, offset, depth);
      ListStep(results, rest, depth);
      if e.Err? {
        return Err;
      }
      offset := offset + e.value.consumed;
      rest := rest[e.value.consumed..];
      results := results + [e.value.value];
      if |results| > MAX_RESULTS {
        return Err;
      }
    }
    PrependEmpty(results, outcome);
    return Ok(results);
  }

  lemma ListStep(done: seq<DataValue>, data: seq<Byte>, depth: nat)
    requires data != []
    ensures DecodeElement(data, depth).Err? ==> Prepend(done, DecodeList(data, depth, |done|)).Err?
    ensures DecodeElement(data, depth).Ok? ==>
              var e := DecodeElement(data, depth).value;
              Prepend(done, DecodeList(data, depth, |done|)) ==
              if |done| + 1 > MAX_RESULTS then Err
              else Prepend(done + [e.value], DecodeList(data[e.consumed..], depth, |done| + 1))
  {
    hide DecodeElement;
    if DecodeElement(data, depth).Ok? {
      var e := DecodeElement(data, depth).value;
      var rest := DecodeList(data[e.consumed..], depth, |done| + 1);
      if rest.Ok? {
        assert done + ([e.value] + rest.value) == done + [e.value] + rest.value;
      }
    }
  }

  // ----- what survives the wire

  ghost predicate ScalarOk(v: DataValue)
    requires IsScalar(v)
  {
    match v
    case Float(wide, bits) => wide || bits <= MAX_UINT32
    case BitString(bytes, bitLen) => bitLen >= 0 && |bytes| == (bitLen + 7) / 8
    case BooleanArray(bytes, bitLen) => bitLen >= 0 && |bytes| == (bitLen + 7) / 8
    case MmsString(text) => ValidUtf8(text)
    case UtcTime(utc) => 0 <= utc.time.secs <= MAX_UINT32 && OnGrid(utc.time.nanos)
    case BinaryTime(ms) => TimeOfDayRange(ms)
    case Real(x) => !x.IsNaN() || x == QUIET_NAN
    case ObjectId(arcs) => ValidOid(arcs) && SmallIds(SubIds(arcs))
    case AccessError(code) => 0 <= code < 0x8000_0000
    case _ => true
  }

  /** A tree the decoder accepts at this depth and returns unchanged. */
  ghost predicate WellFormed(v: DataValue, depth: nat)
    decreases v
  {
    && depth <= MAX_DEPTH
    && (if IsScalar(v) then ScalarOk(v)
        else |v.elements| <= MAX_RESULTS && forall i :: 0 <= i < |v.elements| ==> WellFormed(v.elements[i], depth + 1))
    && Content(v).Ok? && |Content(v).value| < MAX_CONTENT
  }

  ghost predicate AllWellFormed(vs: seq<DataValue>, depth: nat) {
    forall i :: 0 <= i < |vs| ==> WellFormed(vs[i], depth)
  }

  // ----- scalars

  lemma NumberRoundTrip(v: DataValue)
    requires v.Boolean? || v.Integer? || v.Unsigned? || v.Bcd? || v.AccessError? || v.Float?
    requires ScalarOk(v)
    ensures ScalarContent(v).Ok? && DecodeScalar(Tag(v), ScalarContent(v).value) == Ok(v)
  {
    hide EncodeInt, EncodeUnsigned, EncodeFloat, DecodeSigned, DecodeUnsigned, DecodeFloat;
    Pow256Values();
    match v
    case Boolean(_) =>
    case Integer(i) => IntRoundTrip(i, 8);
    case Bcd(i) => IntRoundTrip(i, 8);
    case Unsigned(u) => UnsignedRoundTrip(u, 8);
    case AccessError(code) =>
      UnsignedIsInt(code);
      IntWidth(code, 4);
      IntRoundTrip(code, 4);
    case Float(wide, bits) => FloatRoundTrip(wide, bits);
  }

  lemma ScalarRoundTrip(v: DataValue)
    requires IsScalar(v)
    requires ScalarOk(v)
    ensures ScalarContent(v).Ok? && DecodeScalar(Tag(v), ScalarContent(v).value) == Ok(v)
  {
    hide EncodeBits, EncodeUtc, EncodeTimeOfDay, EncodeReal, EncodeOid;
    hide DecodeBits, DecodeUtc, DecodeTimeOfDay, DecodeReal, DecodeOid;
    match v
    case BitString(bytes, bitLen) => BitsRoundTrip(bytes, bitLen);
    case BooleanArray(bytes, bitLen) => BitsRoundTrip(bytes, bitLen);
    case OctetString(_) =>
    case VisibleString(_) =>
    case MmsString(_) =>
    case UtcTime(utc) => UtcExact(utc);
    case BinaryTime(ms) => TimeOfDayRoundTrip(ms);
    case Real(x) => RealRoundTrip(x);
    case ObjectId(arcs) => OidRoundTrip(arcs);
    case _ => NumberRoundTrip(v);
  }

  /** No REAL, whose contents may be written in a shorter base, and no access error code the encoder refuses. */
  ghost predicate Plain(v: DataValue)
    decreases v
  {
    if IsScalar(v) then !v.Real? && (v.AccessError? ==> v.code >= 0)
    else forall i :: 0 <= i < |v.elements| ==> Plain(v.elements[i])
  }

  ghost predicate AllPlain(vs: seq<DataValue>) {
    forall i :: 0 <= i < |vs| ==> Plain(vs[i])
  }

  lemma NumberNormalises(tag: Byte, content: seq<Byte>)
    requires tag in {0x80, 0x83, 0x85, 0x86, 0x87, 0x8d}
    requires DecodeScalar(tag, content).Ok?
    requires Plain(DecodeScalar(tag, content).value)
    ensures var v := DecodeScalar(tag, content).value;
            && Tag(v) == tag
            && ScalarOk(v) && ScalarContent(v).Ok? && |ScalarContent(v).value| <= |content|
  {
    Pow256Values();
    if tag == 0x85 || tag == 0x8d {
      IntNormalises(content);
    } else if tag == 0x86 {
      UnsignedNormalises(content, 8);
    } else if tag == 0x87 {
      FloatNormalises(content);
    } else if tag == 0x80 {
      IntNormalises(content);
      SignedWithin(content, 4);
      UnsignedIsInt(Signed(content));
    }
  }

  lemma ScalarNormalises(tag: Byte, content: seq<Byte>)
    requires DecodeScalar(tag, content).Ok?
    requires Plain(DecodeScalar(tag, content).value)
    ensures var v := DecodeScalar(tag, content).value;
            && IsScalar(v) && Tag(v) == tag
            && ScalarOk(v) && ScalarContent(v).Ok? && |ScalarContent(v).value| <= |content|
  {
    if tag == 0x84 || tag == 0x8e {
      BitsNormalise(content);
    } else if tag == 0x91 {
      UtcDecodeEncode(content);
      UtcExact(DecodeUtc(content).value);
    } else if tag == 0x8c {
      TimeOfDayNormalises(content);
      TimeOfDayRoundTrip(DecodeTimeOfDay(content).value);
    } else if tag == 0x8f {
      OidNormalises(content);
    } else if tag in {0x80, 0x83, 0x85, 0x86, 0x87, 0x8d} {
      NumberNormalises(tag, content);
    }
  }

  // ----- trees

  lemma ScalarDispatch(v: DataValue, depth: nat)
    requires IsScalar(v) && ScalarOk(v)
    ensures Content(v).Ok?
    ensures DecodeContent(Tag(v), Content(v).value, depth) == Ok(v)
  {
    ScalarRoundTrip(v);
  }

  /** Any suffix: decoding what Marshal wrote returns the tree and exactly its length. */
  lemma {:induction false} RoundTrip(v: DataValue, depth: nat, rest: seq<Byte>)
    requires WellFormed(v, depth)
    ensures Marshal(v).Ok?
    ensures DecodeElement(Marshal(v).value + rest, depth) == Ok(Element(v, |Marshal(v).value|))
    decreases v, 1
  {
    var content := Content(v).value;
    TLVRoundTrip(Tag(v), content, rest);
    TLVLength(Tag(v), content);
    ContentRoundTrip(v, depth);
  }

  lemma {:induction false} ContentRoundTrip(v: DataValue, depth: nat)
    requires WellFormed(v, depth)
    ensures DecodeContent(Tag(v), Content(v).value, depth) == Ok(v)
    decreases v, 0
  {
    if IsScalar(v) {
      ScalarDispatch(v, depth);
    } else {
      ListRoundTrip(v.elements, depth + 1, 0);
    }
  }

  lemma {:induction false} ListRoundTrip(vs: seq<DataValue>, depth: nat, count: nat)
    requires AllWellFormed(vs, depth)
    requires count + |vs| <= MAX_RESULTS
    ensures MarshalList(vs).Ok?
    ensures DecodeList(MarshalList(vs).value, depth, count) == Ok(vs)
    decreases vs, 0
  {
    hide DecodeElement, WellFormed, Marshal;
    if vs != [] {
      RoundTrip(vs[0], depth, []);
      ListRoundTrip(vs[1..], depth, count + 1);
      var head, tail := Marshal(vs[0]).value, MarshalList(vs[1..]).value;
      RoundTrip(vs[0], depth, tail);
      assert (head + tail)[|head|..] == tail;
      assert vs == [vs[0]] + vs[1..];
    }
  }

  /** Whatever decodes is well formed at its depth and re-encodes in no more octets than were consumed. */
  lemma {:induction false} DecodedIsWellFormed(data: seq<Byte>, depth: nat)
    requires DecodeElement(data, depth).Ok?
    requires Plain(DecodeElement(data, depth).value.value)
    ensures var e := DecodeElement(data, depth).value;
            && WellFormed(e.value, depth)
            && |Marshal(e.value).value| <= e.consumed
    decreases |data|, 0
  {
    var tlv := DecodeTLV(data).value;
    var v := DecodeElement(data, depth).value.value;
    TLVShortest(data);
    ContentIsWellFormed(tlv.tag, tlv.content, depth);
    TLVLength(tlv.tag, Content(v).value);
    TLVSizeMonotone(|Content(v).value|, |tlv.content|);
  }

  lemma {:induction false} ContentIsWellFormed(tag: Byte, content: seq<Byte>, depth: nat)
    requires depth <= MAX_DEPTH && |content| < MAX_CONTENT
    requires DecodeContent(tag, content, depth).Ok?
    requires Plain(DecodeContent(tag, content, depth).value)
    ensures var v := DecodeContent(tag, content, depth).value;
            && WellFormed(v, depth)
            && Tag(v) == tag
            && |Content(v).value| <= |content|
    decreases |content|, 2
  {
    if tag == 0xa1 || tag == 0xa2 {
      ListIsWellFormed(content, depth + 1, 0);
    } else {
      ScalarNormalises(tag, content);
    }
  }

  lemma {:induction false} ListIsWellFormed(data: seq<Byte>, depth: nat, count: nat)
    requires DecodeList(data, depth, count).Ok?
    requires AllPlain(DecodeList(data, depth, count).value)
    requires count <= MAX_RESULTS
    ensures var vs := DecodeList(data, depth, count).value;
            && AllWellFormed(vs, depth)
            && count + |vs| <= MAX_RESULTS
            && MarshalList(vs).Ok? && |MarshalList(vs).value| <= |data|
    decreases |data|, 1
  {
    hide DecodeElement, WellFormed;
    if data != [] {
      var e := DecodeElement(data, depth).value;
      var rest := DecodeList(data[e.consumed..], depth, count + 1).value;
      var vs := DecodeList(data, depth, count).value;
      assert vs == [e.value] + rest;
      assert vs[0] == e.value && vs[1..] == rest;
      assert AllPlain(rest);
      DecodedIsWellFormed(data, depth);
      ListIsWellFormed(data[e.consumed..], depth, count + 1);
    }
  }

  /**
   Decoding normalises: a plain value read from any octets re-encodes, in no
   more octets than were consumed, to octets that decode to it again.
   */
  lemma DecodeNormalises(data: seq<Byte>, rest: seq<Byte>)
    requires DecodeElement(data, 0).Ok?
    requires Plain(DecodeElement(data, 0).value.value)
    ensures var e := DecodeElement(data, 0).value;
            && Marshal(e.value).Ok?
            && |Marshal(e.value).value| <= e.consumed
            && DecodeElement(Marshal(e.value).value + rest, 0) == Ok(Element(e.value, |Marshal(e.value).value|))
  {
    var e := DecodeElement(data, 0).value;
    DecodedIsWellFormed(data, 0);
    RoundTrip(e.value, 0, rest);
  }

  // ----- the limits are exact

  /** A scalar content that decodes to what it was made from was made within the limits. */
  lemma ScalarExact(v: DataValue)
    requires IsScalar(v) && ScalarContent(v).Ok? && DecodeScalar(Tag(v), ScalarContent(v).value) == Ok(v)
    ensures ScalarOk(v)
  {
    if v.Real? {
      RealRoundTrip(v.number);
    } else {
      ScalarNormalises(Tag(v), ScalarContent(v).value);
    }
  }

  lemma {:induction false} ContentExact(v: DataValue, depth: nat)
    requires depth <= MAX_DEPTH && Content(v).Ok? && |Content(v).value| < MAX_CONTENT
    requires DecodeContent(Tag(v), Content(v).value, depth) == Ok(v)
    ensures WellFormed(v, depth)
    decreases v, 1
  {
    if IsScalar(v) {
      ScalarExact(v);
    } else {
      ListExact(v.elements, depth + 1, 0);
    }
  }

  lemma {:induction false} ListExact(vs: seq<DataValue>, depth: nat, count: nat)
    requires MarshalList(vs).Ok? && |MarshalList(vs).value| < MAX_CONTENT && count <= MAX_RESULTS
    requires DecodeList(MarshalList(vs).value, depth, count) == Ok(vs)
    ensures AllWellFormed(vs, depth) && count + |vs| <= MAX_RESULTS
    decreases vs, 0
  {
    hide DecodeTLV, EncodeTLV, DecodeElement, Content, WellFormed;
    if vs != [] {
      var content, tail := Content(vs[0]).value, MarshalList(vs[1..]).value;
      TLVLength(Tag(vs[0]), content);
      HeadExact(vs, content, tail, depth, count);
      ContentExact(vs[0], depth);
      ListExact(vs[1..], depth, count + 1);
    }
  }

  /** When a list is read back, so are its first element and the rest. */
  lemma HeadExact(vs: seq<DataValue>, content: seq<Byte>, tail: seq<Byte>, depth: nat, count: nat)
    requires vs != [] && |content| < MAX_CONTENT
    requires DecodeList(EncodeTLV(Tag(vs[0]), content) + tail, depth, count) == Ok(vs)
    ensures depth <= MAX_DEPTH && DecodeContent(Tag(vs[0]), content, depth) == Ok(vs[0])
    ensures count + 1 <= MAX_RESULTS && DecodeList(tail, depth, count + 1) == Ok(vs[1..])
  {
    hide DecodeTLV, EncodeTLV, DecodeContent, Tag;
    var head := EncodeTLV(Tag(vs[0]), content);
    TLVLength(Tag(vs[0]), content);
    TLVRoundTrip(Tag(vs[0]), content, tail);
    assert (head + tail)[TLVSize(|content|)..] == tail;
    assert vs == [vs[0]] + vs[1..];
  }

  /** A TLV that is read over its whole length has a content below 2^24. */
  lemma WholeTLV(tag: Byte, content: seq<Byte>, rest: seq<Byte>)
    requires var r := DecodeTLV(EncodeTLV(tag, content) + rest); r.Ok? && r.value.consumed == |EncodeTLV(tag, content)|
    ensures |content| < MAX_CONTENT
  {
    hide EncodeTLV;
    TLVLength(tag, content);
    TLVShortest(EncodeTLV(tag, content) + rest);
    ConsumedBound(EncodeTLV(tag, content) + rest);
    if |content| >= MAX_CONTENT {
      Pow256Values();
      ByteCountLeast(|content|, 3);
    }
  }

  lemma ConsumedBound(data: seq<Byte>)
    requires DecodeTLV(data).Ok?
    ensures DecodeTLV(data).value.consumed <= 5 + |DecodeTLV(data).value.content|
  {
  }

  /** WellFormed is exact: a tree survives the wire if and only if it is well formed. */
  lemma RoundTripExactly(v: DataValue, rest: seq<Byte>)
    ensures WellFormed(v, 0)
       <==> (Marshal(v).Ok? && DecodeElement(Marshal(v).value + rest, 0) == Ok(Element(v, |Marshal(v).value|)))
  {
    hide DecodeTLV, EncodeTLV, WellFormed, Content, DecodeContent;
    if WellFormed(v, 0) {
      RoundTrip(v, 0, rest);
    } else if Marshal(v).Ok? && DecodeElement(Marshal(v).value + rest, 0) == Ok(Element(v, |Marshal(v).value|)) {
      var content := Content(v).value;
      WholeTLV(Tag(v), content, rest);
      TLVRoundTrip(Tag(v), content, rest);
      ContentExact(v, 0);
    }
  }

  // ----- what a decoded value survives, REAL included

  /** No REAL is a NaN other than the one the codec writes, and no access error has a code the encoder refuses. */
  ghost predicate Encodable(v: DataValue)
    decreases v
  {
    if IsScalar(v) then (v.Real? ==> !v.number.IsNaN() || v.number == QUIET_NAN) && (v.AccessError? ==> v.code >= 0)
    else forall i :: 0 <= i < |v.elements| ==> Encodable(v.elements[i])
  }

  /** No content reaches the length the decoder refuses. */
  ghost predicate Short(v: DataValue)
    decreases v
  {
    && Content(v).Ok? && |Content(v).value| < MAX_CONTENT
    && (!IsScalar(v) ==> forall i :: 0 <= i < |v.elements| ==> Short(v.elements[i]))
  }

  ghost predicate Limited(v: DataValue, depth: nat)
    decreases v
  {
    && depth <= MAX_DEPTH
    && (if IsScalar(v) then ScalarOk(v)
        else |v.elements| <= MAX_RESULTS && forall i :: 0 <= i < |v.elements| ==> Limited(v.elements[i], depth + 1))
  }

  lemma {:induction false} WellFormedParts(v: DataValue, depth: nat)
    ensures WellFormed(v, depth) <==> Limited(v, depth) && Short(v)
    ensures Limited(v, depth) ==> Encodable(v)
    decreases v
  {
    if !IsScalar(v) {
      forall i | 0 <= i < |v.elements|
        ensures WellFormed(v.elements[i], depth + 1) <==> Limited(v.elements[i], depth + 1) && Short(v.elements[i])
        ensures Limited(v.elements[i], depth + 1) ==> Encodable(v.elements[i])
      {
        WellFormedParts(v.elements[i], depth + 1);
      }
    }
  }

  lemma {:induction false} ContentLimited(tag: Byte, content: seq<Byte>, depth: nat)
    requires depth <= MAX_DEPTH && DecodeContent(tag, content, depth).Ok?
    requires Encodable(DecodeContent(tag, content, depth).value)
    ensures Limited(DecodeContent(tag, content, depth).value, depth)
    decreases |content|, 2
  {
    if tag == 0xa1 || tag == 0xa2 {
      ListLimited(content, depth + 1, 0);
    } else if tag != 0x88 {
      ScalarNormalises(tag, content);
    }
  }

  lemma {:induction false} ListLimited(data: seq<Byte>, depth: nat, count: nat)
    requires DecodeList(data, depth, count).Ok? && count <= MAX_RESULTS
    requires forall i :: 0 <= i < |DecodeList(data, depth, count).value| ==> Encodable(DecodeList(data, depth, count).value[i])
    ensures var vs := DecodeList(data, depth, count).value;
            count + |vs| <= MAX_RESULTS && forall i :: 0 <= i < |vs| ==> Limited(vs[i], depth)
    decreases |data|, 1
  {
    hide DecodeContent, Limited, Encodable, DecodeTLV;
    if data != [] {
      var e := DecodeElement(data, depth).value;
      var tlv := DecodeTLV(data).value;
      var vs, rest := DecodeList(data, depth, count).value, DecodeList(data[e.consumed..], depth, count + 1).value;
      assert vs == [e.value] + rest;
      assert vs[0] == e.value && forall i :: 0 <= i < |rest| ==> rest[i] == vs[i + 1];
      ContentLimited(tlv.tag, tlv.content, depth);
      ListLimited(data[e.consumed..], depth, count + 1);
    }
  }

  /**
   For every octet string that decodes, the value survives another trip if and only if its access
   errors are non-negative, no REAL in it is the NaN of 0 * Inf (RealCodec.RealLost says which octets
   give that), and its new encoding is within the length limit.
   */
  lemma DecodedSurvives(data: seq<Byte>, rest: seq<Byte>)
    requires DecodeElement(data, 0).Ok?
    ensures var v := DecodeElement(data, 0).value.value;
            (Marshal(v).Ok? && DecodeElement(Marshal(v).value + rest, 0) == Ok(Element(v, |Marshal(v).value|)))
            <==> (Encodable(v) && Short(v))
  {
    hide DecodeContent, Limited, Encodable, Short, DecodeTLV, WellFormed;
    var v := DecodeElement(data, 0).value.value;
    var tlv := DecodeTLV(data).value;
    RoundTripExactly(v, rest);
    WellFormedParts(v, 0);
    if Encodable(v) {
      ContentLimited(tlv.tag, tlv.content, 0);
    }
  }
}
