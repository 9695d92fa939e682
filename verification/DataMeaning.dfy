/**
 What the octets of an MMS Data element denote (internal/pdu/data.go), for every
 length form and every content the decoder accepts. Tags and readings are those
 of ISO 9506-2 and the Basic Encoding Rules, not those of the encoder.
 */
module DataMeaning {
  import opened Bytes
  import opened Results
  import opened Ber
  import opened Integers
  import opened Oid
  import opened Times
  import opened RealCodec
  import opened Data
  import opened Meaning
  import U = Utf8

  /** A primitive element is decoded by its tag and content alone, in whatever form its length is. */
  lemma ScalarElement(tag: Byte, form: seq<Byte>, content: seq<Byte>, suffix: seq<Byte>, depth: nat)
    requires LengthForm(form, |content|) && tag != 0xa1 && tag != 0xa2
    ensures DecodeElement([tag] + form + content + suffix, depth) ==
            if depth > 64 || DecodeScalar(tag, content).Err? then Err
            else Ok(Element(DecodeScalar(tag, content).value, 1 + |form| + |content|))
  {
    hide DecodeTLV, DecodeScalar, LengthForm;
    ElementMeaning(tag, form, content, suffix);
  }

  /** BOOLEAN: any octet but zero is true. */
  lemma BooleanMeaning(form: seq<Byte>, content: seq<Byte>, suffix: seq<Byte>, depth: nat)
    requires LengthForm(form, |content|) && depth <= 64
    ensures DecodeElement([0x83] + form + content + suffix, depth) ==
            if |content| == 1 then Ok(Element(Boolean(content[0] != 0), 2 + |form|)) else Err
  {
    hide DecodeElement, LengthForm;
    ScalarElement(0x83, form, content, suffix, depth);
  }

  lemma BooleanOctet(b: Byte, suffix: seq<Byte>, depth: nat)
    requires depth <= 64
    ensures DecodeElement([0x83, 1, b] + suffix, depth) == Ok(Element(Boolean(b != 0), 3))
  {
    hide DecodeElement;
    BooleanMeaning([1], [b], suffix, depth);
    assert [0x83] + [1] + [b] + suffix == [0x83, 1, b] + suffix;
  }

  /** INTEGER and BCD: two's complement of one to eight octets. */
  lemma IntegerMeaning(form: seq<Byte>, content: seq<Byte>, suffix: seq<Byte>, depth: nat)
    requires LengthForm(form, |content|) && depth <= 64
    ensures var r := DecodeElement([0x85] + form + content + suffix, depth);
            && (r.Ok? <==> 1 <= |content| <= 8)
            && (r.Ok? ==> r.value.value.Integer? && TwosComplement(content, r.value.value.i) && r.value.consumed == 1 + |form| + |content|)
    ensures var r := DecodeElement([0x8d] + form + content + suffix, depth);
            && (r.Ok? <==> 1 <= |content| <= 8)
            && (r.Ok? ==> r.value.value.Bcd? && TwosComplement(content, r.value.value.i) && r.value.consumed == 1 + |form| + |content|)
  {
    hide DecodeElement, LengthForm, DecodeSigned, TwosComplement;
    ScalarElement(0x85, form, content, suffix, depth);
    ScalarElement(0x8d, form, content, suffix, depth);
    SignedMeaning(content, 8);
  }

  /** A failed access: two's complement of one to four octets. */
  lemma AccessErrorMeaning(form: seq<Byte>, content: seq<Byte>, suffix: seq<Byte>, depth: nat)
    requires LengthForm(form, |content|) && depth <= 64
    ensures var r := DecodeElement([0x80] + form + content + suffix, depth);
            && (r.Ok? <==> 1 <= |content| <= 4)
            && (r.Ok? ==> r.value.value.AccessError? && TwosComplement(content, r.value.value.code) && r.value.consumed == 1 + |form| + |content|)
  {
    hide DecodeElement, LengthForm, DecodeSigned, TwosComplement;
    ScalarElement(0x80, form, content, suffix, depth);
    SignedMeaning(content, 4);
  }

  /** UNSIGNED: the place value of up to eight octets, with one zero octet in front or not. */
  lemma UnsignedMeaning(form: seq<Byte>, content: seq<Byte>, suffix: seq<Byte>, depth: nat)
    requires LengthForm(form, |content|) && depth <= 64
    ensures var r := DecodeElement([0x86] + form + content + suffix, depth);
            && (r.Ok? <==> content != [] && content[0] < 128 && (|content| <= 8 || (content[0] == 0 && |content| == 9)))
            && (r.Ok? ==> r.value.value.Unsigned? && r.value.value.u == Place(content) && r.value.consumed == 1 + |form| + |content|)
  {
    hide DecodeElement, LengthForm, DecodeUnsigned, Place;
    ScalarElement(0x86, form, content, suffix, depth);
    Meaning.UnsignedMeaning(content, 8);
  }

  /** The string kinds: the octets themselves; an MMS string has to be UTF-8 text. */
  lemma StringMeaning(form: seq<Byte>, content: seq<Byte>, suffix: seq<Byte>, depth: nat)
    requires LengthForm(form, |content|) && depth <= 64
    ensures var consumed := 1 + |form| + |content|;
            && DecodeElement([0x89] + form + content + suffix, depth) == Ok(Element(OctetString(content), consumed))
            && DecodeElement([0x8a] + form + content + suffix, depth) == Ok(Element(VisibleString(content), consumed))
            && DecodeElement([0x90] + form + content + suffix, depth) ==
               if U.IsText(content) then Ok(Element(MmsString(content), consumed)) else Err
  {
    hide DecodeElement, LengthForm, U.IsText;
    ScalarElement(0x89, form, content, suffix, depth);
    ScalarElement(0x8a, form, content, suffix, depth);
    ScalarElement(0x90, form, content, suffix, depth);
    U.ValidExactly(content);
  }

  /** Bit strings: the first octet says how many bits of the last one are unused, up to seven and none in an empty string. */
  lemma BitStringMeaning(form: seq<Byte>, unused: Byte, bytes: seq<Byte>, suffix: seq<Byte>, depth: nat)
    requires LengthForm(form, 1 + |bytes|) && depth <= 64
    ensures var consumed := 2 + |form| + |bytes|;
            var good := unused <= 7 && (bytes == [] ==> unused == 0);
            && DecodeElement([0x84] + form + ([unused] + bytes) + suffix, depth) ==
               (if good then Ok(Element(BitString(bytes, 8 * |bytes| - unused), consumed)) else Err)
            && DecodeElement([0x8e] + form + ([unused] + bytes) + suffix, depth) ==
               (if good then Ok(Element(BooleanArray(bytes, 8 * |bytes| - unused), consumed)) else Err)
  {
    hide DecodeElement, LengthForm;
    var content := [unused] + bytes;
    ScalarElement(0x84, form, content, suffix, depth);
    ScalarElement(0x8e, form, content, suffix, depth);
    assert content[1..] == bytes;
  }

  /** Floats: the width of the exponent, then the IEEE 754 bits of a single or a double, most significant first. */
  lemma FloatMeaning(form: seq<Byte>, width: Byte, bits: seq<Byte>, suffix: seq<Byte>, depth: nat)
    requires LengthForm(form, 1 + |bits|) && depth <= 64
    ensures var r := DecodeElement([0x87] + form + ([width] + bits) + suffix, depth);
            && (r.Ok? <==> (width == 8 && |bits| == 4) || (width == 11 && |bits| == 8))
            && (r.Ok? ==> r.value.value.Float? && (r.value.value.wide <==> width == 11) && r.value.value.bits == Place(bits)
                          && r.value.consumed == 2 + |form| + |bits|)
  {
    hide DecodeElement, LengthForm, Place, ToNat;
    var content := [width] + bits;
    ScalarElement(0x87, form, content, suffix, depth);
    assert content[1..] == bits;
    PlaceValue(bits);
  }

  /** Times, identifiers and REAL are read by their own codecs, under these tags. */
  lemma OtherMeaning(form: seq<Byte>, content: seq<Byte>, suffix: seq<Byte>, depth: nat)
    requires LengthForm(form, |content|) && depth <= 64
    ensures var consumed := 1 + |form| + |content|;
            && DecodeElement([0x88] + form + content + suffix, depth) ==
               (match DecodeReal(content) case Err => Err case Ok(x) => Ok(Element(Real(x), consumed)))
            && DecodeElement([0x8c] + form + content + suffix, depth) ==
               (match DecodeTimeOfDay(content) case Err => Err case Ok(ms) => Ok(Element(BinaryTime(ms), consumed)))
            && DecodeElement([0x8f] + form + content + suffix, depth) ==
               (match DecodeOid(content) case Err => Err case Ok(oid) => Ok(Element(ObjectId(oid), consumed)))
            && DecodeElement([0x91] + form + content + suffix, depth) ==
               (match DecodeUtc(content) case Err => Err case Ok(u) => Ok(Element(UtcTime(u), consumed)))
  {
    hide DecodeElement, LengthForm, DecodeReal, DecodeTimeOfDay, DecodeOid, DecodeUtc;
    ScalarElement(0x88, form, content, suffix, depth);
    ScalarElement(0x8c, form, content, suffix, depth);
    ScalarElement(0x8f, form, content, suffix, depth);
    ScalarElement(0x91, form, content, suffix, depth);
  }

  /** No other tag is taken, and nothing below 64 levels. */
  lemma Refused(tag: Byte, form: seq<Byte>, content: seq<Byte>, suffix: seq<Byte>, depth: nat)
    requires LengthForm(form, |content|)
    ensures tag !in {0x80, 0x83, 0x84, 0x85, 0x86, 0x87, 0x88, 0x89, 0x8a, 0x8c, 0x8d, 0x8e, 0x8f, 0x90, 0x91, 0xa1, 0xa2} ==>
              DecodeElement([tag] + form + content + suffix, depth) == Err
    ensures depth > 64 ==> DecodeElement([tag] + form + content + suffix, depth) == Err
  {
    hide LengthForm;
    if tag != 0xa1 && tag != 0xa2 {
      ScalarElement(tag, form, content, suffix, depth);
    }
  }

  // ----- composites

  /** What an element means does not depend on what follows it. */
  lemma ElementLocal(data: seq<Byte>, suffix: seq<Byte>, depth: nat)
    requires DecodeElement(data, depth).Ok?
    ensures DecodeElement(data + suffix, depth) == DecodeElement(data, depth)
  {
    TLVLocal(data, suffix);
  }

  lemma TLVLocal(data: seq<Byte>, suffix: seq<Byte>)
    requires DecodeTLV(data).Ok?
    ensures DecodeTLV(data + suffix) == DecodeTLV(data)
  {
    assert (data + suffix)[1..] == data[1..] + suffix;
    LengthLocal(data[1..], suffix);
    var len := DecodeLength(data[1..]).value;
    var start := 1 + len.consumed;
    assert (data + suffix)[start..start + len.value] == data[start..start + len.value];
  }

  lemma LengthLocal(data: seq<Byte>, suffix: seq<Byte>)
    requires DecodeLength(data).Ok?
    ensures DecodeLength(data + suffix) == DecodeLength(data)
  {
    if data[0] >= 128 {
      var k := data[0] % 128;
      assert (data + suffix)[1..1 + k] == data[1..1 + k];
    }
  }

  function Join(parts: seq<seq<Byte>>): seq<Byte> {
    if parts == [] then [] else parts[0] + Join(parts[1..])
  }

  /** Each part is one element with this value, to its last octet. */
  predicate Denote(parts: seq<seq<Byte>>, vs: seq<DataValue>, depth: nat) {
    && |parts| == |vs|
    && forall i :: 0 <= i < |parts| ==> DecodeElement(parts[i], depth) == Ok(Element(vs[i], |parts[i]|))
  }

  /** Elements one after the other denote the list of their values, up to 65536 of them. */
  lemma {:induction false} ListMeaning(parts: seq<seq<Byte>>, vs: seq<DataValue>, depth: nat, count: nat)
    requires Denote(parts, vs, depth) && count <= 65536
    ensures DecodeList(Join(parts), depth, count) == if count + |vs| <= 65536 then Ok(vs) else Err
    decreases |parts|
  {
    hide DecodeElement;
    if parts != [] {
      var rest := Join(parts[1..]);
      ElementLocal(parts[0], rest, depth);
      assert DecodeElement(parts[0], depth) == Ok(Element(vs[0], |parts[0]|));
      assert (parts[0] + rest)[|parts[0]|..] == rest;
      if count + 1 <= 65536 {
        ListMeaning(parts[1..], vs[1..], depth, count + 1);
        assert vs == [vs[0]] + vs[1..];
      }
    }
  }

  /** An array or a structure denotes its elements in order, one level down. */
  lemma CompositeMeaning(form: seq<Byte>, parts: seq<seq<Byte>>, vs: seq<DataValue>, suffix: seq<Byte>, depth: nat)
    requires LengthForm(form, |Join(parts)|) && depth <= 64 && Denote(parts, vs, depth + 1)
    ensures var consumed := 1 + |form| + |Join(parts)|;
            && DecodeElement([0xa1] + form + Join(parts) + suffix, depth) ==
               (if |vs| <= 65536 then Ok(Element(Array(vs), consumed)) else Err)
            && DecodeElement([0xa2] + form + Join(parts) + suffix, depth) ==
               (if |vs| <= 65536 then Ok(Element(Structure(vs), consumed)) else Err)
  {
    hide DecodeTLV, DecodeList, LengthForm, Denote;
    ElementMeaning(0xa1, form, Join(parts), suffix);
    ElementMeaning(0xa2, form, Join(parts), suffix);
    ListMeaning(parts, vs, depth + 1, 0);
  }

  // ----- the one choice the encoder has

  /** TRUE is written as ff. */
  lemma TrueIsWritten()
    ensures Marshal(Boolean(true)) == Ok([0x83, 1, 0xff])
    ensures Marshal(Boolean(false)) == Ok([0x83, 1, 0])
  {
    assert EncodeTLV(0x83, [0xff]) == [0x83, 1, 0xff] && EncodeTLV(0x83, [0]) == [0x83, 1, 0];
  }
}
