/**
 Confirmed errors and rejects as the client reads them (internal/pdu/error.go).
 */
module ErrorWire {
  import opened Bytes
  import opened Results
  import opened Ber
  import opened Integers
  import opened Responses

  datatype ErrorInfo = ErrorInfo(id: nat, class_: int, code: int)

  /** What a field scan has seen so far; a reject may come without an invoke ID. */
  datatype Fields = Fields(info: ErrorInfo, hasId: bool, hasReason: bool)

  const NOTHING := Fields(ErrorInfo(0, 0, 0), false, false)

  /** The class is the tag, the code its content; an empty content leaves the code as it was. */
  function Choice(tag: Byte, content: seq<Byte>, info: ErrorInfo): (r: Result<ErrorInfo>)
  {
    var named := info.(class_ := tag - 0x80);
    if content == [] then Ok(named)
    else
      var code :- DecodeSigned(content, 4);
      Ok(named.(code := code))
  }

  function ParseErrorClass(data: seq<Byte>, info: ErrorInfo): (r: Result<ErrorInfo>)
  {
    if data == [] then Ok(info)
    else
      var tlv :- DecodeTLV(data);
      if tlv.consumed != |data| then Err else Choice(tlv.tag, tlv.content, info)
  }

  /** The first element with tag [0] decides; others are skipped. */
  function ParseServiceError(data: seq<Byte>, info: ErrorInfo): (r: Result<ErrorInfo>)
    decreases |data|
  {
    if data == [] then Ok(info)
    else
      var tlv :- DecodeTLV(data);
      if tlv.tag == 0xa0 then ParseErrorClass(tlv.content, info)
      else ParseServiceError(data[tlv.consumed..], info)
  }

  function ErrorField(tlv: Tlv, f: Fields): (r: Result<Fields>)
  {
    if tlv.tag == 0x80 then
      var id :- DecodeUnsigned(tlv.content, 4);
      Ok(f.(info := f.info.(id := id), hasId := true))
    else if tlv.tag == 0xa2 then
      var info :- ParseServiceError(tlv.content, f.info);
      Ok(f.(info := info))
    else Err
  }

  function RejectField(tlv: Tlv, f: Fields): (r: Result<Fields>)
  {
    if tlv.tag == 0x80 then
      var id :- DecodeUnsigned(tlv.content, 4);
      Ok(f.(info := f.info.(id := id), hasId := true))
    else if 0x81 <= tlv.tag <= 0x8b then
      var info :- Choice(tlv.tag, tlv.content, f.info);
      Ok(f.(info := info, hasReason := true))
    else Err
  }

  function ScanFields(data: seq<Byte>, f: Fields, field: (Tlv, Fields) -> Result<Fields>): (r: Result<Fields>)
    decreases |data|
  {
    if data == [] then Ok(f)
    else
      var tlv :- DecodeTLV(data);
      var g :- field(tlv, f);
      ScanFields(data[tlv.consumed..], g, field)
  }

  function DecodeConfirmedError(content: seq<Byte>): (r: Result<ErrorInfo>)
  {
    var f :- ScanFields(content, NOTHING, ErrorField);
    if !f.hasId then Err else Ok(f.info)
  }

  function DecodeReject(content: seq<Byte>): (r: Result<Fields>)
  {
    var f :- ScanFields(content, NOTHING, RejectField);
    if !f.hasReason then Err else Ok(f)
  }

  /** The offset loop of DecodeConfirmedError and DecodeRejectPDU. */
  method ScanLoop(content: seq<Byte>, field: (Tlv, Fields) -> Result<Fields>) returns (r: Result<Fields>)
    ensures r == ScanFields(content, NOTHING, field)
  {
    hide DecodeTLV;
    var f := NOTHING;
    var offset := 0;
    while offset < |content|
      invariant offset <= |content|
      invariant ScanFields(content[offset..], f, field) == ScanFields(content, NOTHING, field)
    {
      DecodeAtSuffix(content, offset);
      var tlv := DecodeTLVAt(content, offset);
      if tlv.Err? {
        return Err;
      }
      var g := field(tlv.value, f);
      if g.Err? {
        return Err;
      }
      assert content[offset..][tlv.value.consumed..] == content[offset + tlv.value.consumed..];
      offset := offset + tlv.value.consumed;
      f := g.value;
    }
    return Ok(f);
  }

  // ----- round trips

  lemma ScanStep(tag: Byte, content: seq<Byte>, rest: seq<Byte>, f: Fields, field: (Tlv, Fields) -> Result<Fields>)
    requires |content| < MAX_CONTENT
    ensures var g := field(Tlv(tag, content, TLVSize(|content|)), f);
            ScanFields(EncodeTLV(tag, content) + rest, f, field) == if g.Err? then Err else ScanFields(rest, g.value, field)
  {
    hide DecodeTLV, EncodeTLV;
    TLVRoundTrip(tag, content, rest);
    TLVLength(tag, content);
    assert (EncodeTLV(tag, content) + rest)[TLVSize(|content|)..] == rest;
  }

  lemma IdField(id: Uint32, rest: seq<Byte>, f: Fields, field: (Tlv, Fields) -> Result<Fields>)
    requires field == ErrorField || field == RejectField
    ensures ScanFields(EncodeTLV(0x80, EncodeUnsigned(id)) + rest, f, field) ==
            ScanFields(rest, f.(info := f.info.(id := id), hasId := true), field)
  {
    hide ScanFields, DecodeUnsigned, EncodeUnsigned, ParseServiceError, EncodeTLV;
    IdSize(id);
    ScanStep(0x80, EncodeUnsigned(id), rest, f, field);
    Pow256Values();
    UnsignedRoundTrip(id, 4);
  }

  predicate InInt32(v: int) {
    -0x8000_0000 <= v < 0x8000_0000
  }

  /** The decoder takes at most four octets, so exactly the 32-bit codes come back. */
  lemma CodeReadBack(tag: Byte, code: Int64, info: ErrorInfo)
    ensures Choice(tag, EncodeInt(code), info) == if InInt32(code) then Ok(info.(class_ := tag - 0x80, code := code)) else Err
  {
    hide EncodeInt, Signed;
    Pow256Values();
    IntContent(code);
    IntWidth(code, 4);
  }

  lemma ClassReadBack(class_: nat, code: Int64, info: ErrorInfo)
    requires class_ <= 30
    ensures ParseErrorClass(Wrap(class_, false, EncodeInt(code)), info) ==
            if InInt32(code) then Ok(info.(class_ := class_, code := code)) else Err
  {
    hide DecodeTLV, EncodeTLV, Wrap, Choice, EncodeInt;
    ShortWrap(class_, false, EncodeInt(code));
    TLVRoundTrip(0x80 + class_, EncodeInt(code), []);
    TLVLength(0x80 + class_, EncodeInt(code));
    assert EncodeTLV(0x80 + class_, EncodeInt(code)) + [] == EncodeTLV(0x80 + class_, EncodeInt(code));
    CodeReadBack(0x80 + class_, code, info);
  }

  lemma ServiceErrorReadBack(class_: int, code: Int64, info: ErrorInfo)
    requires class_ <= MAX_INT64
    ensures ParseServiceError(ServiceError(class_, code), info) == ParseErrorClass(Wrap(class_, false, EncodeInt(code)), info)
  {
    hide DecodeTLV, EncodeTLV, Wrap, ParseErrorClass, EncodeInt;
    var inner := Wrap(class_, false, EncodeInt(code));
    WrapSize(class_, false, EncodeInt(code));
    TagSizeValues(class_);
    LengthSizeValues(|EncodeInt(code)|);
    TLVRoundTrip(0xa0, inner, []);
    TLVLength(0xa0, inner);
    assert EncodeTLV(0xa0, inner) + [] == EncodeTLV(0xa0, inner);
  }

  /** A class that is not a single-octet tag number is never read back. */
  lemma ClassLost(class_: int, code: Int64, info: ErrorInfo)
    requires class_ <= MAX_INT64 && (class_ < 0 || class_ > 30)
    ensures var r := ParseErrorClass(Wrap(class_, false, EncodeInt(code)), info);
            r.Ok? ==> r.value.class_ != class_
  {
    hide EncodeInt, EncodeLength;
    var data := Wrap(class_, false, EncodeInt(code));
    assert data[0] == if class_ < 0 then 0x80 else 0x9f;
    if class_ == 31 {
      EncodeLengthSize(|EncodeInt(code)|);
      LengthSizeValues(|EncodeInt(code)|);
      assert data == [0x9f, 31] + EncodeLength(|EncodeInt(code)|) + EncodeInt(code);
      assert data[1..][0] == 31;
    }
  }

  /** The content of a confirmed error, behind the outer tag. */
  function ErrorContent(id: Uint32, class_: int, code: Int64): seq<Byte> {
    EncodeTLV(0x80, EncodeUnsigned(id)) + EncodeTLV(0xa2, ServiceError(class_, code))
  }

  lemma ErrorDecodes(id: Uint32, class_: int, code: Int64)
    requires class_ <= MAX_INT64
    ensures DecodeConfirmedError(ErrorContent(id, class_, code)) ==
            ParseErrorClass(Wrap(class_, false, EncodeInt(code)), ErrorInfo(id, 0, 0))
  {
    hide EncodeTLV, ServiceError, Wrap, EncodeUnsigned, ParseErrorClass, ParseServiceError, ScanFields;
    var last := EncodeTLV(0xa2, ServiceError(class_, code));
    var f := NOTHING.(info := ErrorInfo(id, 0, 0), hasId := true);
    IdField(id, last, NOTHING, ErrorField);
    ServiceErrorSize(class_, code);
    ServiceErrorReadBack(class_, code, f.info);
    ScanStep(0xa2, ServiceError(class_, code), [], f, ErrorField);
    assert last + [] == last;
    NoFields(ErrorField);
  }

  lemma NoFields(field: (Tlv, Fields) -> Result<Fields>)
    ensures forall f :: ScanFields([], f, field) == Ok(f)
  {
  }

  /** A code that needs more than four octets makes the whole error unreadable. */
  lemma CodeLost(id: Uint32, class_: nat, code: Int64)
    requires class_ <= 30 && !InInt32(code)
    ensures DecodeConfirmedError(ErrorContent(id, class_, code)) == Err
  {
    hide DecodeConfirmedError, ParseErrorClass, Wrap;
    ErrorDecodes(id, class_, code);
    ClassReadBack(class_, code, ErrorInfo(id, 0, 0));
  }

  /**
   An error reaches the client with its ID, class and code exactly when the class is a
   single-octet tag number and the code a 32-bit integer.
   */
  lemma ErrorRoundTrip(id: Uint32, class_: int, code: Int64)
    requires class_ <= MAX_INT64
    ensures DecodeConfirmedError(ErrorContent(id, class_, code)) == Ok(ErrorInfo(id, class_, code)) <==>
            (0 <= class_ <= 30 && InInt32(code))
  {
    hide DecodeConfirmedError, ParseErrorClass, Wrap;
    ErrorDecodes(id, class_, code);
    if 0 <= class_ <= 30 {
      ClassReadBack(class_, code, ErrorInfo(id, 0, 0));
    } else {
      ClassLost(class_, code, ErrorInfo(id, 0, 0));
    }
  }

  // ----- rejects

  lemma ReasonReadBack(kind: nat, reason: Int64, f: Fields)
    requires kind <= 30
    ensures ScanFields(Wrap(kind, false, EncodeInt(reason)), f, RejectField) ==
            RejectField(Tlv(0x80 + kind, EncodeInt(reason), TLVSize(|EncodeInt(reason)|)), f)
  {
    hide EncodeTLV, Wrap, ScanFields, EncodeInt, RejectField;
    var last := Wrap(kind, false, EncodeInt(reason));
    ShortWrap(kind, false, EncodeInt(reason));
    ScanStep(0x80 + kind, EncodeInt(reason), [], f, RejectField);
    assert last + [] == last;
    NoFields(RejectField);
  }

  /** A long-form tag starts with an octet no reject field has. */
  lemma LongKindRefused(kind: int, reason: Int64, f: Fields)
    requires kind > 30
    ensures ScanFields(Wrap(kind, false, EncodeInt(reason)), f, RejectField) == Err
  {
    hide EncodeInt, EncodeLength, DecodeLength;
    var data := Wrap(kind, false, EncodeInt(reason));
    assert data[0] == 0x9f;
  }

  /** A reject reaches the client with its ID, kind and reason exactly for the eleven kinds and 32-bit reasons. */
  lemma RejectRoundTrip(id: Uint32, kind: int, reason: Int64)
    ensures var content := EncodeTLV(0x80, EncodeUnsigned(id)) + Wrap(kind, false, EncodeInt(reason));
            DecodeReject(content) == Ok(Fields(ErrorInfo(id, kind, reason), true, true)) <==> (1 <= kind <= 11 && InInt32(reason))
  {
    hide EncodeTLV, Wrap, EncodeUnsigned, ScanFields, EncodeInt, Choice;
    var f := NOTHING.(info := ErrorInfo(id, 0, 0), hasId := true);
    IdField(id, Wrap(kind, false, EncodeInt(reason)), NOTHING, RejectField);
    if kind > 30 {
      LongKindRefused(kind, reason, f);
    } else {
      var k := if kind < 0 then 0 else kind;
      NegativeTag(kind, EncodeInt(reason));
      ReasonReadBack(k, reason, f);
      CodeReadBack(0x80 + k, reason, f.info);
    }
  }

  lemma NegativeTag(tag: int, content: seq<Byte>)
    ensures tag < 0 ==> Wrap(tag, false, content) == Wrap(0, false, content)
  {
  }
}
