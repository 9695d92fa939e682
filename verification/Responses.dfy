/**
 Confirmed responses, errors and rejects (internal/codec/response.go,
 internal/asn1util/raw.go) and the payload budget of server_pdusize.go.
 */
module Responses {
  import opened Bytes
  import opened Ber
  import opened Integers
  import opened Oid

  const CONFIRMED_RESPONSE_OVERHEAD := 16

  /** WrapContextTag: tags above 30 take the multi-octet form (X.690 section 8.1.2.4). */
  function Wrap(tag: int, constructed: bool, content: seq<Byte>): (bs: seq<Byte>)
  {
    var lead := if constructed then 0xa0 else 0x80;
    var t: nat := if tag < 0 then 0 else tag;
    (if t <= 30 then [lead + t] else [lead + 0x1f] + EncodeBase128(t)) + EncodeLength(|content|) + content
  }

  function ConfirmedResponse(id: Uint32, tag: int, constructed: bool, payload: seq<Byte>): (bs: seq<Byte>)
  {
    Wrap(1, true, EncodeTLV(0x02, EncodeInt(id)) + Wrap(tag, constructed, payload))
  }

  function ServiceError(class_: int, code: Int64): (bs: seq<Byte>)
  {
    EncodeTLV(0xa0, Wrap(class_, false, EncodeInt(code)))
  }

  function ConfirmedError(id: Uint32, class_: int, code: Int64): (bs: seq<Byte>)
  {
    Wrap(2, true, EncodeTLV(0x80, EncodeUnsigned(id)) + EncodeTLV(0xa2, ServiceError(class_, code)))
  }

  function RejectPdu(id: Uint32, kind: int, reason: Int64): (bs: seq<Byte>)
  {
    Wrap(4, true, EncodeTLV(0x80, EncodeUnsigned(id)) + Wrap(kind, false, EncodeInt(reason)))
  }

  function CancelError(id: Uint32, class_: int, code: Int64): (bs: seq<Byte>)
  {
    Wrap(7, true, EncodeTLV(0x80, EncodeUnsigned(id)) + EncodeTLV(0xa1, ServiceError(class_, code)))
  }

  function ConcludeResponse(): (bs: seq<Byte>) {
    Wrap(12, false, [])
  }

  function ResponseBudget(maxPdu: int): int {
    maxPdu - CONFIRMED_RESPONSE_OVERHEAD
  }

  // ----- sizes

  lemma ShortWrap(tag: nat, constructed: bool, content: seq<Byte>)
    requires tag <= 30
    ensures Wrap(tag, constructed, content) == EncodeTLV((if constructed then 0xa0 else 0x80) + tag, content)
  {
  }

  function TagSize(tag: int): nat {
    if tag <= 30 then 1 else 1 + |EncodeBase128(tag)|
  }

  lemma WrapSize(tag: int, constructed: bool, content: seq<Byte>)
    ensures |Wrap(tag, constructed, content)| == TagSize(tag) + LengthSize(|content|) + |content|
  {
    hide EncodeBase128, EncodeLength;
    EncodeLengthSize(|content|);
  }

  lemma TagSizeValues(tag: int)
    ensures tag <= 30 ==> TagSize(tag) == 1
    ensures 30 < tag < 128 ==> TagSize(tag) == 2
    ensures tag <= MAX_INT64 ==> TagSize(tag) <= 11
  {
    if tag > 30 {
      HighLeast(tag / 128, 0);
      HighLeast(tag / 128, 9);
      Pow128Nine();
    }
  }

  lemma Pow128Nine()
    ensures Pow128(9) == 0x8000_0000_0000_0000
    ensures Pow128(0) == 1
  {
    assert Pow128(3) == 0x20_0000;
    assert Pow128(6) == 0x400_0000_0000;
  }

  lemma IdSize(id: Uint32)
    ensures |EncodeInt(id)| <= 5
    ensures id >= 0x8000_0000 ==> |EncodeInt(id)| == 5
    ensures |EncodeUnsigned(id)| <= 5
    ensures EncodeInt(id) == EncodeUnsigned(id)
  {
    Pow256Values();
    IntWidth(id, 5);
    IntWidth(id, 4);
    UnsignedIsInt(id);
    assert Pow256(5 - 1) == 0x1_0000_0000;
  }

  lemma ConfirmedResponseSize(id: Uint32, tag: int, constructed: bool, payload: seq<Byte>)
    ensures var content := TLVSize(|EncodeInt(id)|) + TagSize(tag) + LengthSize(|payload|) + |payload|;
            |ConfirmedResponse(id, tag, constructed, payload)| == 1 + LengthSize(content) + content
  {
    hide EncodeTLV, Wrap, TagSize;
    var service := Wrap(tag, constructed, payload);
    var idTlv := EncodeTLV(0x02, EncodeInt(id));
    WrapSize(tag, constructed, payload);
    TLVLength(0x02, EncodeInt(id));
    WrapSize(1, true, idTlv + service);
    TagSizeValues(1);
  }

  /** Up to a PDU size of 65539, every payload within the budget fits, whatever the invoke ID and service tag. */
  lemma BudgetSound(maxPdu: int, id: Uint32, tag: int, constructed: bool, payload: seq<Byte>)
    requires maxPdu <= 65539 && tag < 128
    requires |payload| <= ResponseBudget(maxPdu)
    ensures |ConfirmedResponse(id, tag, constructed, payload)| <= maxPdu
  {
    hide EncodeInt, TagSize, LengthSize, ConfirmedResponse;
    ConfirmedResponseSize(id, tag, constructed, payload);
    IdSize(id);
    TagSizeValues(tag);
    LengthSizeValues(|EncodeInt(id)|);
    LengthSizeValues(|payload|);
    LengthSizeValues(TLVSize(|EncodeInt(id)|) + TagSize(tag) + LengthSize(|payload|) + |payload|);
  }

  /** Above it, a payload that fills the budget overruns it: large invoke ID, two-octet service tag. */
  lemma BudgetOverrun(maxPdu: int, id: Uint32, tag: int, constructed: bool, payload: seq<Byte>)
    requires maxPdu > 65539
    requires id >= 0x8000_0000 && 30 < tag < 128
    requires |payload| == ResponseBudget(maxPdu)
    ensures |ConfirmedResponse(id, tag, constructed, payload)| > maxPdu
  {
    hide EncodeInt, TagSize, LengthSize, ConfirmedResponse;
    ConfirmedResponseSize(id, tag, constructed, payload);
    IdSize(id);
    TagSizeValues(tag);
    LengthSizeValues(|EncodeInt(id)|);
    ThreeOctetLength(|payload|);
    LengthSizeValues(TLVSize(|EncodeInt(id)|) + TagSize(tag) + LengthSize(|payload|) + |payload|);
  }

  lemma ThreeOctetLength(n: nat)
    requires n >= 0x100
    ensures LengthSize(n) >= 3
  {
    Pow256Values();
    ByteCountLeast(n, 1);
  }

  /** The overhead constant is right exactly for PDU sizes up to 65539. */
  lemma BudgetExact(maxPdu: int)
    ensures maxPdu <= 65539 <==>
            forall id: Uint32, tag: int, constructed: bool, payload: seq<Byte> ::
              tag < 128 && |payload| <= ResponseBudget(maxPdu) ==> |ConfirmedResponse(id, tag, constructed, payload)| <= maxPdu
  {
    hide ConfirmedResponse;
    if maxPdu <= 65539 {
      forall id: Uint32, tag: int, constructed: bool, payload: seq<Byte> | tag < 128 && |payload| <= ResponseBudget(maxPdu)
        ensures |ConfirmedResponse(id, tag, constructed, payload)| <= maxPdu
      {
        BudgetSound(maxPdu, id, tag, constructed, payload);
      }
    } else {
      var payload: seq<Byte> := seq(ResponseBudget(maxPdu), _ => 0);
      BudgetOverrun(maxPdu, 0x8000_0000, 72, true, payload);
    }
  }

  lemma ServiceErrorSize(class_: int, code: Int64)
    requires class_ <= MAX_INT64
    ensures |ServiceError(class_, code)| <= 22
  {
    hide EncodeTLV, Wrap, TagSize, LengthSize;
    var inner := Wrap(class_, false, EncodeInt(code));
    WrapSize(class_, false, EncodeInt(code));
    TagSizeValues(class_);
    LengthSizeValues(|EncodeInt(code)|);
    TLVLength(0xa0, inner);
    LengthSizeValues(|inner|);
  }

  /** Errors and rejects stay far below the smallest PDU size that can be negotiated. */
  lemma ErrorSize(id: Uint32, class_: int, code: Int64, pdu: seq<Byte>)
    requires class_ <= MAX_INT64
    requires pdu == ConfirmedError(id, class_, code) || pdu == RejectPdu(id, class_, code) || pdu == CancelError(id, class_, code)
    ensures |pdu| <= 128
  {
    hide EncodeTLV, Wrap, ServiceError, TagSize, LengthSize, EncodeUnsigned;
    IdSize(id);
    var head := EncodeTLV(0x80, EncodeUnsigned(id));
    TLVLength(0x80, EncodeUnsigned(id));
    LengthSizeValues(|EncodeUnsigned(id)|);
    ServiceErrorSize(class_, code);
    LengthSizeValues(|ServiceError(class_, code)|);
    if pdu == RejectPdu(id, class_, code) {
      WrapSize(class_, false, EncodeInt(code));
      TagSizeValues(class_);
      LengthSizeValues(|EncodeInt(code)|);
      SmallWrap(4, head + Wrap(class_, false, EncodeInt(code)));
    } else if pdu == CancelError(id, class_, code) {
      TLVLength(0xa1, ServiceError(class_, code));
      SmallWrap(7, head + EncodeTLV(0xa1, ServiceError(class_, code)));
    } else {
      TLVLength(0xa2, ServiceError(class_, code));
      SmallWrap(2, head + EncodeTLV(0xa2, ServiceError(class_, code)));
    }
  }

  lemma SmallWrap(tag: nat, content: seq<Byte>)
    requires tag <= 30 && |content| <= 100
    ensures |Wrap(tag, true, content)| <= 128
  {
    hide Wrap;
    WrapSize(tag, true, content);
    LengthSizeValues(|content|);
  }
}
