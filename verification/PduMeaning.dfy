/**
 What the octets of PDUs denote, for every form the readers accept: elements as
 Go's encoding/asn1 reads them (internal/codec/unmarshal.go), errors and rejects
 (internal/pdu/error.go), name lists (internal/pdu/getnamelist.go) and file
 chunks (internal/pdu/file.go), and the fixed answers of the server
 (internal/serverconn/conn.go).
 */
module PduMeaning {
  import opened Bytes
  import opened Results
  import opened Ber
  import opened Integers
  import opened Oid
  import opened Meaning
  import opened Envelope
  import opened Responses
  import opened Names
  import E = ErrorWire
  import W = NameListWire
  import F = Files
  import S = ServerConn

  // ----- elements in their one minimal form

  /** A length is accepted exactly in its minimal form, up to 31 bits. */
  lemma LengthExactly(data: seq<Byte>, l: nat, n: nat)
    ensures ParseLength(data) == Ok(Length(l, n)) <==> l <= MAX_INT32 && n == LengthSize(l) && EncodeLength(l) <= data
  {
    hide ParseLength, EncodeLength;
    if l <= MAX_INT32 && EncodeLength(l) <= data {
      ParseLengthInverts(l, data[|EncodeLength(l)|..]);
      assert data == EncodeLength(l) + data[|EncodeLength(l)|..];
    }
    if ParseLength(data) == Ok(Length(l, n)) {
      LengthIsMinimal(data);
    }
  }

  lemma LengthIsMinimal(data: seq<Byte>)
    requires ParseLength(data).Ok?
    ensures var l := ParseLength(data).value;
            l.value <= MAX_INT32 && l.consumed == LengthSize(l.value) && EncodeLength(l.value) <= data
  {
    hide ToNat, Fixed, ByteCount;
    if data[0] < 0x80 {
      assert EncodeLength(data[0]) == [data[0]];
    } else {
      var k := data[0] - 0x80;
      var octets := data[1..1 + k];
      MinimalOctets(octets);
      assert data[..1 + k] == [data[0]] + octets;
    }
  }

  lemma MinimalOctets(octets: seq<Byte>)
    requires octets != [] && octets[0] != 0
    ensures ByteCount(ToNat(octets)) == |octets| && Fixed(ToNat(octets), |octets|) == octets
  {
    var k := |octets|;
    FixedToNat(octets);
    ToNatBound(octets);
    ByteCountLeast(ToNat(octets), k);
    LeadingPlace(octets);
    ByteCountLeast(ToNat(octets), k - 1);
  }

  lemma LeadingPlace(octets: seq<Byte>)
    requires octets != [] && octets[0] != 0
    ensures ToNat(octets) >= Pow256(|octets| - 1)
  {
    Integers.LeadingOctet(octets);
    MulMonotone(1, octets[0], Pow256(|octets| - 1));
  }

  /** What was read of a number and its digits so far are those of the number, if it does not start with a bare continuation. */
  lemma {:induction false} DigitsReadBack(data: seq<Byte>, v: nat, n: nat)
    requires Scan(data, v, n).Ok? && (v > 0 || data[0] != 0x80)
    ensures var g := Scan(data, v, n).value;
            High(v) + data[..g.consumed - n] == EncodeBase128(g.value)
    decreases |data|
  {
    hide High, EncodeBase128;
    var g := Scan(data, v, n).value;
    if data[0] < 128 {
      LastDigit(v, data[0]);
      assert data[..1] == [data[0]];
    } else {
      var w := v * 128 + data[0] % 128;
      MoreDigits(v, data[0]);
      DigitsReadBack(data[1..], w, n + 1);
      Rejoin(High(v), data, g.consumed - n);
    }
  }

  lemma Rejoin(front: seq<Byte>, data: seq<Byte>, k: nat)
    requires 1 <= k <= |data|
    ensures front + [data[0]] + data[1..][..k - 1] == front + data[..k]
  {
    assert data[..k] == [data[0]] + data[1..][..k - 1];
  }

  lemma LastDigit(v: nat, b: Byte)
    requires b < 128
    ensures High(v) + [b] == EncodeBase128(v * 128 + b)
  {
    NextDigit(v, b);
  }

  lemma NextDigit(v: nat, b: Byte)
    requires b < 128
    ensures (v * 128 + b) / 128 == v && (v * 128 + b) % 128 == b
  {
  }

  lemma MoreDigits(v: nat, b: Byte)
    requires b >= 128 && (v > 0 || b != 0x80)
    ensures v * 128 + b % 128 > 0 && High(v * 128 + b % 128) == High(v) + [b]
  {
    LowBits(b);
    NextDigit(v, b - 128);
  }

  /** A tag number is accepted exactly in its minimal form, from 31 up to 31 bits. */
  lemma TagNumberExactly(data: seq<Byte>, tag: nat, n: nat)
    ensures ParseTagNumber(data) == Ok(Group(tag, n)) <==> 31 <= tag <= MAX_INT32 && n == |EncodeBase128(tag)| && EncodeBase128(tag) <= data
  {
    hide ParseTagNumber, EncodeBase128;
    if 31 <= tag <= MAX_INT32 && EncodeBase128(tag) <= data {
      TagNumberInverts(tag, data[|EncodeBase128(tag)|..]);
      assert data == EncodeBase128(tag) + data[|EncodeBase128(tag)|..];
    }
    if ParseTagNumber(data) == Ok(Group(tag, n)) {
      TagNumberIsMinimal(data);
    }
  }

  lemma TagNumberIsMinimal(data: seq<Byte>)
    requires ParseTagNumber(data).Ok?
    ensures var g := ParseTagNumber(data).value;
            31 <= g.value <= MAX_INT32 && g.consumed == |EncodeBase128(g.value)| && EncodeBase128(g.value) <= data
  {
    hide EncodeBase128;
    DigitsReadBack(data, 0, 0);
    var g := DecodeBase128(data).value;
    assert High(0) + data[..g.consumed] == data[..g.consumed];
  }

  /** A PDU is one element with a tag number below 31 and nothing behind it. */
  lemma UnwrapExactly(tag: nat, constructed: bool, content: seq<Byte>, rest: seq<Byte>)
    requires tag <= MAX_INT32 && |content| <= MAX_INT32
    ensures var r := UnwrapPdu(Wrap(tag, constructed, content) + rest);
            && (r.Ok? <==> tag <= 30 && rest == [])
            && (r.Ok? ==> r.value == Raw((if constructed then 0xa0 else 0x80) + tag, tag, content))
  {
    hide ParseRaw, Wrap;
    WrapInverts(tag, constructed, content, rest);
  }

  /** The invoke ID a reader dispatches on: the first element, an unsigned of 32 bits under either of two tags. */
  lemma InvokeIDMeaning(tag: Byte, form: seq<Byte>, id: seq<Byte>, rest: seq<Byte>)
    requires LengthForm(form, |id|)
    ensures ExtractInvokeID(El(tag, form, id) + rest) ==
            if (tag == 0x02 || tag == 0x80) && IsUnsigned32(id) then Ok(Place(id)) else Err
  {
    hide DecodeTLV, LengthForm, DecodeUnsigned, Place;
    ElementMeaning(tag, form, id, rest);
    UnsignedMeaning(id, 4);
  }

  predicate IsUnsigned32(content: seq<Byte>) {
    content != [] && content[0] < 128 && (|content| <= 4 || (content[0] == 0 && |content| == 5))
  }

  /** The envelope of a response: a minimal INTEGER of 32 bits, one service element, nothing else. */
  lemma EnvelopeMeaning(octets: seq<Byte>, tag: nat, constructed: bool, payload: seq<Byte>, rest: seq<Byte>)
    requires |octets| <= MAX_INT32 && tag <= MAX_INT32 && |payload| <= MAX_INT32
    ensures var r := UnmarshalEnvelope(EncodeTLV(0x02, octets) + (Wrap(tag, constructed, payload) + rest));
            && (r.Ok? <==> 1 <= |octets| <= 8 && !Redundant(octets) && octets[0] < 128 && Place(octets) <= 0xffff_ffff && rest == [])
            && (r.Ok? ==> r.value.id == Place(octets) && r.value.service.number == tag && r.value.service.content == payload)
  {
    hide ParseRaw, EncodeTLV, Wrap, Place, ToNat, Redundant;
    TLVInverts(0x02, octets, Wrap(tag, constructed, payload) + rest);
    WrapInverts(tag, constructed, payload, rest);
    if octets != [] {
      PlaceValue(octets);
      SignedRange(octets);
    }
  }

  // ----- errors and rejects

  /** The code a class element carries: two's complement of one to four octets, or none. */
  lemma ChoiceMeaning(tag: Byte, content: seq<Byte>, info: E.ErrorInfo)
    ensures var r := E.Choice(tag, content, info);
            && (r.Ok? <==> |content| <= 4)
            && (r.Ok? ==> r.value.id == info.id && r.value.class_ == tag - 0x80
                          && (if content == [] then r.value.code == info.code else TwosComplement(content, r.value.code)))
  {
    hide TwosComplement, DecodeSigned;
    SignedMeaning(content, 4);
  }

  /** A service error: the element with tag [0] holds the class; elements before it are skipped, elements behind it not looked at. */
  lemma ServiceErrorMeaning(tag: Byte, form: seq<Byte>, content: seq<Byte>, rest: seq<Byte>, info: E.ErrorInfo)
    requires LengthForm(form, |content|)
    ensures E.ParseServiceError(El(tag, form, content) + rest, info) ==
            if tag == 0xa0 then E.ParseErrorClass(content, info) else E.ParseServiceError(rest, info)
    ensures E.ParseServiceError([], info) == Ok(info)
    ensures E.ParseErrorClass(El(tag, form, content), info) == E.Choice(tag, content, info)
    ensures rest != [] ==> E.ParseErrorClass(El(tag, form, content) + rest, info) == Err
  {
    hide DecodeTLV, LengthForm, E.Choice;
    ElementMeaning(tag, form, content, rest);
    ElementMeaning(tag, form, content, []);
    assert El(tag, form, content) + [] == El(tag, form, content);
    assert (El(tag, form, content) + rest)[1 + |form| + |content|..] == rest;
  }

  lemma FieldScanned(tag: Byte, form: seq<Byte>, content: seq<Byte>, rest: seq<Byte>, f: E.Fields, field: (Tlv, E.Fields) -> Result<E.Fields>)
    requires LengthForm(form, |content|)
    ensures var g := field(Tlv(tag, content, 1 + |form| + |content|), f);
            E.ScanFields(El(tag, form, content) + rest, f, field) == if g.Err? then Err else E.ScanFields(rest, g.value, field)
  {
    hide DecodeTLV, LengthForm;
    ElementMeaning(tag, form, content, rest);
    ElHead(tag, form, content, rest);
    assert (El(tag, form, content) + rest)[1 + |form| + |content|..] == rest;
  }

  /** A confirmed error: the invoke ID under [0], the service error under [2]. */
  lemma ErrorMeaning(i: seq<Byte>, id: seq<Byte>, s: seq<Byte>, service: seq<Byte>)
    requires LengthForm(i, |id|) && LengthForm(s, |service|)
    ensures E.DecodeConfirmedError(El(0x80, i, id) + El(0xa2, s, service)) ==
            if IsUnsigned32(id) then E.ParseServiceError(service, E.ErrorInfo(Place(id), 0, 0)) else Err
    ensures E.DecodeConfirmedError(El(0xa2, s, service)) == Err
  {
    hide LengthForm, DecodeUnsigned, Place, E.ScanFields, E.ParseServiceError, El;
    var last := El(0xa2, s, service);
    FieldScanned(0x80, i, id, last, E.NOTHING, E.ErrorField);
    UnsignedMeaning(id, 4);
    if IsUnsigned32(id) {
      FieldScanned(0xa2, s, service, [], E.NOTHING.(info := E.ErrorInfo(Place(id), 0, 0), hasId := true), E.ErrorField);
    }
    FieldScanned(0xa2, s, service, [], E.NOTHING, E.ErrorField);
    assert last + [] == last;
    E.NoFields(E.ErrorField);
    NoIdGained(service);
  }

  lemma NoIdGained(service: seq<Byte>)
    ensures var g := E.ErrorField(Tlv(0xa2, service, 0), E.NOTHING); g.Ok? ==> !g.value.hasId
  {
  }

  /** A reject: the kind is the tag from [1] to [11], the reason its content; the invoke ID may be missing. */
  lemma RejectMeaning(i: seq<Byte>, id: seq<Byte>, tag: Byte, r: seq<Byte>, reason: seq<Byte>)
    requires LengthForm(i, |id|) && LengthForm(r, |reason|) && tag != 0x80
    ensures var info := E.Choice(tag, reason, E.ErrorInfo(Place(id), 0, 0));
            E.DecodeReject(El(0x80, i, id) + El(tag, r, reason)) ==
            if IsUnsigned32(id) && 0x81 <= tag <= 0x8b && info.Ok? then Ok(E.Fields(info.value, true, true)) else Err
    ensures var info := E.Choice(tag, reason, E.ErrorInfo(0, 0, 0));
            E.DecodeReject(El(tag, r, reason)) ==
            if 0x81 <= tag <= 0x8b && info.Ok? then Ok(E.Fields(info.value, false, true)) else Err
  {
    hide LengthForm, DecodeUnsigned, Place, E.ScanFields, E.Choice, El;
    var last := El(tag, r, reason);
    FieldScanned(0x80, i, id, last, E.NOTHING, E.RejectField);
    UnsignedMeaning(id, 4);
    if IsUnsigned32(id) {
      FieldScanned(tag, r, reason, [], E.NOTHING.(info := E.ErrorInfo(Place(id), 0, 0), hasId := true), E.RejectField);
    }
    FieldScanned(tag, r, reason, [], E.NOTHING, E.RejectField);
    assert last + [] == last;
    E.NoFields(E.RejectField);
  }

  // ----- name lists

  /** Identifiers in any length form follow each other, each of at most 1024 octets, at most 100000 of them. */
  lemma IdentifierMeaning(form: seq<Byte>, name: seq<Byte>, rest: seq<Byte>, count: nat)
    requires LengthForm(form, |name|)
    ensures var others := W.DecodeIdentifiers(rest, count + 1);
            W.DecodeIdentifiers(El(0x1a, form, name) + rest, count) ==
            if |name| > 1024 || count >= 100000 || others.Err? then Err else Ok([name] + others.value)
  {
    hide ReadField, LengthForm;
    FieldMeaning(0x1a, form, name, rest, 0x1a);
    ElHead(0x1a, form, name, rest);
  }

  /** More follows unless one zero octet says otherwise. */
  lemma NameListMeaning(l: seq<Byte>, list: seq<Byte>, m: seq<Byte>, more: seq<Byte>)
    requires LengthForm(l, |list|) && LengthForm(m, |more|)
    ensures var names := W.DecodeIdentifiers(list, 0);
            && W.Unmarshal(El(0xa0, l, list)) == (if names.Err? then Err else Ok(Page(names.value, true)))
            && W.Unmarshal(El(0xa0, l, list) + El(0x81, m, more)) == (if names.Err? then Err else Ok(Page(names.value, more != [0])))
  {
    hide ReadField, LengthForm, W.DecodeIdentifiers;
    LastField(0xa0, l, list);
    FieldMeaning(0xa0, l, list, El(0x81, m, more), 0xa0);
    LastField(0x81, m, more);
    ElHead(0x81, m, more, []);
    assert El(0x81, m, more) != [];
  }

  // ----- file chunks

  /** The fields of a chunk in any order; more follows unless the last statement about it is a zero octet. */
  lemma ChunkMeaning(tag: Byte, form: seq<Byte>, content: seq<Byte>, rest: seq<Byte>, acc: F.Chunk)
    requires LengthForm(form, |content|)
    ensures F.ScanRead(El(tag, form, content) + rest, acc) ==
            if tag == 0x80 then F.ScanRead(rest, F.Chunk(content, acc.more))
            else if tag == 0x81 then F.ScanRead(rest, F.Chunk(acc.data, if content == [] then acc.more else content[0] != 0))
            else Err
    ensures F.ScanRead([], acc) == Ok(acc) && F.UnmarshalRead([]) == Ok(F.Chunk([], true))
  {
    hide DecodeTLV, LengthForm;
    ElementMeaning(tag, form, content, rest);
    ElHead(tag, form, content, rest);
    assert (El(tag, form, content) + rest)[1 + |form| + |content|..] == rest;
  }

  // ----- the fixed answers of the server

  /** A conclude request is answered with the empty conclude response. */
  lemma ConcludeAnswered(maxPdu: int, size: nat)
    requires S.WithinLimit(size, maxPdu)
    ensures S.Reaction(maxPdu, S.Pdu(size, S.Conclude)) == [[0x8c, 0]]
    ensures S.Ends(maxPdu, S.Pdu(size, S.Conclude))
  {
    assert ConcludeResponse() == [0x8c, 0];
  }

  /** A cancel request is answered with an error of class 10 and code 1 under the ID it named, in a cancel-error PDU. */
  lemma CancelAnswered(maxPdu: int, size: nat, id: Uint32)
    requires S.WithinLimit(size, maxPdu)
    ensures |S.Reaction(maxPdu, S.Pdu(size, S.Cancel(id)))| == 1 && !S.Ends(maxPdu, S.Pdu(size, S.Cancel(id)))
    ensures var pdu := S.Reaction(maxPdu, S.Pdu(size, S.Cancel(id)))[0];
            && InvokeIDOf(pdu) == Ok(id)
            && UnwrapPdu(pdu).Ok? && UnwrapPdu(pdu).value.lead == 0xa7
            && ReadField(UnwrapPdu(pdu).value.content, 0x80).Ok?
            && var last := ReadField(ReadField(UnwrapPdu(pdu).value.content, 0x80).value.rest, 0xa1);
            && last.Ok? && last.value.rest == []
            && E.ParseServiceError(last.value.content, E.ErrorInfo(id, 0, 0)) == Ok(E.ErrorInfo(id, 10, 1))
  {
    hide Wrap, EncodeTLV, UnwrapPdu, InvokeIDOf, EncodeUnsigned, ReadField, ServiceError, E.ParseServiceError, E.ParseErrorClass, EncodeInt;
    var pdu := CancelError(id, 10, 1);
    var error := ServiceError(10, 1);
    ErrorSize(id, 10, 1, pdu);
    InvokeIDReadBack(7, 0x80, id, EncodeTLV(0xa1, error), pdu);
    IdSize(id);
    ReadFieldRoundTrip(0x80, EncodeUnsigned(id), EncodeTLV(0xa1, error));
    ServiceErrorSize(10, 1);
    ReadLastField(0xa1, error);
    E.ServiceErrorReadBack(10, 1, E.ErrorInfo(id, 0, 0));
    E.ClassReadBack(10, 1, E.ErrorInfo(id, 0, 0));
  }

  /** A malformed confirmed request is answered with one reject. */
  lemma BadRequestAnswered(maxPdu: int, size: nat)
    requires S.WithinLimit(size, maxPdu)
    ensures S.Reaction(maxPdu, S.Pdu(size, S.BadConfirmed)) == [RejectPdu(0, 1, 0)] && !S.Ends(maxPdu, S.Pdu(size, S.BadConfirmed))
  {
  }

  /** Other PDUs, and any PDU above the negotiated size, get no answer and do not end the association. */
  lemma Unanswered(maxPdu: int, size: nat, kind: S.Kind)
    ensures !S.WithinLimit(size, maxPdu) || kind in {S.Undecodable, S.BadCancel, S.Unexpected} ==>
              S.Reaction(maxPdu, S.Pdu(size, kind)) == [] && !S.Ends(maxPdu, S.Pdu(size, kind))
    ensures S.Reaction(maxPdu, S.Finish) == [] && S.Ends(maxPdu, S.Finish)
    ensures S.Reaction(maxPdu, S.Garbage) == [] && S.Ends(maxPdu, S.Garbage)
  {
  }

  /** A handler that fails without a service error is reported as class 7, code 1; an answer that is too long as class 3, code 0. */
  lemma FailureCodes(maxPdu: int, id: Uint32, tag: int, constructed: bool, bytes: seq<Byte>)
    requires S.MIN_PDU_SIZE <= maxPdu <= MAX_INT32
    ensures UnwrapPdu(S.ConfirmedReply(maxPdu, id, S.OtherFailure)).Ok?
    ensures E.DecodeConfirmedError(UnwrapPdu(S.ConfirmedReply(maxPdu, id, S.OtherFailure)).value.content) == Ok(E.ErrorInfo(id, 7, 1))
    ensures |ConfirmedResponse(id, tag, constructed, bytes)| > maxPdu ==>
              var reply := UnwrapPdu(S.ConfirmedReply(maxPdu, id, S.Payload(tag, constructed, bytes)));
              reply.Ok? && E.DecodeConfirmedError(reply.value.content) == Ok(E.ErrorInfo(id, 3, 0))
  {
    hide UnwrapPdu, InvokeIDOf, E.DecodeConfirmedError, ConfirmedResponse, ConfirmedError, UnmarshalEnvelope;
    S.ReplyOutcome(maxPdu, id, S.OtherFailure);
    S.ReplyOutcome(maxPdu, id, S.Payload(tag, constructed, bytes));
  }
}
