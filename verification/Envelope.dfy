/**
 Reading PDUs back: one BER element as Go's encoding/asn1 takes it into a
 RawValue, the outer PDU tag and the confirmed envelope (internal/codec/unmarshal.go),
 and the invoke ID the reader dispatches on (internal/pdu/confirmed.go).
 */
module Envelope {
  import opened Bytes
  import opened Results
  import opened Ber
  import opened Integers
  import opened Oid
  import opened Responses

  const MAX_INT32 := 0x7FFF_FFFF

  /** An element: its identifier octet, its tag number and its content. */
  datatype Raw = Raw(lead: Byte, number: nat, content: seq<Byte>)

  datatype Parsed = Parsed(raw: Raw, rest: seq<Byte>)

  /** A tag number above 30: base 128, minimal, 31 bits. */
  function ParseTagNumber(data: seq<Byte>): (r: Result<Group>)
    ensures r.Ok? ==> 1 <= r.value.consumed <= |data|
  {
    var g :- DecodeBase128(data);
    if data[0] == 0x80 || g.value < 0x1f || g.value > MAX_INT32 then Err else Ok(g)
  }

  /** A definite length: minimal, up to four octets, 31 bits. */
  function ParseLength(data: seq<Byte>): (r: Result<Length>)
    ensures r.Ok? ==> 1 <= r.value.consumed <= |data|
  {
    if data == [] then Err
    else if data[0] < 0x80 then Ok(Length(data[0], 1))
    else
      var k := data[0] - 0x80;
      if k == 0 || k > 4 || |data| < 1 + k then Err
      else
        var l := ToNat(data[1..1 + k]);
        if data[1] == 0 || l < 0x80 || l > MAX_INT32 then Err else Ok(Length(l, 1 + k))
  }

  function ParseContent(lead: Byte, number: nat, data: seq<Byte>): (r: Result<Parsed>)
  {
    var len :- ParseLength(data);
    if len.consumed + len.value > |data| then Err
    else Ok(Parsed(Raw(lead, number, data[len.consumed..len.consumed + len.value]), data[len.consumed + len.value..]))
  }

  /** asn1util.UnmarshalRaw. */
  function ParseRaw(data: seq<Byte>): (r: Result<Parsed>)
  {
    if data == [] then Err
    else if data[0] % 0x20 != 0x1f then ParseContent(data[0], data[0] % 0x20, data[1..])
    else
      var g :- ParseTagNumber(data[1..]);
      ParseContent(data[0], g.value, data[1 + g.consumed..])
  }

  /** codec.UnwrapPdu: one element, nothing behind it, a tag number below 31. */
  function UnwrapPdu(data: seq<Byte>): (r: Result<Raw>)
  {
    var p :- ParseRaw(data);
    if p.rest != [] || p.raw.number > 30 then Err else Ok(p.raw)
  }

  datatype Service = Service(id: Uint32, service: Raw)

  /** unmarshalConfirmedEnvelope: an INTEGER in the Unsigned32 range, then one element. */
  function UnmarshalEnvelope(content: seq<Byte>): (r: Result<Service>)
  {
    var first :- ParseRaw(content);
    var octets := first.raw.content;
    if first.raw.lead != 0x02 || octets == [] || Redundant(octets) || |octets| > 8 then Err
    else if Signed(octets) < 0 || Signed(octets) > MAX_UINT32 then Err
    else
      var second :- ParseRaw(first.rest);
      if second.rest != [] then Err else Ok(Service(Signed(octets), second.raw))
  }

  /** pdu.ExtractInvokeID. */
  function ExtractInvokeID(content: seq<Byte>): (r: Result<nat>)
  {
    var tlv :- DecodeTLV(content);
    if tlv.tag == 0x02 || tlv.tag == 0x80 then DecodeUnsigned(tlv.content, 4) else Err
  }

  /** The invoke ID the reader finds in a PDU. */
  function InvokeIDOf(pdu: seq<Byte>): (r: Result<nat>)
  {
    var outer :- UnwrapPdu(pdu);
    ExtractInvokeID(outer.content)
  }

  // ----- lengths and tag numbers

  lemma LeadingOctet(l: nat, k: nat)
    requires l > 0 && k == ByteCount(l)
    ensures k > 0 && Fixed(l, k)[0] != 0
  {
    ByteCountLeast(l, 0);
    ByteCountLeast(l, k);
    ByteCountLeast(l, k - 1);
    ToNatFixed(l, k);
  }

  lemma ParseLengthInverts(l: nat, rest: seq<Byte>)
    requires l <= MAX_INT32
    ensures ParseLength(EncodeLength(l) + rest) == Ok(Length(l, LengthSize(l)))
  {
    hide ToNat, Fixed, ByteCount;
    if l >= 0x80 {
      LongLengthInverts(l, EncodeLength(l) + rest, rest);
    }
  }

  lemma LongLengthInverts(l: nat, data: seq<Byte>, rest: seq<Byte>)
    requires 0x80 <= l <= MAX_INT32 && data == EncodeLength(l) + rest
    ensures ParseLength(data) == Ok(Length(l, LengthSize(l)))
  {
    hide ToNat, Fixed, EncodeLength, ByteCount;
    var k := ByteCount(l);
    Pow256Values();
    ByteCountLeast(l, 4);
    LongForm(l, rest);
    LeadingOctet(l, k);
    ByteCountLeast(l, k);
    ToNatFixed(l, k);
    assert data[1] == data[1..1 + k][0];
  }

  /** The first group of a number is not a bare continuation octet. */
  lemma {:induction false} FirstGroup(w: nat)
    requires w > 0
    ensures |High(w)| > 0 && High(w)[0] != 0x80
  {
    if w >= 128 {
      FirstGroup(w / 128);
    }
  }

  lemma TagNumberInverts(tag: nat, rest: seq<Byte>)
    requires 30 < tag <= MAX_INT32
    ensures ParseTagNumber(EncodeBase128(tag) + rest) == Ok(Group(tag, |EncodeBase128(tag)|))
  {
    hide DecodeBase128;
    Pow128Values();
    Base128RoundTrip(tag, rest);
    if tag >= 128 {
      FirstGroup(tag / 128);
    }
  }

  lemma Pow128Values()
    ensures Pow128(6) == 0x400_0000_0000
  {
    assert Pow128(3) == 0x20_0000;
  }

  // ----- elements

  lemma ContentInverts(lead: Byte, number: nat, content: seq<Byte>, rest: seq<Byte>)
    requires |content| <= MAX_INT32
    ensures ParseContent(lead, number, EncodeLength(|content|) + content + rest) == Ok(Parsed(Raw(lead, number, content), rest))
  {
    hide ParseLength, EncodeLength;
    ParseLengthInverts(|content|, content + rest);
    EncodeLengthSize(|content|);
    assert EncodeLength(|content|) + content + rest == EncodeLength(|content|) + (content + rest);
  }

  function Lead(constructed: bool): Byte {
    if constructed then 0xa0 else 0x80
  }

  /** What WrapContextTag wrote is read back, short or long tag form, in front of any suffix. */
  lemma WrapInverts(tag: nat, constructed: bool, content: seq<Byte>, rest: seq<Byte>)
    requires tag <= MAX_INT32 && |content| <= MAX_INT32
    ensures var lead := Lead(constructed) + (if tag <= 30 then tag else 0x1f);
            ParseRaw(Wrap(tag, constructed, content) + rest) == Ok(Parsed(Raw(lead, tag, content), rest))
  {
    hide ParseContent, ParseTagNumber, EncodeLength, EncodeBase128;
    var data := Wrap(tag, constructed, content) + rest;
    var body := EncodeLength(|content|) + content + rest;
    if tag <= 30 {
      assert data[1..] == body;
      ContentInverts(data[0], tag, content, rest);
    } else {
      var digits := EncodeBase128(tag);
      assert data[1..] == digits + body;
      assert data[1 + |digits|..] == body;
      TagNumberInverts(tag, body);
      ContentInverts(data[0], tag, content, rest);
    }
  }

  lemma TLVInverts(tag: Byte, content: seq<Byte>, rest: seq<Byte>)
    requires tag % 0x20 != 0x1f && |content| <= MAX_INT32
    ensures ParseRaw(EncodeTLV(tag, content) + rest) == Ok(Parsed(Raw(tag, tag % 0x20, content), rest))
  {
    hide ParseContent, EncodeLength;
    var data := EncodeTLV(tag, content) + rest;
    assert data[1..] == EncodeLength(|content|) + content + rest;
    ContentInverts(tag, tag % 0x20, content, rest);
  }

  lemma UnwrapInverts(tag: nat, content: seq<Byte>)
    requires tag <= 30 && |content| <= MAX_INT32
    ensures UnwrapPdu(Wrap(tag, true, content)) == Ok(Raw(0xa0 + tag, tag, content))
  {
    hide ParseRaw, Wrap;
    WrapInverts(tag, true, content, []);
    assert Wrap(tag, true, content) + [] == Wrap(tag, true, content);
  }

  lemma WrapBounds(tag: int, constructed: bool, content: seq<Byte>)
    ensures |content| < |Wrap(tag, constructed, content)|
  {
  }

  // ----- whole PDUs

  lemma IdReadBack(tag: Byte, id: Uint32, rest: seq<Byte>)
    requires tag == 0x02 || tag == 0x80
    ensures ExtractInvokeID(EncodeTLV(tag, EncodeUnsigned(id)) + rest) == Ok(id)
  {
    hide DecodeTLV, EncodeTLV, EncodeUnsigned, DecodeUnsigned;
    IdSize(id);
    TLVRoundTrip(tag, EncodeUnsigned(id), rest);
    Pow256Values();
    UnsignedRoundTrip(id, 4);
  }

  /** A PDU whose first element is the invoke ID gives that ID back. */
  lemma InvokeIDReadBack(tag: nat, idTag: Byte, id: Uint32, rest: seq<Byte>, pdu: seq<Byte>)
    requires tag <= 30 && (idTag == 0x02 || idTag == 0x80)
    requires pdu == Wrap(tag, true, EncodeTLV(idTag, EncodeUnsigned(id)) + rest) && |pdu| <= MAX_INT32
    ensures UnwrapPdu(pdu) == Ok(Raw(0xa0 + tag, tag, EncodeTLV(idTag, EncodeUnsigned(id)) + rest))
    ensures InvokeIDOf(pdu) == Ok(id)
  {
    hide EncodeTLV, Wrap, UnwrapPdu, ExtractInvokeID, EncodeUnsigned;
    var content := EncodeTLV(idTag, EncodeUnsigned(id)) + rest;
    WrapBounds(tag, true, content);
    UnwrapInverts(tag, content);
    IdReadBack(idTag, id, rest);
  }

  /** A tag number the reader has no room for makes the element unreadable. */
  lemma TagLost(tag: nat, constructed: bool, content: seq<Byte>)
    requires tag > MAX_INT32
    ensures ParseRaw(Wrap(tag, constructed, content)) == Err
  {
    hide ParseContent, EncodeLength, EncodeBase128, DecodeBase128;
    var data := Wrap(tag, constructed, content);
    var body := EncodeLength(|content|) + content;
    assert data[1..] == EncodeBase128(tag) + body;
    Base128RoundTrip(tag, body);
  }

  /** What the client reads of a service element with this tag. */
  function ServiceElement(tag: int, constructed: bool, payload: seq<Byte>): (r: Result<Raw>)
  {
    if tag > MAX_INT32 then Err
    else if tag > 30 then Ok(Raw(Lead(constructed) + 0x1f, tag, payload))
    else
      var t := if tag < 0 then 0 else tag;
      Ok(Raw(Lead(constructed) + t, t, payload))
  }

  lemma ServiceReadBack(tag: int, constructed: bool, payload: seq<Byte>)
    requires |payload| <= MAX_INT32
    ensures var r := ServiceElement(tag, constructed, payload);
            ParseRaw(Wrap(tag, constructed, payload)) == if r.Ok? then Ok(Parsed(r.value, [])) else Err
  {
    hide ParseRaw, Wrap;
    if tag > MAX_INT32 {
      TagLost(tag, constructed, payload);
    } else {
      var t := if tag < 0 then 0 else tag;
      SameWrap(tag, t, constructed, payload);
      WrapInverts(t, constructed, payload, []);
      assert Wrap(t, constructed, payload) + [] == Wrap(t, constructed, payload);
    }
  }

  lemma SameWrap(tag: int, t: nat, constructed: bool, payload: seq<Byte>)
    requires t == if tag < 0 then 0 else tag
    ensures Wrap(tag, constructed, payload) == Wrap(t, constructed, payload)
  {
  }

  /** The client finds the invoke ID, the service tag and the payload of a confirmed response again. */
  lemma ResponseReadBack(id: Uint32, tag: int, constructed: bool, payload: seq<Byte>)
    requires |ConfirmedResponse(id, tag, constructed, payload)| <= MAX_INT32
    ensures var outer := UnwrapPdu(ConfirmedResponse(id, tag, constructed, payload));
            var r := ServiceElement(tag, constructed, payload);
            && outer.Ok? && outer.value.lead == 0xa1
            && UnmarshalEnvelope(outer.value.content) == if r.Ok? then Ok(Service(id, r.value)) else Err
  {
    hide ParseRaw, Wrap, EncodeTLV, EncodeInt, Signed, Redundant, ServiceElement;
    var service := Wrap(tag, constructed, payload);
    var content := EncodeTLV(0x02, EncodeInt(id)) + service;
    WrapBounds(1, true, content);
    WrapBounds(tag, constructed, payload);
    UnwrapInverts(1, content);
    IdSize(id);
    IntContent(id);
    TLVInverts(0x02, EncodeInt(id), service);
    ServiceReadBack(tag, constructed, payload);
  }
}
