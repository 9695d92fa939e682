/**
 What the octets of session PDUs denote (internal/session/session.go), with the
 identifiers of ISO 8327-1, for every length form and parameter order the
 parser accepts, and the exact octets the encoders write.
 */
module SessionMeaning {
  import opened Bytes
  import opened Results
  import opened Ber
  import opened Meaning
  import opened Session

  /** A length indicator: one octet below 255, or 255 and two octets of any value. */
  predicate Indicator(form: seq<Byte>, n: nat) {
    (n < 255 && form == [n]) || (|form| == 3 && form[0] == 0xff && Place(form[1..]) == n)
  }

  lemma IndicatorMeaning(form: seq<Byte>, n: nat, rest: seq<Byte>)
    requires Indicator(form, n)
    ensures DecodeLI(form + rest) == Ok(Length(n, |form|))
  {
    if n < 255 && form == [n] {
    } else {
      PlaceValue(form[1..]);
      assert (form + rest)[1..3] == form[1..];
    }
  }

  /** One parameter: its identifier, the length of its content in either form, its content. */
  function Item(pgi: Byte, form: seq<Byte>, content: seq<Byte>): seq<Byte> {
    [pgi] + form + content
  }

  /**
   A parameter sets the calling selector (33), the called selector (34), both in CONNECT and ACCEPT only,
   or the user data (c1); any other one is skipped. The last one of a kind counts.
   */
  lemma ItemMeaning(pgi: Byte, form: seq<Byte>, content: seq<Byte>, rest: seq<Byte>, header: nat, acc: Spdu)
    requires Indicator(form, |content|) && |Item(pgi, form, content)| <= header <= |Item(pgi, form, content)| + |rest|
    ensures var selectors := acc.kind == 0x0d || acc.kind == 0x0e;
            ParseItems(Item(pgi, form, content) + rest, header, acc) ==
            ParseItems(rest, header - |Item(pgi, form, content)|,
                       Spdu(acc.kind,
                            if pgi == 0x33 && selectors then content else acc.calling,
                            if pgi == 0x34 && selectors then content else acc.called,
                            if pgi == 0xc1 then content else acc.userData))
  {
    hide DecodeLI, Indicator;
    var data := Item(pgi, form, content) + rest;
    var start := 1 + |form|;
    assert data[1..] == form + (content + rest);
    IndicatorMeaning(form, |content|, content + rest);
    assert data[start..start + |content|] == content;
    assert data[start + |content|..] == rest;
  }

  /** The SPDU types with parameters: CONNECT, ACCEPT, FINISH, DISCONNECT and ABORT. */
  lemma HeaderMeaning(si: Byte, form: seq<Byte>, params: seq<Byte>, suffix: seq<Byte>)
    requires Indicator(form, |params|) && si in {0x0d, 0x0e, 0x09, 0x0a, 0x19}
    ensures Parse([si] + form + params + suffix) == ParseItems(params + suffix, |params|, Spdu(si, [], [], []))
  {
    hide DecodeLI, ParseItems, Indicator;
    var data := [si] + form + params + suffix;
    FormSize(form, |params|);
    assert data[1..] == form + (params + suffix);
    IndicatorMeaning(form, |params|, params + suffix);
    assert data[1 + |form|..] == params + suffix;
  }

  lemma FormSize(form: seq<Byte>, n: nat)
    requires Indicator(form, n)
    ensures |form| >= 1
  {
  }

  /** A REFUSE is recognised by its type, whatever its parameters; data comes behind one fixed header; other types are refused. */
  lemma OtherTypes(si: Byte, form: seq<Byte>, params: seq<Byte>, suffix: seq<Byte>)
    requires Indicator(form, |params|)
    ensures Parse([0x0c] + form + params + suffix) == Ok(Spdu(0x0c, [], [], []))
    ensures Parse([0x01, 0x00, 0x01, 0x00] + suffix) == Ok(Spdu(0x01, [], [], suffix))
    ensures si !in {0x01, 0x09, 0x0a, 0x0c, 0x0d, 0x0e, 0x19} ==> Parse([si] + form + params + suffix) == Err
  {
    hide DecodeLI, ParseItems, Indicator;
    var data := [0x0c] + form + params + suffix;
    FormSize(form, |params|);
    assert data[1..] == form + (params + suffix);
    IndicatorMeaning(form, |params|, params + suffix);
    assert ([0x01, 0x00, 0x01, 0x00] + suffix)[..4] == [0x01, 0x00, 0x01, 0x00];
    assert ([0x01, 0x00, 0x01, 0x00] + suffix)[4..] == suffix;
  }

  /** A single octet left over where a parameter should start is refused. */
  lemma OddOctetRefused(data: seq<Byte>, acc: Spdu)
    requires data != []
    ensures ParseItems(data, 1, acc) == Err && ParseItems(data, 0, acc) == Ok(acc)
  {
  }

  // ----- what is written

  /** A length is written in one octet exactly below 255, and its indicator denotes it. */
  lemma IndicatorWritten(l: nat)
    requires l <= 65535
    ensures Indicator(EncodeLI(l), l) && (|EncodeLI(l)| == 1 <==> l < 255)
  {
    if l >= 255 {
      Pow256Values();
      ToNatFixed(l, 2);
      PlaceValue(Fixed(l, 2));
      assert EncodeLI(l)[1..] == Fixed(l, 2);
    }
  }

  /** The octets of a CONNECT or ACCEPT whose parameters are short: version 2, duplex, the selectors, the user data. */
  lemma ConnectOctets(si: Byte, calling: seq<Byte>, called: seq<Byte>, userData: seq<Byte>)
    requires 0 < |calling| && 0 < |called| && 0 < |userData| && |calling| + |called| + |userData| < 200
    ensures EncodeConnectAccept(si, calling, called, userData) ==
            Ok([si, 18 + |calling| + |called| + |userData|]
               + [0x05, 0x06, 0x13, 0x01, 0x00, 0x16, 0x01, 0x02, 0x14, 0x02, 0x00, 0x02]
               + ([0x33, |calling|] + calling) + ([0x34, |called|] + called) + ([0xc1, |userData|] + userData))
  {
    var params := ConnectParams(calling, called, userData);
    assert FixedItems() == [0x05, 0x06, 0x13, 0x01, 0x00, 0x16, 0x01, 0x02, 0x14, 0x02, 0x00, 0x02];
    assert params == [0x05, 0x06, 0x13, 0x01, 0x00, 0x16, 0x01, 0x02, 0x14, 0x02, 0x00, 0x02]
                   + ([0x33, |calling|] + calling) + ([0x34, |called|] + called) + ([0xc1, |userData|] + userData);
    ShortSpdu(si, params);
    assert [si, |params|] + params == [si, 18 + |calling| + |called| + |userData|]
           + [0x05, 0x06, 0x13, 0x01, 0x00, 0x16, 0x01, 0x02, 0x14, 0x02, 0x00, 0x02]
           + ([0x33, |calling|] + calling) + ([0x34, |called|] + called) + ([0xc1, |userData|] + userData);
  }

  lemma ShortSpdu(si: Byte, params: seq<Byte>)
    requires |params| < 255
    ensures EncodeSPDU(si, params) == Ok([si, |params|] + params)
  {
    assert [si] + [|params|] == [si, |params|];
  }

  /** FINISH and DISCONNECT carry their user data only; ABORT gives its reason first; data has a fixed header. */
  lemma OtherOctets(si: Byte, userData: seq<Byte>)
    requires 0 < |userData| < 200
    ensures EncodeSimple(si, userData) == Ok([si, 2 + |userData|, 0xc1, |userData|] + userData)
    ensures EncodeAbort(userData) == Ok([0x19, 5 + |userData|, 0x11, 0x01, 0x0b, 0xc1, |userData|] + userData)
    ensures EncodeAbort([]) == Ok([0x19, 3, 0x11, 0x01, 0x0b])
    ensures EncodeData(userData) == [0x01, 0x00, 0x01, 0x00] + userData
  {
    assert EncodePGI(0xc1, userData) == [0xc1, |userData|] + userData;
    assert EncodePGI(0x11, [0x0b]) == [0x11, 0x01, 0x0b];
    assert EncodePGI(0x11, [0x0b]) + OptionalPGI(0xc1, userData) == [0x11, 0x01, 0x0b, 0xc1, |userData|] + userData;
    assert EncodePGI(0x11, [0x0b]) + OptionalPGI(0xc1, []) == [0x11, 0x01, 0x0b];
    ShortSpdu(si, [0xc1, |userData|] + userData);
    ShortSpdu(0x19, [0x11, 0x01, 0x0b, 0xc1, |userData|] + userData);
    ShortSpdu(0x19, [0x11, 0x01, 0x0b]);
    assert [si, 2 + |userData|] + ([0xc1, |userData|] + userData) == [si, 2 + |userData|, 0xc1, |userData|] + userData;
    assert [0x19, 5 + |userData|] + ([0x11, 0x01, 0x0b, 0xc1, |userData|] + userData)
        == [0x19, 5 + |userData|, 0x11, 0x01, 0x0b, 0xc1, |userData|] + userData;
    assert [0x19, 3] + [0x11, 0x01, 0x0b] == [0x19, 3, 0x11, 0x01, 0x0b];
  }
}
