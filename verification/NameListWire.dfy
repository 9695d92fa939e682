/**
 The GetNameList response (internal/pdu/server_helpers.go, encoder;
 internal/pdu/getnamelist.go, decoder).
 */
module NameListWire {
  import opened Bytes
  import opened Results
  import opened Ber
  import opened Names

  const MAX_IDENTIFIERS := 100000
  const MAX_IDENTIFIER := 1024

  function Identifiers(names: seq<Name>): (bs: seq<Byte>)
  {
    if names == [] then [] else EncodeTLV(0x1a, names[0]) + Identifiers(names[1..])
  }

  /** moreFollows is written only when it is false; its default is true. */
  function Marshal(page: Page): (bs: seq<Byte>)
  {
    EncodeTLV(0xa0, Identifiers(page.names)) + (if page.more then [] else EncodeTLV(0x81, [0]))
  }

  function DecodeIdentifiers(data: seq<Byte>, count: nat): (r: Result<seq<Name>>)
    decreases |data|
  {
    if data == [] then Ok([])
    else
      var f :- ReadField(data, 0x1a);
      if |f.content| > MAX_IDENTIFIER || count + 1 > MAX_IDENTIFIERS then Err
      else
        var rest :- DecodeIdentifiers(f.rest, count + 1);
        Ok([f.content] + rest)
  }

  function Unmarshal(content: seq<Byte>): (r: Result<Page>)
  {
    var list :- ReadField(content, 0xa0);
    var names :- DecodeIdentifiers(list.content, 0);
    if list.rest == [] then Ok(Page(names, true))
    else
      var more :- ReadField(list.rest, 0x81);
      if more.rest != [] then Err
      else Ok(Page(names, if |more.content| == 1 then more.content[0] != 0 else true))
  }

  /** The appending offset loop of decodeIdentifierList. */
  method ScanIdentifiers(data: seq<Byte>) returns (r: Result<seq<Name>>)
    ensures r == DecodeIdentifiers(data, 0)
  {
    hide ReadField;
    var names: seq<Name>, rest := [], data;
    ghost var outcome := DecodeIdentifiers(data, 0);
    PrependEmpty([], outcome);
    while rest != []
      invariant outcome == Prepend(names, DecodeIdentifiers(rest, |names|))
      decreases |rest|
    {
      var f := ReadField(rest, 0x1a);
      if f.Err? || |f.value.content| > MAX_IDENTIFIER {
        return Err;
      }
      IdentifierStep(names, rest);
      names, rest := names + [f.value.content], f.value.rest;
      if |names| > MAX_IDENTIFIERS {
        return Err;
      }
    }
    PrependEmpty(names, outcome);
    return Ok(names);
  }

  lemma IdentifierStep(done: seq<Name>, data: seq<Byte>)
    requires data != [] && ReadField(data, 0x1a).Ok?
    requires |ReadField(data, 0x1a).value.content| <= MAX_IDENTIFIER
    ensures var f := ReadField(data, 0x1a).value;
            Prepend(done, DecodeIdentifiers(data, |done|)) ==
            if |done| + 1 > MAX_IDENTIFIERS then Err
            else Prepend(done + [f.content], DecodeIdentifiers(f.rest, |done| + 1))
  {
    var f := ReadField(data, 0x1a).value;
    var rest := DecodeIdentifiers(f.rest, |done| + 1);
    if rest.Ok? {
      assert done + ([f.content] + rest.value) == done + [f.content] + rest.value;
    }
  }

  predicate ShortNames(names: seq<Name>) {
    forall i :: 0 <= i < |names| ==> |names[i]| <= MAX_IDENTIFIER
  }

  lemma {:induction false} IdentifiersRoundTrip(names: seq<Name>, count: nat)
    requires ShortNames(names) && count + |names| <= MAX_IDENTIFIERS
    ensures DecodeIdentifiers(Identifiers(names), count) == Ok(names)
  {
    hide ReadField, EncodeTLV;
    if names != [] {
      var rest := Identifiers(names[1..]);
      ReadFieldRoundTrip(0x1a, names[0], rest);
      TLVLength(0x1a, names[0]);
      IdentifiersRoundTrip(names[1..], count + 1);
      assert names == [names[0]] + names[1..];
    }
  }

  /** Of names of any length, a list arrives if and only if the client accepts every one of them. */
  lemma {:induction false} IdentifiersExact(names: seq<Name>, count: nat)
    requires count + |names| <= MAX_IDENTIFIERS && |Identifiers(names)| < MAX_CONTENT
    ensures DecodeIdentifiers(Identifiers(names), count) == if ShortNames(names) then Ok(names) else Err
  {
    hide ReadField, EncodeTLV;
    if ShortNames(names) {
      IdentifiersRoundTrip(names, count);
    } else {
      var rest := Identifiers(names[1..]);
      TLVLength(0x1a, names[0]);
      ReadFieldRoundTrip(0x1a, names[0], rest);
      if |names[0]| <= MAX_IDENTIFIER {
        assert !ShortNames(names[1..]);
        IdentifiersExact(names[1..], count + 1);
      }
    }
  }

  lemma {:induction false} IdentifiersSize(names: seq<Name>)
    requires ShortNames(names)
    ensures |Identifiers(names)| <= 1028 * |names|
  {
    hide EncodeTLV;
    if names != [] {
      TLVLength(0x1a, names[0]);
      LengthSizeValues(|names[0]|);
      IdentifiersSize(names[1..]);
    }
  }

  /** A page of at most a hundred identifiers arrives as it was sent, with its continuation flag. */
  lemma NameListRoundTrip(page: Page)
    requires ShortNames(page.names) && |page.names| <= DEFAULT_PAGE
    ensures Unmarshal(Marshal(page)) == Ok(page)
  {
    hide ReadField, EncodeTLV, DecodeIdentifiers, Identifiers;
    var ids := Identifiers(page.names);
    IdentifiersSize(page.names);
    IdentifiersRoundTrip(page.names, 0);
    if page.more {
      ReadLastField(0xa0, ids);
      assert EncodeTLV(0xa0, ids) + [] == EncodeTLV(0xa0, ids);
    } else {
      ReadFieldRoundTrip(0xa0, ids, EncodeTLV(0x81, [0]));
      ReadLastField(0x81, [0]);
      TLVLength(0x81, [0]);
    }
  }

  /** A page arrives if and only if the client accepts its names. */
  lemma NameListExact(page: Page)
    requires |page.names| <= DEFAULT_PAGE && ByteCount(|Identifiers(page.names)|) <= 8
    ensures Unmarshal(Marshal(page)) == if ShortNames(page.names) then Ok(page) else Err
  {
    hide EncodeTLV, DecodeTLV, DecodeIdentifiers, Identifiers, ShortNames;
    var ids := Identifiers(page.names);
    var tail := if page.more then [] else EncodeTLV(0x81, [0]);
    if ShortNames(page.names) {
      NameListRoundTrip(page);
    } else if |ids| < MAX_CONTENT {
      IdentifiersExact(page.names, 0);
      ReadFieldRoundTrip(0xa0, ids, tail);
    } else {
      TLVTooLong(0xa0, ids, tail);
    }
  }

  // ----- length

  function ListSize(names: seq<Name>): nat
  {
    if names == [] then 0 else TLVSize(|names[0]|) + ListSize(names[1..])
  }

  lemma {:induction false} IdentifiersLength(names: seq<Name>)
    ensures |Identifiers(names)| == ListSize(names)
  {
    hide EncodeTLV;
    if names != [] {
      TLVLength(0x1a, names[0]);
      IdentifiersLength(names[1..]);
    }
  }

  lemma MarshalLength(page: Page)
    ensures |Marshal(page)| == TLVSize(ListSize(page.names)) + (if page.more then 0 else 3)
  {
    hide EncodeTLV, Identifiers;
    IdentifiersLength(page.names);
    TLVLength(0xa0, Identifiers(page.names));
    TLVLength(0x81, [0]);
  }

  lemma {:induction false} ListSizeMonotone(names: seq<Name>, j: nat, k: nat)
    requires j <= k <= |names|
    ensures ListSize(names[..j]) <= ListSize(names[..k])
  {
    if j > 0 {
      assert names[..j][1..] == names[1..][..j - 1] && names[..k][1..] == names[1..][..k - 1];
      ListSizeMonotone(names[1..], j - 1, k - 1);
    }
  }

  /** Longer prefixes have longer encodings: the encoder is one fitList can search. */
  lemma MarshalMonotone(names: seq<Name>, j: nat, k: nat)
    requires j <= k <= |names|
    ensures |Marshal(Page(names[..j], true))| <= |Marshal(Page(names[..k], true))|
  {
    MarshalLength(Page(names[..j], true));
    MarshalLength(Page(names[..k], true));
    ListSizeMonotone(names, j, k);
    TLVSizeMonotone(ListSize(names[..j]), ListSize(names[..k]));
  }
}
