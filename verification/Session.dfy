/**
 Session protocol data units (internal/session/session.go): the length
 indicator of ISO 8327-1 with its one-octet and three-octet forms, parameter
 groups, and the SPDUs built from them.
 */
module Session {
  import opened Bytes
  import opened Results
  import opened Ber

  const MAX_LI := 0xffff

  const SI_FINISH: Byte := 0x09
  const SI_DISCONNECT: Byte := 0x0a
  const SI_REFUSE: Byte := 0x0c
  const SI_CONNECT: Byte := 0x0d
  const SI_ACCEPT: Byte := 0x0e
  const SI_ABORT: Byte := 0x19
  const SI_DATA: Byte := 0x01

  const PGI_CALLING: Byte := 0x33
  const PGI_CALLED: Byte := 0x34
  const PGI_USER_DATA: Byte := 0xc1

  datatype Spdu = Spdu(kind: Byte, calling: seq<Byte>, called: seq<Byte>, userData: seq<Byte>)

  // ----- encoding

  function EncodeLI(l: nat): (bs: seq<Byte>)
  {
    if l < 0xff then [l] else [0xff] + Fixed(if l < MAX_LI then l else MAX_LI, 2)
  }

  function LISize(l: nat): nat {
    if l < 0xff then 1 else 3
  }

  function EncodePGI(tag: Byte, content: seq<Byte>): (bs: seq<Byte>)
  {
    [tag] + EncodeLI(|content|) + content
  }

  /** A parameter that is left out when it is empty. */
  function OptionalPGI(tag: Byte, content: seq<Byte>): (bs: seq<Byte>)
  {
    if content == [] then [] else EncodePGI(tag, content)
  }

  function EncodeSPDU(si: Byte, params: seq<Byte>): (r: Result<seq<Byte>>)
  {
    if |params| > MAX_LI then Err else Ok([si] + EncodeLI(|params|) + params)
  }

  function FixedItems(): seq<Byte> {
    EncodePGI(0x05, [0x13, 0x01, 0x00, 0x16, 0x01, 0x02]) + EncodePGI(0x14, [0x00, 0x02])
  }

  function ConnectParams(calling: seq<Byte>, called: seq<Byte>, userData: seq<Byte>): seq<Byte>
  {
    FixedItems() + (OptionalPGI(PGI_CALLING, calling) + (OptionalPGI(PGI_CALLED, called) + OptionalPGI(PGI_USER_DATA, userData)))
  }

  function EncodeConnectAccept(si: Byte, calling: seq<Byte>, called: seq<Byte>, userData: seq<Byte>): (r: Result<seq<Byte>>)
  {
    EncodeSPDU(si, ConnectParams(calling, called, userData))
  }

  /** encodeConnectAccept as it appends. */
  method AppendConnectAccept(si: Byte, calling: seq<Byte>, called: seq<Byte>, userData: seq<Byte>) returns (r: Result<seq<Byte>>)
    ensures r == EncodeConnectAccept(si, calling, called, userData)
  {
    hide EncodePGI;
    var params := EncodePGI(0x05, [0x13, 0x01, 0x00, 0x16, 0x01, 0x02]);
    SessionRequirements();
    params := params + [0x14, 0x02, 0x00, 0x02];
    if |calling| > 0 {
      params := params + EncodePGI(PGI_CALLING, calling);
    }
    if |called| > 0 {
      params := params + EncodePGI(PGI_CALLED, called);
    }
    if |userData| > 0 {
      params := params + EncodePGI(PGI_USER_DATA, userData);
    }
    assert params == ConnectParams(calling, called, userData);
    r := EncodeSPDU(si, params);
  }

  lemma SessionRequirements()
    ensures EncodePGI(0x14, [0x00, 0x02]) == [0x14, 0x02, 0x00, 0x02]
  {
  }

  function EncodeSimple(si: Byte, userData: seq<Byte>): (r: Result<seq<Byte>>) {
    EncodeSPDU(si, EncodePGI(PGI_USER_DATA, userData))
  }

  function EncodeAbort(userData: seq<Byte>): (r: Result<seq<Byte>>) {
    EncodeSPDU(SI_ABORT, EncodePGI(0x11, [0x0b]) + OptionalPGI(PGI_USER_DATA, userData))
  }

  function EncodeData(userData: seq<Byte>): (bs: seq<Byte>) {
    [0x01, 0x00, 0x01, 0x00] + userData
  }

  // ----- parsing

  function DecodeLI(data: seq<Byte>): (r: Result<Length>)
    ensures r.Ok? ==> 1 <= r.value.consumed <= |data|
  {
    if data == [] then Err
    else if data[0] != 0xff then Ok(Length(data[0], 1))
    else if |data| < 3 then Err
    else Ok(Length(ToNat(data[1..3]), 3))
  }

  /** What one parameter sets; selectors are read from CONNECT and ACCEPT only. */
  function Apply(acc: Spdu, pgi: Byte, content: seq<Byte>): Spdu
  {
    var selectors := acc.kind == SI_CONNECT || acc.kind == SI_ACCEPT;
    if pgi == PGI_CALLING && selectors then acc.(calling := content)
    else if pgi == PGI_CALLED && selectors then acc.(called := content)
    else if pgi == PGI_USER_DATA then acc.(userData := content)
    else acc
  }

  /** The parameters in the next header octets of data. */
  function ParseItems(data: seq<Byte>, header: int, acc: Spdu): (r: Result<Spdu>)
    requires header <= |data|
    decreases |data|
  {
    if header < 2 then (if header == 0 then Ok(acc) else Err)
    else
      var len :- DecodeLI(data[1..]);
      var start := 1 + len.consumed;
      var end := start + len.value;
      if end > |data| then Err
      else ParseItems(data[end..], header - end, Apply(acc, data[0], data[start..end]))
  }

  function ParseHeader(data: seq<Byte>): (r: Result<Spdu>)
    requires |data| >= 2
  {
    var li :- DecodeLI(data[1..]);
    var offset := 1 + li.consumed;
    if |data| < offset + li.value then Err
    else if data[0] == SI_REFUSE then Ok(Spdu(data[0], [], [], []))
    else ParseItems(data[offset..], li.value, Spdu(data[0], [], [], []))
  }

  function Parse(data: seq<Byte>): (r: Result<Spdu>)
  {
    if |data| < 2 then Err
    else if data[0] == SI_DATA then
      if |data| < 4 || data[..4] != [0x01, 0x00, 0x01, 0x00] then Err else Ok(Spdu(SI_DATA, [], [], data[4..]))
    else if data[0] in {SI_CONNECT, SI_ACCEPT, SI_FINISH, SI_DISCONNECT, SI_ABORT, SI_REFUSE} then ParseHeader(data)
    else Err
  }

  /** The loop of parseConnectAccept and parseSimpleWithUserData. */
  method ScanItems(data: seq<Byte>, start: nat, headerEnd: nat, kind: Byte) returns (r: Result<Spdu>)
    requires start <= headerEnd <= |data|
    ensures r == ParseItems(data[start..], headerEnd - start, Spdu(kind, [], [], []))
  {
    hide DecodeLI, Apply;
    var acc := Spdu(kind, [], [], []);
    var offset := start;
    while offset < headerEnd
      invariant offset <= |data|
      invariant ParseItems(data[offset..], headerEnd - offset, acc) == ParseItems(data[start..], headerEnd - start, Spdu(kind, [], [], []))
    {
      if offset + 2 > headerEnd {
        break;
      }
      assert data[offset..][1..] == data[offset + 1..];
      var pgi := data[offset];
      var len := DecodeLI(data[offset + 1..]);
      if len.Err? {
        return Err;
      }
      var at := offset + 1 + len.value.consumed;
      var end := at + len.value.value;
      if end > |data| {
        return Err;
      }
      assert data[offset..][end - offset..] == data[end..];
      assert data[offset..][at - offset..end - offset] == data[at..end];
      acc := Apply(acc, pgi, data[at..end]);
      offset := end;
    }
    if offset != headerEnd {
      return Err;
    }
    return Ok(acc);
  }

  // ----- round trips

  lemma LIRoundTrip(l: nat, rest: seq<Byte>)
    requires l <= MAX_LI
    ensures DecodeLI(EncodeLI(l) + rest) == Ok(Length(l, LISize(l)))
    ensures |EncodeLI(l)| == LISize(l)
  {
    if l >= 0xff {
      var octets := Fixed(l, 2);
      Pow256Values();
      ToNatFixed(l, 2);
      assert ([0xff] + octets + rest)[1..3] == octets;
    }
  }

  lemma PGILayout(tag: Byte, content: seq<Byte>, rest: seq<Byte>)
    requires |content| <= MAX_LI
    ensures var data := EncodePGI(tag, content) + rest;
            var start := 1 + LISize(|content|);
            && |EncodePGI(tag, content)| == start + |content|
            && data[0] == tag
            && data[1..] == EncodeLI(|content|) + (content + rest)
            && data[start..start + |content|] == content
            && data[start + |content|..] == rest
  {
    LIRoundTrip(|content|, content + rest);
    assert EncodePGI(tag, content) + rest == [tag] + (EncodeLI(|content|) + (content + rest));
  }

  lemma ItemStep(tag: Byte, content: seq<Byte>, rest: seq<Byte>, header: nat, acc: Spdu)
    requires |content| <= MAX_LI && |EncodePGI(tag, content)| <= header <= |EncodePGI(tag, content)| + |rest|
    ensures ParseItems(EncodePGI(tag, content) + rest, header, acc) ==
            ParseItems(rest, header - |EncodePGI(tag, content)|, Apply(acc, tag, content))
  {
    hide EncodePGI, EncodeLI, DecodeLI, Apply;
    PGILayout(tag, content, rest);
    LIRoundTrip(|content|, content + rest);
  }

  lemma OptionalStep(tag: Byte, content: seq<Byte>, rest: seq<Byte>, header: nat, acc: Spdu)
    requires |content| <= MAX_LI && |OptionalPGI(tag, content)| <= header <= |OptionalPGI(tag, content)| + |rest|
    requires Apply(acc, tag, []) == acc
    ensures ParseItems(OptionalPGI(tag, content) + rest, header, acc) ==
            ParseItems(rest, header - |OptionalPGI(tag, content)|, Apply(acc, tag, content))
  {
    hide EncodePGI, DecodeLI, Apply, ParseItems;
    if content == [] {
      assert [] + rest == rest;
    } else {
      ItemStep(tag, content, rest, header, acc);
    }
  }

  /** The header of an SPDU leads to its parameters, whatever follows them. */
  lemma HeaderStep(si: Byte, params: seq<Byte>, suffix: seq<Byte>)
    requires |params| <= MAX_LI && si in {SI_CONNECT, SI_ACCEPT, SI_FINISH, SI_DISCONNECT, SI_ABORT}
    ensures Parse([si] + EncodeLI(|params|) + params + suffix) == ParseItems(params + suffix, |params|, Spdu(si, [], [], []))
  {
    hide EncodeLI, DecodeLI, ParseItems;
    var data := [si] + EncodeLI(|params|) + params + suffix;
    LIRoundTrip(|params|, params + suffix);
    assert data[1..] == EncodeLI(|params|) + (params + suffix);
    assert data[1 + LISize(|params|)..] == params + suffix;
  }

  lemma FixedStep(rest: seq<Byte>, header: nat, acc: Spdu)
    requires 12 <= header <= 12 + |rest|
    ensures |FixedItems()| == 12
    ensures ParseItems(FixedItems() + rest, header, acc) == ParseItems(rest, header - 12, acc)
  {
    hide EncodePGI, DecodeLI, ParseItems;
    var first, second: seq<Byte> := [0x13, 0x01, 0x00, 0x16, 0x01, 0x02], [0x00, 0x02];
    PGILayout(0x05, first, []);
    PGILayout(0x14, second, []);
    assert FixedItems() + rest == EncodePGI(0x05, first) + (EncodePGI(0x14, second) + rest);
    ItemStep(0x05, first, EncodePGI(0x14, second) + rest, header, acc);
    ItemStep(0x14, second, rest, header - 8, acc);
  }

  function ItemSize(content: seq<Byte>): nat {
    if content == [] then 0 else 1 + LISize(|content|) + |content|
  }

  lemma OptionalSize(tag: Byte, content: seq<Byte>)
    ensures |OptionalPGI(tag, content)| == ItemSize(content)
  {
  }

  lemma ConnectSize(calling: seq<Byte>, called: seq<Byte>, userData: seq<Byte>)
    ensures |ConnectParams(calling, called, userData)| == 12 + ItemSize(calling) + ItemSize(called) + ItemSize(userData)
  {
    hide OptionalPGI, ParseItems;
    OptionalSize(PGI_CALLING, calling);
    OptionalSize(PGI_CALLED, called);
    OptionalSize(PGI_USER_DATA, userData);
    FixedStep([], 12, Spdu(0, [], [], []));
  }

  lemma ConnectItems(si: Byte, calling: seq<Byte>, called: seq<Byte>, userData: seq<Byte>, suffix: seq<Byte>)
    requires si == SI_CONNECT || si == SI_ACCEPT
    requires |ConnectParams(calling, called, userData)| <= MAX_LI
    ensures var params := ConnectParams(calling, called, userData);
            ParseItems(params + suffix, |params|, Spdu(si, [], [], [])) == Ok(Spdu(si, calling, called, userData))
  {
    hide OptionalPGI, FixedItems, ParseItems;
    var params := ConnectParams(calling, called, userData);
    ConnectSize(calling, called, userData);
    OptionalSize(PGI_CALLING, calling);
    OptionalSize(PGI_CALLED, called);
    OptionalSize(PGI_USER_DATA, userData);
    var third := OptionalPGI(PGI_USER_DATA, userData) + suffix;
    var second := OptionalPGI(PGI_CALLED, called) + third;
    var first := OptionalPGI(PGI_CALLING, calling) + second;
    assert params + suffix == FixedItems() + first;
    FixedStep(first, |params|, Spdu(si, [], [], []));
    OptionalStep(PGI_CALLING, calling, second, |params| - 12, Spdu(si, [], [], []));
    OptionalStep(PGI_CALLED, called, third, |params| - 12 - ItemSize(calling), Spdu(si, calling, [], []));
    OptionalStep(PGI_USER_DATA, userData, suffix, ItemSize(userData), Spdu(si, calling, called, []));
    NoMoreItems(suffix, Spdu(si, calling, called, userData));
  }

  lemma NoMoreItems(suffix: seq<Byte>, acc: Spdu)
    ensures ParseItems(suffix, 0, acc) == Ok(acc)
  {
  }

  /**
   CONNECT and ACCEPT: encoding fails exactly when the parameters exceed 65535 octets, and
   otherwise Parse returns the selectors and the user data, in either length form.
   */
  lemma ConnectRoundTrip(si: Byte, calling: seq<Byte>, called: seq<Byte>, userData: seq<Byte>, suffix: seq<Byte>)
    requires si == SI_CONNECT || si == SI_ACCEPT
    ensures var r := EncodeConnectAccept(si, calling, called, userData);
            && (r.Ok? <==> 12 + ItemSize(calling) + ItemSize(called) + ItemSize(userData) <= 65535)
            && (r.Ok? ==> Parse(r.value + suffix) == Ok(Spdu(si, calling, called, userData)))
  {
    hide EncodeLI, Parse, ParseItems, ConnectParams;
    var params := ConnectParams(calling, called, userData);
    ConnectSize(calling, called, userData);
    if |params| <= MAX_LI {
      HeaderStep(si, params, suffix);
      ConnectItems(si, calling, called, userData, suffix);
    }
  }

  /** FINISH and DISCONNECT. */
  lemma SimpleRoundTrip(si: Byte, userData: seq<Byte>, suffix: seq<Byte>)
    requires si == SI_FINISH || si == SI_DISCONNECT
    ensures var r := EncodeSimple(si, userData);
            && (r.Ok? <==> 1 + LISize(|userData|) + |userData| <= 65535)
            && (r.Ok? ==> Parse(r.value + suffix) == Ok(Spdu(si, [], [], userData)))
  {
    hide EncodeLI, Parse, ParseItems;
    LongPGISize(PGI_USER_DATA, userData);
    var params := EncodePGI(PGI_USER_DATA, userData);
    if |params| <= MAX_LI {
      HeaderStep(si, params, suffix);
      ItemStep(PGI_USER_DATA, userData, suffix, |params|, Spdu(si, [], [], []));
      NoMoreItems(suffix, Spdu(si, [], [], userData));
    }
  }

  lemma LongPGISize(tag: Byte, content: seq<Byte>)
    ensures |EncodePGI(tag, content)| == 1 + LISize(|content|) + |content|
  {
  }

  lemma AbortRoundTrip(userData: seq<Byte>, suffix: seq<Byte>)
    ensures var r := EncodeAbort(userData);
            && (r.Ok? <==> 3 + ItemSize(userData) <= 65535)
            && (r.Ok? ==> Parse(r.value + suffix) == Ok(Spdu(SI_ABORT, [], [], userData)))
  {
    hide EncodeLI, EncodePGI, Parse, ParseItems, OptionalPGI;
    LongPGISize(0x11, [0x0b]);
    OptionalSize(PGI_USER_DATA, userData);
    var reason, user := EncodePGI(0x11, [0x0b]), OptionalPGI(PGI_USER_DATA, userData);
    var params := reason + user;
    if |params| <= MAX_LI {
      HeaderStep(SI_ABORT, params, suffix);
      assert params + suffix == reason + (user + suffix);
      ItemStep(0x11, [0x0b], user + suffix, |params|, Spdu(SI_ABORT, [], [], []));
      OptionalStep(PGI_USER_DATA, userData, suffix, |user|, Spdu(SI_ABORT, [], [], []));
      NoMoreItems(suffix, Spdu(SI_ABORT, [], [], userData));
    }
  }

  lemma DataRoundTrip(userData: seq<Byte>)
    ensures Parse(EncodeData(userData)) == Ok(Spdu(SI_DATA, [], [], userData))
  {
    var data := EncodeData(userData);
    assert data[..4] == [0x01, 0x00, 0x01, 0x00];
    assert data[4..] == userData;
  }
}
