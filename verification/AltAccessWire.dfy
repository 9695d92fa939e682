/**
 AlternateAccess chains on the wire (internal/pdu/altaccess.go). All but the
 last selector nest the rest of the chain; the last one is terminal.
 */
module AltAccessWire {
  import opened Bytes
  import opened Results
  import opened Ber
  import opened Integers

  const MAX_IDENTIFIER := 1024

  datatype IndexRange = IndexRange(low: int, count: int)

  /** One level of selection; the first field that is set decides, in this order. */
  datatype Selector = Selector(component: seq<Byte>, hasIndex: bool, index: int, range: Option<IndexRange>)

  function ByName(name: seq<Byte>): Selector {
    Selector(name, false, 0, None)
  }

  function ByIndex(i: int): Selector {
    Selector([], true, i, None)
  }

  function ByRange(low: int, count: int): Selector {
    Selector([], false, 0, Some(IndexRange(low, count)))
  }

  // ----- the encoder

  function EncodeUint(v: int): (r: Result<seq<Byte>>)
  {
    if v < 0 || v > MAX_UINT32 then Err else Ok(EncodeUnsigned(v))
  }

  function EncodeRange(tag: Byte, range: IndexRange): (r: Result<seq<Byte>>)
  {
    var low :- EncodeUint(range.low);
    var num :- EncodeUint(range.count);
    Ok(EncodeTLV(tag, EncodeTLV(0x80, low) + EncodeTLV(0x81, num)))
  }

  /** One access selection under the three tags of its context. */
  function EncodeSelector(sel: Selector, nameTag: Byte, indexTag: Byte, rangeTag: Byte): (r: Result<seq<Byte>>)
  {
    if sel.component != [] then Ok(EncodeTLV(nameTag, sel.component))
    else if sel.hasIndex then
      var index :- EncodeUint(sel.index);
      Ok(EncodeTLV(indexTag, index))
    else if sel.range.Some? then EncodeRange(rangeTag, sel.range.value)
    else Err
  }

  /** selectAccess, the form of the last selector. */
  function EncodeTerminal(sel: Selector): (r: Result<seq<Byte>>) {
    EncodeSelector(sel, 0x81, 0x82, 0xa3)
  }

  /** The accessSelection inside selectAlternateAccess. */
  function EncodeStep(sel: Selector): (r: Result<seq<Byte>>) {
    EncodeSelector(sel, 0x80, 0x81, 0xa2)
  }

  function EncodeChain(chain: seq<Selector>): (r: Result<seq<Byte>>)
  {
    if chain == [] then Err
    else if |chain| == 1 then EncodeTerminal(chain[0])
    else
      var step :- EncodeStep(chain[0]);
      var nested :- EncodeChain(chain[1..]);
      Ok(EncodeTLV(0xa0, step + EncodeTLV(0xa5, nested)))
  }

  // ----- the decoder

  function DecodeName(content: seq<Byte>): (r: Result<Selector>)
  {
    if content == [] || |content| > MAX_IDENTIFIER then Err else Ok(ByName(content))
  }

  function DecodeIndex(content: seq<Byte>): (r: Result<Selector>)
  {
    var i :- DecodeUnsigned(content, 4);
    Ok(ByIndex(i))
  }

  /** The fields may come in any order and repeat; the last one of each wins. */
  function DecodeRangeFields(data: seq<Byte>, low: Option<nat>, num: Option<nat>): (r: Result<Selector>)
  {
    if data == [] then (if low.Some? && num.Some? then Ok(ByRange(low.value, num.value)) else Err)
    else
      var tlv :- DecodeTLV(data);
      var rest := data[tlv.consumed..];
      if tlv.tag != 0x80 && tlv.tag != 0x81 then Err
      else
        var v :- DecodeUnsigned(tlv.content, 4);
        if tlv.tag == 0x80 then DecodeRangeFields(rest, Some(v), num) else DecodeRangeFields(rest, low, Some(v))
  }

  function DecodeSelector(tag: Byte, content: seq<Byte>, nameTag: Byte, indexTag: Byte, rangeTag: Byte): (r: Result<Selector>)
  {
    if tag == nameTag then DecodeName(content)
    else if tag == indexTag then DecodeIndex(content)
    else if tag == rangeTag then DecodeRangeFields(content, None, None)
    else Err
  }

  function DecodeNested(data: seq<Byte>): (r: Result<seq<Selector>>)
    decreases |data|, 0
  {
    var tlv :- DecodeTLV(data);
    var sel :- DecodeSelector(tlv.tag, tlv.content, 0x80, 0x81, 0xa2);
    var rest := data[tlv.consumed..];
    if rest == [] then Ok([sel])
    else
      var f :- ReadField(rest, 0xa5);
      var nested :- DecodeChain(f.content);
      if f.rest != [] then Err else Ok([sel] + nested)
  }

  /** One element of the SEQUENCE OF: a nested chain or a terminal selector. */
  function DecodeSelection(tag: Byte, content: seq<Byte>): (r: Result<seq<Selector>>)
    decreases |content|, 1
  {
    if tag == 0xa0 then DecodeNested(content)
    else
      var sel :- DecodeSelector(tag, content, 0x81, 0x82, 0xa3);
      Ok([sel])
  }

  function DecodeSelections(data: seq<Byte>): (r: Result<seq<Selector>>)
    decreases |data|, 0
  {
    if data == [] then Ok([])
    else
      var tlv :- DecodeTLV(data);
      var head :- DecodeSelection(tlv.tag, tlv.content);
      var tail :- DecodeSelections(data[tlv.consumed..]);
      Ok(head + tail)
  }

  /** decodeAlternateAccess. */
  function DecodeChain(data: seq<Byte>): (r: Result<seq<Selector>>)
    decreases |data|, 1
  {
    var chain :- DecodeSelections(data);
    if chain == [] then Err else Ok(chain)
  }

  // ----- the loops of the source

  /** The appending offset loop of decodeAlternateAccess. */
  method ScanChain(data: seq<Byte>) returns (r: Result<seq<Selector>>)
    ensures r == DecodeChain(data)
  {
    hide DecodeTLV, DecodeSelection;
    var chain: seq<Selector>, offset: nat := [], 0;
    ghost var rest, outcome := data, DecodeSelections(data);
    PrependEmpty([], outcome);
    while offset < |data|
      invariant offset <= |data| && rest == data[offset..]
      invariant outcome == Prepend(chain, DecodeSelections(rest))
    {
      DecodeAtSuffix(data, offset);
      var tlv := DecodeTLVAt(data, offset);
      if tlv.Err? {
        return Err;
      }
      var head := DecodeSelection(tlv.value.tag, tlv.value.content);
      if head.Err? {
        return Err;
      }
      SelectionStep(chain, rest);
      offset := offset + tlv.value.consumed;
      rest := rest[tlv.value.consumed..];
      chain := chain + head.value;
    }
    PrependEmpty(chain, outcome);
    if |chain| == 0 {
      return Err;
    }
    return Ok(chain);
  }

  lemma SelectionStep(done: seq<Selector>, data: seq<Byte>)
    requires data != [] && DecodeTLV(data).Ok?
    requires DecodeSelection(DecodeTLV(data).value.tag, DecodeTLV(data).value.content).Ok?
    ensures var tlv := DecodeTLV(data).value;
            Prepend(done, DecodeSelections(data)) ==
            Prepend(done + DecodeSelection(tlv.tag, tlv.content).value, DecodeSelections(data[tlv.consumed..]))
  {
    var tlv := DecodeTLV(data).value;
    var head := DecodeSelection(tlv.tag, tlv.content).value;
    var rest := DecodeSelections(data[tlv.consumed..]);
    if rest.Ok? {
      assert done + (head + rest.value) == done + head + rest.value;
    }
  }

  /** The field loop of decodeIndexRange. */
  method ScanRange(data: seq<Byte>) returns (r: Result<Selector>)
    ensures r == DecodeRangeFields(data, None, None)
  {
    var rest := data;
    var low: Option<nat>, num: Option<nat> := None, None;
    while rest != []
      invariant DecodeRangeFields(data, None, None) == DecodeRangeFields(rest, low, num)
      decreases |rest|
    {
      var tlv := DecodeTLV(rest);
      if tlv.Err? || (tlv.value.tag != 0x80 && tlv.value.tag != 0x81) {
        return Err;
      }
      var v := DecodeUnsigned(tlv.value.content, 4);
      if v.Err? {
        return Err;
      }
      if tlv.value.tag == 0x80 {
        low := Some(v.value);
      } else {
        num := Some(v.value);
      }
      rest := rest[tlv.value.consumed..];
    }
    if low.None? || num.None? {
      return Err;
    }
    return Ok(ByRange(low.value, num.value));
  }

  // ----- which chains survive

  predicate InUint32(v: int) {
    0 <= v <= MAX_UINT32
  }

  /** Exactly one field is set, and it is in range. */
  predicate Canonical(sel: Selector) {
    || (sel == ByName(sel.component) && 1 <= |sel.component| <= MAX_IDENTIFIER)
    || (sel == ByIndex(sel.index) && InUint32(sel.index))
    || (sel.range.Some? && sel == ByRange(sel.range.value.low, sel.range.value.count)
        && InUint32(sel.range.value.low) && InUint32(sel.range.value.count))
  }

  predicate AllCanonical(chain: seq<Selector>) {
    forall i :: 0 <= i < |chain| ==> Canonical(chain[i])
  }

  lemma UintRoundTrip(v: int)
    requires InUint32(v)
    ensures DecodeUnsigned(EncodeUnsigned(v), 4) == Ok(v)
    ensures |EncodeUnsigned(v)| <= 5
  {
    Pow256Values();
    UnsignedRoundTrip(v, 4);
    UnsignedSize(v, 4);
  }

  lemma RangeStep(tag: Byte, v: nat, rest: seq<Byte>, low: Option<nat>, num: Option<nat>)
    requires tag == 0x80 || tag == 0x81
    requires InUint32(v)
    ensures DecodeRangeFields(EncodeTLV(tag, EncodeUnsigned(v)) + rest, low, num)
         == if tag == 0x80 then DecodeRangeFields(rest, Some(v), num) else DecodeRangeFields(rest, low, Some(v))
  {
    hide EncodeTLV, DecodeTLV, DecodeUnsigned, EncodeUnsigned;
    UintRoundTrip(v);
    var content := EncodeUnsigned(v);
    TLVRoundTrip(tag, content, rest);
    TLVLength(tag, content);
    var data := EncodeTLV(tag, content) + rest;
    assert data[TLVSize(|content|)..] == rest;
  }

  lemma RangeRoundTrip(low: nat, num: nat)
    requires InUint32(low) && InUint32(num)
    ensures DecodeRangeFields(EncodeTLV(0x80, EncodeUnsigned(low)) + EncodeTLV(0x81, EncodeUnsigned(num)), None, None)
         == Ok(ByRange(low, num))
  {
    hide EncodeTLV, DecodeTLV, EncodeUnsigned;
    RangeStep(0x80, low, EncodeTLV(0x81, EncodeUnsigned(num)), None, None);
    RangeStep(0x81, num, [], Some(low), None);
    assert EncodeTLV(0x81, EncodeUnsigned(num)) + [] == EncodeTLV(0x81, EncodeUnsigned(num));
  }

  lemma RangeSize(low: nat, num: nat)
    requires InUint32(low) && InUint32(num)
    ensures |EncodeTLV(0x80, EncodeUnsigned(low)) + EncodeTLV(0x81, EncodeUnsigned(num))| <= 14
  {
    UintRoundTrip(low);
    UintRoundTrip(num);
    TLVLength(0x80, EncodeUnsigned(low));
    TLVLength(0x81, EncodeUnsigned(num));
  }

  /** The tag and content under which a canonical selector is written, and read back. */
  lemma SelectorRoundTrip(sel: Selector, nameTag: Byte, indexTag: Byte, rangeTag: Byte)
      returns (tag: Byte, content: seq<Byte>)
    requires Canonical(sel)
    requires nameTag != indexTag && indexTag != rangeTag && nameTag != rangeTag
    ensures tag == nameTag || tag == indexTag || tag == rangeTag
    ensures EncodeSelector(sel, nameTag, indexTag, rangeTag) == Ok(EncodeTLV(tag, content))
    ensures DecodeSelector(tag, content, nameTag, indexTag, rangeTag) == Ok(sel)
    ensures |content| <= MAX_IDENTIFIER
  {
    hide EncodeTLV, EncodeUnsigned, DecodeUnsigned, DecodeRangeFields;
    if sel.component != [] {
      tag, content := nameTag, sel.component;
    } else if sel.hasIndex {
      UintRoundTrip(sel.index);
      tag, content := indexTag, EncodeUnsigned(sel.index);
    } else {
      var low, num := sel.range.value.low, sel.range.value.count;
      RangeRoundTrip(low, num);
      RangeSize(low, num);
      tag, content := rangeTag, EncodeTLV(0x80, EncodeUnsigned(low)) + EncodeTLV(0x81, EncodeUnsigned(num));
    }
  }

  lemma OneSelection(tag: Byte, content: seq<Byte>)
    requires |content| < MAX_CONTENT
    ensures DecodeSelections(EncodeTLV(tag, content)) == DecodeSelection(tag, content)
  {
    hide EncodeTLV, DecodeTLV, DecodeSelection;
    TLVLength(tag, content);
    TLVRoundTrip(tag, content, []);
    var data := EncodeTLV(tag, content);
    assert data + [] == data;
    assert data[|data|..] == [];
    if DecodeSelection(tag, content).Ok? {
      assert DecodeSelection(tag, content).value + [] == DecodeSelection(tag, content).value;
    }
  }

  lemma NestedRead(tag: Byte, content: seq<Byte>, sel: Selector, nested: seq<Byte>)
    requires |content| < MAX_CONTENT && |nested| < MAX_CONTENT
    requires DecodeSelector(tag, content, 0x80, 0x81, 0xa2) == Ok(sel)
    requires DecodeChain(nested).Ok?
    ensures DecodeNested(EncodeTLV(tag, content) + EncodeTLV(0xa5, nested)) == Ok([sel] + DecodeChain(nested).value)
  {
    hide EncodeTLV, DecodeTLV, ReadField, DecodeSelector, DecodeChain;
    var rest := EncodeTLV(0xa5, nested);
    var data := EncodeTLV(tag, content) + rest;
    TLVLength(tag, content);
    TLVLength(0xa5, nested);
    TLVRoundTrip(tag, content, rest);
    ReadLastField(0xa5, nested);
    assert data[TLVSize(|content|)..] == rest;
  }

  /** The size of an element with the longest content the decoder takes. */
  const LONGEST := MAX_CONTENT + 4

  lemma LongestTLV(content: seq<Byte>)
    ensures TLVSize(|content|) <= LONGEST <==> |content| < MAX_CONTENT
  {
    LengthSizeValues(|content|);
    if |content| >= MAX_CONTENT {
      Pow256Values();
      ByteCountLeast(|content|, 3);
    }
  }

  /** Every non-empty chain of canonical selectors comes back, nesting and all. */
  lemma {:induction false} ChainRoundTrip(chain: seq<Selector>)
    requires chain != [] && AllCanonical(chain)
    requires EncodeChain(chain).Ok? && |EncodeChain(chain).value| <= LONGEST
    ensures DecodeChain(EncodeChain(chain).value) == Ok(chain)
  {
    hide EncodeTLV, EncodeSelector, DecodeSelector, DecodeSelections, DecodeNested, Canonical;
    if |chain| == 1 {
      var tag, content := SelectorRoundTrip(chain[0], 0x81, 0x82, 0xa3);
      OneSelection(tag, content);
      assert chain == [chain[0]];
    } else {
      var tag, content := SelectorRoundTrip(chain[0], 0x80, 0x81, 0xa2);
      var nested := EncodeChain(chain[1..]).value;
      var body := EncodeTLV(tag, content) + EncodeTLV(0xa5, nested);
      TLVLength(0xa5, nested);
      TLVLength(0xa0, body);
      LongestTLV(body);
      ChainRoundTrip(chain[1..]);
      NestedRead(tag, content, chain[0], nested);
      OneSelection(0xa0, body);
      assert chain == [chain[0]] + chain[1..];
    }
  }

  /** Encoding succeeds on every non-empty canonical chain. */
  lemma {:induction false} ChainEncodes(chain: seq<Selector>)
    requires chain != [] && AllCanonical(chain)
    ensures EncodeChain(chain).Ok?
  {
    if |chain| > 1 {
      ChainEncodes(chain[1..]);
    }
  }

  // ----- and only those

  lemma UnsignedInRange(content: seq<Byte>)
    requires DecodeUnsigned(content, 4).Ok?
    ensures InUint32(DecodeUnsigned(content, 4).value)
  {
    Pow256Values();
    UnsignedNormalises(content, 4);
  }

  lemma {:induction false} RangeIsCanonical(data: seq<Byte>, low: Option<nat>, num: Option<nat>)
    requires low.Some? ==> InUint32(low.value)
    requires num.Some? ==> InUint32(num.value)
    requires DecodeRangeFields(data, low, num).Ok?
    ensures Canonical(DecodeRangeFields(data, low, num).value)
    decreases |data|
  {
    hide DecodeTLV, DecodeUnsigned;
    if data != [] {
      var tlv := DecodeTLV(data).value;
      var v := DecodeUnsigned(tlv.content, 4).value;
      UnsignedInRange(tlv.content);
      if tlv.tag == 0x80 {
        RangeIsCanonical(data[tlv.consumed..], Some(v), num);
      } else {
        RangeIsCanonical(data[tlv.consumed..], low, Some(v));
      }
    }
  }

  lemma SelectorIsCanonical(tag: Byte, content: seq<Byte>, nameTag: Byte, indexTag: Byte, rangeTag: Byte)
    requires DecodeSelector(tag, content, nameTag, indexTag, rangeTag).Ok?
    ensures Canonical(DecodeSelector(tag, content, nameTag, indexTag, rangeTag).value)
  {
    hide DecodeUnsigned, DecodeRangeFields;
    if tag == nameTag {
    } else if tag == indexTag {
      UnsignedInRange(content);
    } else {
      RangeIsCanonical(content, None, None);
    }
  }

  lemma {:induction false} SelectionIsCanonical(tag: Byte, content: seq<Byte>)
    requires DecodeSelection(tag, content).Ok?
    ensures AllCanonical(DecodeSelection(tag, content).value)
    decreases |content|, 1
  {
    hide DecodeSelector, DecodeTLV, ReadField, Canonical, DecodeSelections;
    if tag != 0xa0 {
      SelectorIsCanonical(tag, content, 0x81, 0x82, 0xa3);
    } else {
      var tlv := DecodeTLV(content).value;
      var rest := content[tlv.consumed..];
      SelectorIsCanonical(tlv.tag, tlv.content, 0x80, 0x81, 0xa2);
      assert DecodeNested(content).Ok?;
      if rest != [] {
        var nested := ReadField(rest, 0xa5).value.content;
        assert DecodeChain(nested).Ok?;
        SelectionsAreCanonical(nested);
      }
    }
  }

  lemma {:induction false} SelectionsAreCanonical(data: seq<Byte>)
    requires DecodeSelections(data).Ok?
    ensures AllCanonical(DecodeSelections(data).value)
    decreases |data|, 0
  {
    hide DecodeSelection, DecodeTLV, Canonical;
    if data != [] {
      var tlv := DecodeTLV(data).value;
      SelectionIsCanonical(tlv.tag, tlv.content);
      SelectionsAreCanonical(data[tlv.consumed..]);
    }
  }

  /** Among chains whose encoding fits, exactly the non-empty canonical ones survive the wire. */
  lemma ChainRoundTripExactly(chain: seq<Selector>)
    requires EncodeChain(chain).Ok? ==> |EncodeChain(chain).value| <= LONGEST
    ensures (EncodeChain(chain).Ok? && DecodeChain(EncodeChain(chain).value) == Ok(chain))
       <==> (chain != [] && AllCanonical(chain))
  {
    hide DecodeSelections, Canonical;
    if chain != [] && AllCanonical(chain) {
      ChainEncodes(chain);
      ChainRoundTrip(chain);
    } else if EncodeChain(chain).Ok? && DecodeChain(EncodeChain(chain).value) == Ok(chain) {
      SelectionsAreCanonical(EncodeChain(chain).value);
    }
  }

  // ----- whatever decodes, encoded again

  lemma {:induction false} SelectionCount(data: seq<Byte>)
    requires DecodeSelections(data).Ok?
    ensures |DecodeSelections(data).value| <= |data|
    decreases |data|, 1
  {
    hide DecodeSelector, DecodeTLV, ReadField;
    if data != [] {
      var tlv := DecodeTLV(data).value;
      if tlv.tag == 0xa0 {
        NestedCount(tlv.content);
      }
      SelectionCount(data[tlv.consumed..]);
    }
  }

  lemma {:induction false} NestedCount(data: seq<Byte>)
    requires DecodeNested(data).Ok?
    ensures |DecodeNested(data).value| <= |data|
    decreases |data|, 0
  {
    hide DecodeSelector, DecodeTLV, ReadField, DecodeSelections;
    var tlv := DecodeTLV(data).value;
    var rest := data[tlv.consumed..];
    if rest != [] {
      SelectionCount(ReadField(rest, 0xa5).value.content);
    }
  }

  lemma StepSize(sel: Selector, nameTag: Byte, indexTag: Byte, rangeTag: Byte)
    requires Canonical(sel)
    ensures EncodeSelector(sel, nameTag, indexTag, rangeTag).Ok?
    ensures |EncodeSelector(sel, nameTag, indexTag, rangeTag).value| <= 1030
  {
    hide EncodeTLV, EncodeUnsigned, LengthSize;
    if sel.component != [] {
      TLVLength(nameTag, sel.component);
      LengthSizeValues(|sel.component|);
    } else if sel.hasIndex {
      UintRoundTrip(sel.index);
      TLVLength(indexTag, EncodeUnsigned(sel.index));
      LengthSizeValues(|EncodeUnsigned(sel.index)|);
    } else {
      var low, num := sel.range.value.low, sel.range.value.count;
      RangeSize(low, num);
      var fields := EncodeTLV(0x80, EncodeUnsigned(low)) + EncodeTLV(0x81, EncodeUnsigned(num));
      TLVLength(rangeTag, fields);
      LengthSizeValues(|fields|);
    }
  }

  lemma {:induction false} ChainSize(chain: seq<Selector>)
    requires chain != [] && AllCanonical(chain) && |chain| <= MAX_CONTENT
    ensures EncodeChain(chain).Ok? && |EncodeChain(chain).value| <= 1050 * |chain|
  {
    hide EncodeTLV, EncodeSelector, Canonical;
    if |chain| == 1 {
      StepSize(chain[0], 0x81, 0x82, 0xa3);
    } else {
      StepSize(chain[0], 0x80, 0x81, 0xa2);
      ChainSize(chain[1..]);
      var nested := EncodeChain(chain[1..]).value;
      var body := EncodeStep(chain[0]).value + EncodeTLV(0xa5, nested);
      TLVLength(0xa5, nested);
      SmallOverhead(|nested|);
      TLVLength(0xa0, body);
      SmallOverhead(|body|);
    }
  }

  lemma SmallOverhead(n: nat)
    requires n < 0x100_0000_0000
    ensures TLVSize(n) <= n + 7 && ByteCount(n) <= 5
  {
    Pow256Values();
    assert Pow256(5) == 0x100_0000_0000;
    ByteCountLeast(n, 5);
  }

  /** Whatever decodes encodes again, and that decodes to the same chain exactly when it is within the length limit. */
  lemma DecodedChainSurvives(data: seq<Byte>)
    requires |data| < MAX_CONTENT && DecodeChain(data).Ok?
    ensures var chain := DecodeChain(data).value;
            && EncodeChain(chain).Ok?
            && (DecodeChain(EncodeChain(chain).value) == Ok(chain) <==> |EncodeChain(chain).value| <= LONGEST)
  {
    hide DecodeSelections, EncodeChain, Canonical;
    var chain := DecodeChain(data).value;
    SelectionsAreCanonical(data);
    SelectionCount(data);
    ChainSize(chain);
    if |EncodeChain(chain).value| <= LONGEST {
      ChainRoundTrip(chain);
    } else {
      LongChainLost(chain);
    }
  }

  lemma LongChainLost(chain: seq<Selector>)
    requires chain != [] && AllCanonical(chain) && EncodeChain(chain).Ok?
    requires LONGEST < |EncodeChain(chain).value| <= 1050 * MAX_CONTENT
    ensures DecodeChain(EncodeChain(chain).value) == Err
  {
    hide EncodeTLV, DecodeTLV, Canonical, EncodeSelector;
    if |chain| == 1 {
      StepSize(chain[0], 0x81, 0x82, 0xa3);
    } else {
      var body := EncodeStep(chain[0]).value + EncodeTLV(0xa5, EncodeChain(chain[1..]).value);
      TLVLength(0xa0, body);
      LongestTLV(body);
      SmallOverhead(|body|);
      TLVTooLong(0xa0, body, []);
      assert EncodeTLV(0xa0, body) + [] == EncodeTLV(0xa0, body);
    }
  }
}
