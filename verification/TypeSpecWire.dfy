/**
 TypeSpecification and ObjectName on the wire: EncodeTypeSpec
 (internal/pdu/server_helpers.go), the depth-limited decoder
 (internal/pdu/getvaraccess.go) and internal/pdu/read.go.
 */
module TypeSpecWire {
  import opened Bytes
  import opened Results
  import opened Ber
  import opened Integers

  const MAX_NESTING := 32

  datatype ObjectName = ObjectName(scope: int, domain: seq<Byte>, item: seq<Byte>)

  /** Boolean, GeneralizedTime, ObjectIdentifier and UtcTime carry no parameter. */
  type NullTag = t: int | t == 3 || t == 11 || t == 15 || t == 17 witness 3

  /** BitString, Integer, Unsigned, OctetString, VisibleString, BCD and MmsString carry a size. */
  type SizedTag = t: int | t == 4 || t == 5 || t == 6 || t == 9 || t == 10 || t == 13 || t == 16 witness 4

  datatype TypeSpec =
    | TypeName(name: Option<ObjectName>)
    | Array(count: Int64, element: Option<TypeSpec>)
    | Structure(components: seq<Component>)
    | Null(kind: NullTag)
    | Sized(sizedKind: SizedTag, size: Int64)
    | Float(formatWidth: Int64, expWidth: Int64)
    | BinaryTime(full: bool)

  datatype Component = Component(name: seq<Byte>, spec: TypeSpec)

  // ----- object names

  function EncodeObjectName(n: ObjectName): (r: Result<seq<Byte>>)
  {
    if n.scope == 0 then Ok(EncodeTLV(0x80, n.item))
    else if n.scope == 1 then Ok(EncodeTLV(0xa1, EncodeTLV(0x1a, n.domain) + EncodeTLV(0x1a, n.item)))
    else if n.scope == 2 then Ok(EncodeTLV(0x82, n.item))
    else Err
  }

  function DecodeDomainName(data: seq<Byte>): (r: Result<ObjectName>)
  {
    var domain :- ReadField(data, 0x1a);
    var item :- ReadField(domain.rest, 0x1a);
    if item.rest != [] then Err else Ok(ObjectName(1, domain.content, item.content))
  }

  function DecodeObjectName(data: seq<Byte>): (r: Result<ObjectName>)
  {
    var tlv :- DecodeTLV(data);
    if tlv.tag == 0x80 then Ok(ObjectName(0, [], tlv.content))
    else if tlv.tag == 0xa1 then DecodeDomainName(tlv.content)
    else if tlv.tag == 0x82 then Ok(ObjectName(2, [], tlv.content))
    else Err
  }

  predicate ValidName(n: ObjectName) {
    n.scope == 1 || ((n.scope == 0 || n.scope == 2) && n.domain == [])
  }

  lemma DomainNameRoundTrip(domain: seq<Byte>, item: seq<Byte>)
    requires |domain| < MAX_CONTENT && |item| < MAX_CONTENT
    ensures DecodeDomainName(EncodeTLV(0x1a, domain) + EncodeTLV(0x1a, item)) == Ok(ObjectName(1, domain, item))
  {
    ReadFieldRoundTrip(0x1a, domain, EncodeTLV(0x1a, item));
    ReadLastField(0x1a, item);
  }

  /** A name whose encoding fits survives exactly when only domain names carry a domain. */
  lemma ObjectNameRoundTrip(n: ObjectName)
    requires EncodeObjectName(n).Ok? && |EncodeObjectName(n).value| < MAX_CONTENT
    ensures DecodeObjectName(EncodeObjectName(n).value) == Ok(n) <==> ValidName(n)
  {
    hide DecodeTLV, EncodeTLV;
    var content := if n.scope == 1 then EncodeTLV(0x1a, n.domain) + EncodeTLV(0x1a, n.item) else n.item;
    var tag := if n.scope == 0 then 0x80 else if n.scope == 1 then 0xa1 else 0x82;
    TLVLength(tag, content);
    TLVRoundTrip(tag, content, []);
    assert EncodeTLV(tag, content) + [] == EncodeTLV(tag, content);
    if n.scope == 1 {
      TLVLength(0x1a, n.domain);
      TLVLength(0x1a, n.item);
      DomainNameRoundTrip(n.domain, n.item);
    }
  }

  // ----- the encoder

  function SpecTag(ts: TypeSpec): Byte
  {
    match ts
    case TypeName(_) => 0xa0
    case Array(_, _) => 0xa1
    case Structure(_) => 0xa2
    case Null(kind) => 0x80 + kind
    case Sized(kind, _) => 0x80 + kind
    case Float(_, _) => 0xa7
    case BinaryTime(_) => 0x8c
  }

  function SpecContent(ts: TypeSpec): (r: Result<seq<Byte>>)
    decreases ts, 0
  {
    match ts
    case Null(_) => Ok([])
    case Sized(_, size) => Ok(EncodeInt(size))
    case Float(f, e) => Ok(EncodeTLV(0x02, EncodeInt(f)) + EncodeTLV(0x02, EncodeInt(e)))
    case BinaryTime(full) => Ok([if full then 0xff else 0])
    case Array(count, None) => Ok(EncodeTLV(0x81, EncodeInt(count)))
    case Array(count, Some(element)) =>
      var elem :- EncodeSpec(element);
      Ok(EncodeTLV(0x81, EncodeInt(count)) + EncodeTLV(0xa2, elem))
    case Structure(components) =>
      var comps :- EncodeComponents(components);
      Ok(EncodeTLV(0xa1, comps))
    case TypeName(None) => Err
    case TypeName(Some(name)) => EncodeObjectName(name)
  }

  /** EncodeTypeSpec. */
  function EncodeSpec(ts: TypeSpec): (r: Result<seq<Byte>>)
    decreases ts, 1
  {
    var content :- SpecContent(ts);
    Ok(EncodeTLV(SpecTag(ts), content))
  }

  function EncodeComponent(c: Component): (r: Result<seq<Byte>>)
    decreases c, 2
  {
    var spec :- EncodeSpec(c.spec);
    Ok((if c.name == [] then [] else EncodeTLV(0x80, c.name)) + EncodeTLV(0xa1, spec))
  }

  function EncodeComponents(cs: seq<Component>): (r: Result<seq<Byte>>)
    decreases cs, 3
  {
    if cs == [] then Ok([])
    else
      var head :- EncodeComponent(cs[0]);
      var tail :- EncodeComponents(cs[1..]);
      Ok(EncodeTLV(0x30, head) + tail)
  }

  // ----- the decoder

  /** An optional leading element that is read and dropped (`packed`). */
  function SkipPacked(data: seq<Byte>): (r: Result<seq<Byte>>)
    ensures r.Ok? ==> |r.value| <= |data|
  {
    if data != [] && data[0] == 0x80 then
      var f :- ReadField(data, 0x80);
      Ok(f.rest)
    else Ok(data)
  }

  function DecodeFloatSpec(data: seq<Byte>): (r: Result<TypeSpec>)
  {
    var f :- ReadField(data, 0x02);
    var e :- ReadField(f.rest, 0x02);
    if e.rest != [] then Err
    else
      var formatWidth :- DecodeInt32(f.content);
      var expWidth :- DecodeInt32(e.content);
      Ok(Float(formatWidth, expWidth))
  }

  /** berutil.DecodeInteger: at most four octets. */
  function DecodeInt32(content: seq<Byte>): (r: Result<Int64>)
  {
    var v :- DecodeSigned(content, 4);
    SignedFits(content);
    Ok(v)
  }

  function DecodeArray(content: seq<Byte>, depth: nat): (r: Result<TypeSpec>)
    decreases |content|, 0
  {
    var data :- SkipPacked(content);
    var n :- ReadField(data, 0x81);
    var count :- DecodeInt32(n.content);
    var e :- ReadField(n.rest, 0xa2);
    if e.rest != [] then Err
    else
      var element :- DecodeSpec(e.content, depth + 1);
      Ok(Array(count, Some(element)))
  }

  function DecodeComponent(content: seq<Byte>, depth: nat): (r: Result<Component>)
    decreases |content|, 0
  {
    var name := if content != [] && content[0] == 0x80 then ReadField(content, 0x80) else Ok(Field([], content));
    if name.Err? then Err
    else
      var t :- ReadField(name.value.rest, 0xa1);
      if t.rest != [] then Err
      else
        var spec :- DecodeSpec(t.content, depth + 1);
        Ok(Component(name.value.content, spec))
  }

  function DecodeComponents(data: seq<Byte>, depth: nat): (r: Result<seq<Component>>)
    decreases |data|, 1
  {
    if data == [] then Ok([])
    else
      var f :- ReadField(data, 0x30);
      var head :- DecodeComponent(f.content, depth);
      var tail :- DecodeComponents(f.rest, depth);
      Ok([head] + tail)
  }

  function DecodeStructure(content: seq<Byte>, depth: nat): (r: Result<TypeSpec>)
    decreases |content|, 0
  {
    var data :- SkipPacked(content);
    var c :- ReadField(data, 0xa1);
    if c.rest != [] then Err
    else
      var components :- DecodeComponents(c.content, depth);
      Ok(Structure(components))
  }

  /** The class bits of the tag are ignored; composite and float specifications must be constructed. */
  function DecodeSpecContent(tag: Byte, content: seq<Byte>, depth: nat): (r: Result<TypeSpec>)
    decreases |content|, 2
  {
    var number := tag % 32;
    var constructed := (tag / 32) % 2 == 1;
    if number == 3 || number == 11 || number == 15 || number == 17 then Ok(Null(number))
    else if number == 4 || number == 5 || number == 6 || number == 9 || number == 10 || number == 13 || number == 16 then
      var size :- DecodeInt32(content);
      Ok(Sized(number, size))
    else if number == 12 then Ok(BinaryTime(|content| == 1 && content[0] != 0))
    else if number == 7 then (if constructed then DecodeFloatSpec(content) else Err)
    else if number == 1 then (if constructed then DecodeArray(content, depth) else Err)
    else if number == 2 then (if constructed then DecodeStructure(content, depth) else Err)
    else if number == 0 then
      var name :- DecodeObjectName(content);
      Ok(TypeName(Some(name)))
    else Err
  }

  /** DecodeTypeSpec; octets after the first element are ignored. */
  function DecodeSpec(data: seq<Byte>, depth: nat): (r: Result<TypeSpec>)
    decreases |data|, 0
  {
    if depth > MAX_NESTING then Err
    else
      var tlv :- DecodeTLV(data);
      DecodeSpecContent(tlv.tag, tlv.content, depth)
  }

  /** The appending offset loop of decodeStructComponentsWithDepth. */
  method ScanComponents(data: seq<Byte>, depth: nat) returns (r: Result<seq<Component>>)
    ensures r == DecodeComponents(data, depth)
  {
    var components: seq<Component>, rest := [], data;
    PrependEmpty([], DecodeComponents(data, depth));
    while rest != []
      invariant DecodeComponents(data, depth) == Prepend(components, DecodeComponents(rest, depth))
      decreases |rest|
    {
      var f := ReadField(rest, 0x30);
      if f.Err? {
        return Err;
      }
      var comp := DecodeComponent(f.value.content, depth);
      if comp.Err? {
        return Err;
      }
      ComponentStep(components, rest, depth);
      components, rest := components + [comp.value], f.value.rest;
    }
    PrependEmpty(components, Ok([]));
    return Ok(components);
  }

  lemma ComponentStep(done: seq<Component>, data: seq<Byte>, depth: nat)
    requires data != [] && ReadField(data, 0x30).Ok?
    requires DecodeComponent(ReadField(data, 0x30).value.content, depth).Ok?
    ensures var f := ReadField(data, 0x30).value;
            Prepend(done, DecodeComponents(data, depth)) ==
            Prepend(done + [DecodeComponent(f.content, depth).value], DecodeComponents(f.rest, depth))
  {
    var f := ReadField(data, 0x30).value;
    var c := DecodeComponent(f.content, depth).value;
    var rest := DecodeComponents(f.rest, depth);
    if rest.Ok? {
      assert done + ([c] + rest.value) == done + [c] + rest.value;
    }
  }

  // ----- which specifications survive

  predicate FitsInt32(v: int) {
    -0x8000_0000 <= v < 0x8000_0000
  }

  /** At most 32 levels, element types present, sizes in int32, domains only on domain names. */
  predicate Valid(ts: TypeSpec, depth: nat)
    decreases ts
  {
    && depth <= MAX_NESTING
    && match ts
       case TypeName(name) => name.Some? && ValidName(name.value)
       case Array(count, element) => FitsInt32(count) && element.Some? && Valid(element.value, depth + 1)
       case Structure(components) => forall i :: 0 <= i < |components| ==> Valid(components[i].spec, depth + 1)
       case Null(_) => true
       case Sized(_, size) => FitsInt32(size)
       case Float(f, e) => FitsInt32(f) && FitsInt32(e)
       case BinaryTime(_) => true
  }

  predicate AllValid(cs: seq<Component>, depth: nat) {
    forall i :: 0 <= i < |cs| ==> Valid(cs[i].spec, depth)
  }

  /** The whole encoding, hence every content in it, is below the length limit. */
  predicate Fits(ts: TypeSpec) {
    SpecContent(ts).Ok? && |SpecContent(ts).value| < MAX_CONTENT
  }

  lemma Int32RoundTrip(v: Int64)
    requires FitsInt32(v)
    ensures DecodeInt32(EncodeInt(v)) == Ok(v)
    ensures |EncodeInt(v)| <= 4
  {
    Pow256Values();
    IntWidth(v, 4);
    IntRoundTrip(v, 4);
  }

  lemma FloatSpecRoundTrip(f: Int64, e: Int64)
    requires FitsInt32(f) && FitsInt32(e)
    ensures DecodeFloatSpec(EncodeTLV(0x02, EncodeInt(f)) + EncodeTLV(0x02, EncodeInt(e))) == Ok(Float(f, e))
  {
    hide ReadField, EncodeTLV, DecodeInt32, EncodeInt;
    Int32RoundTrip(f);
    Int32RoundTrip(e);
    ReadFieldRoundTrip(0x02, EncodeInt(f), EncodeTLV(0x02, EncodeInt(e)));
    ReadLastField(0x02, EncodeInt(e));
  }

  lemma TLVHead(tag: Byte, content: seq<Byte>, rest: seq<Byte>)
    ensures EncodeTLV(tag, content) + rest != [] && (EncodeTLV(tag, content) + rest)[0] == tag
    ensures EncodeTLV(tag, content) != [] && EncodeTLV(tag, content)[0] == tag
  {
  }

  lemma ArrayRead(count: Int64, elem: seq<Byte>, depth: nat)
    requires FitsInt32(count) && |elem| < MAX_CONTENT
    requires DecodeSpec(elem, depth + 1).Ok?
    ensures DecodeArray(EncodeTLV(0x81, EncodeInt(count)) + EncodeTLV(0xa2, elem), depth)
         == Ok(Array(count, Some(DecodeSpec(elem, depth + 1).value)))
  {
    hide ReadField, EncodeTLV, DecodeInt32, EncodeInt, DecodeSpec;
    Int32RoundTrip(count);
    TLVHead(0x81, EncodeInt(count), EncodeTLV(0xa2, elem));
    ReadFieldRoundTrip(0x81, EncodeInt(count), EncodeTLV(0xa2, elem));
    ReadLastField(0xa2, elem);
  }

  lemma ComponentRead(name: seq<Byte>, spec: seq<Byte>, depth: nat)
    requires |name| < MAX_CONTENT && |spec| < MAX_CONTENT
    requires DecodeSpec(spec, depth + 1).Ok?
    ensures DecodeComponent((if name == [] then [] else EncodeTLV(0x80, name)) + EncodeTLV(0xa1, spec), depth)
         == Ok(Component(name, DecodeSpec(spec, depth + 1).value))
  {
    hide ReadField, EncodeTLV, DecodeSpec;
    ReadLastField(0xa1, spec);
    TLVHead(0xa1, spec, []);
    if name == [] {
      assert [] + EncodeTLV(0xa1, spec) == EncodeTLV(0xa1, spec);
    } else {
      TLVHead(0x80, name, EncodeTLV(0xa1, spec));
      ReadFieldRoundTrip(0x80, name, EncodeTLV(0xa1, spec));
    }
  }

  lemma StructureRead(comps: seq<Byte>, depth: nat)
    requires |comps| < MAX_CONTENT
    requires DecodeComponents(comps, depth).Ok?
    ensures DecodeStructure(EncodeTLV(0xa1, comps), depth) == Ok(Structure(DecodeComponents(comps, depth).value))
  {
    hide ReadField, EncodeTLV, DecodeComponents;
    TLVHead(0xa1, comps, []);
    ReadLastField(0xa1, comps);
  }

  /** Decoding what EncodeSpec wrote, in front of any suffix, is the identity on valid specifications. */
  lemma {:induction false} SpecRoundTrip(ts: TypeSpec, depth: nat, rest: seq<Byte>)
    requires Valid(ts, depth) && Fits(ts)
    ensures EncodeSpec(ts).Ok?
    ensures DecodeSpec(EncodeSpec(ts).value + rest, depth) == Ok(ts)
    decreases ts, 2
  {
    hide EncodeTLV, DecodeTLV, DecodeSpecContent, SpecContent;
    TLVRoundTrip(SpecTag(ts), SpecContent(ts).value, rest);
    SpecContentRoundTrip(ts, depth);
  }

  lemma {:induction false} SpecContentRoundTrip(ts: TypeSpec, depth: nat)
    requires Valid(ts, depth) && Fits(ts)
    ensures DecodeSpecContent(SpecTag(ts), SpecContent(ts).value, depth) == Ok(ts)
    decreases ts, 1
  {
    hide DecodeSpecContent, SpecContent;
    if ts.Array? {
      ArrayContentRoundTrip(ts, depth);
    } else if ts.Structure? {
      StructureContentRoundTrip(ts, depth);
    } else {
      LeafContentRoundTrip(ts, depth);
    }
  }

  lemma LeafContentRoundTrip(ts: TypeSpec, depth: nat)
    requires !ts.Array? && !ts.Structure?
    requires Valid(ts, depth) && Fits(ts)
    ensures DecodeSpecContent(SpecTag(ts), SpecContent(ts).value, depth) == Ok(ts)
  {
    hide EncodeTLV, EncodeInt, DecodeInt32, DecodeFloatSpec, DecodeArray, DecodeStructure, DecodeObjectName, EncodeObjectName;
    match ts
    case Null(_) =>
    case BinaryTime(_) =>
    case Sized(_, size) => Int32RoundTrip(size);
    case Float(f, e) => FloatSpecRoundTrip(f, e);
    case TypeName(name) => ObjectNameRoundTrip(name.value);
  }

  lemma {:induction false} ArrayContentRoundTrip(ts: TypeSpec, depth: nat)
    requires ts.Array?
    requires Valid(ts, depth) && Fits(ts)
    ensures DecodeSpecContent(SpecTag(ts), SpecContent(ts).value, depth) == Ok(ts)
    decreases ts, 0
  {
    hide EncodeTLV, EncodeInt, DecodeArray, DecodeStructure, DecodeSpec;
    var element := ts.element.value;
    ElementFits(ts);
    SpecRoundTrip(element, depth + 1, []);
    var elem := EncodeSpec(element).value;
    assert elem + [] == elem;
    ArrayRead(ts.count, elem, depth);
  }

  lemma {:induction false} StructureContentRoundTrip(ts: TypeSpec, depth: nat)
    requires ts.Structure?
    requires Valid(ts, depth) && Fits(ts)
    ensures DecodeSpecContent(SpecTag(ts), SpecContent(ts).value, depth) == Ok(ts)
    decreases ts, 0
  {
    hide EncodeTLV, DecodeArray, DecodeStructure, DecodeComponents;
    var comps := EncodeComponents(ts.components).value;
    TLVLength(0xa1, comps);
    ComponentsRoundTrip(ts.components, depth);
    StructureRead(comps, depth);
  }

  lemma ElementFits(ts: TypeSpec)
    requires ts.Array? && ts.element.Some? && Fits(ts)
    ensures Fits(ts.element.value) && EncodeSpec(ts.element.value).Ok?
    ensures |EncodeSpec(ts.element.value).value| < MAX_CONTENT
  {
    var elem := EncodeSpec(ts.element.value).value;
    TLVLength(0xa2, elem);
    TLVLength(SpecTag(ts.element.value), SpecContent(ts.element.value).value);
  }

  lemma ComponentFits(c: Component)
    requires EncodeComponent(c).Ok? && |EncodeComponent(c).value| < MAX_CONTENT
    ensures Fits(c.spec) && EncodeSpec(c.spec).Ok?
    ensures |EncodeSpec(c.spec).value| < MAX_CONTENT && |c.name| < MAX_CONTENT
  {
    var spec := EncodeSpec(c.spec).value;
    TLVLength(0x80, c.name);
    TLVLength(0xa1, spec);
    TLVLength(SpecTag(c.spec), SpecContent(c.spec).value);
  }

  lemma {:induction false} ComponentsRoundTrip(cs: seq<Component>, depth: nat)
    requires AllValid(cs, depth + 1)
    requires EncodeComponents(cs).Ok? && |EncodeComponents(cs).value| < MAX_CONTENT
    ensures DecodeComponents(EncodeComponents(cs).value, depth) == Ok(cs)
    decreases cs, 3
  {
    hide EncodeTLV, ReadField, DecodeComponent, EncodeComponent;
    if cs != [] {
      var head, tail := EncodeComponent(cs[0]).value, EncodeComponents(cs[1..]).value;
      TLVLength(0x30, head);
      TLVHead(0x30, head, tail);
      ComponentsRoundTrip(cs[1..], depth);
      ReadFieldRoundTrip(0x30, head, tail);
      ComponentRoundTrip(cs[0], depth);
      assert cs == [cs[0]] + cs[1..];
    }
  }

  lemma {:induction false} ComponentRoundTrip(c: Component, depth: nat)
    requires Valid(c.spec, depth + 1)
    requires EncodeComponent(c).Ok? && |EncodeComponent(c).value| < MAX_CONTENT
    ensures DecodeComponent(EncodeComponent(c).value, depth) == Ok(c)
    decreases c, 2
  {
    hide DecodeComponent, DecodeSpec;
    ComponentFits(c);
    SpecRoundTrip(c.spec, depth + 1, []);
    var spec := EncodeSpec(c.spec).value;
    assert spec + [] == spec;
    ComponentRead(c.name, spec, depth);
  }

  // ----- and only those

  lemma Int32Range(content: seq<Byte>)
    requires DecodeInt32(content).Ok?
    ensures FitsInt32(DecodeInt32(content).value)
  {
    SignedWithin(content, 4);
    Pow256Values();
  }

  lemma {:induction false} DecodedIsValid(data: seq<Byte>, depth: nat)
    requires DecodeSpec(data, depth).Ok?
    ensures Valid(DecodeSpec(data, depth).value, depth)
    decreases |data|, 0
  {
    hide DecodeFloatSpec, DecodeInt32, ReadField, DecodeObjectName;
    var tlv := DecodeTLV(data).value;
    var content := tlv.content;
    var number := tlv.tag % 32;
    if number == 7 {
      FloatSpecIsValid(content);
    } else if number == 1 {
      ArrayIsValid(content, depth);
    } else if number == 2 {
      StructureIsValid(content, depth);
    } else if number == 0 {
      NameIsValid(content);
    } else if DecodeInt32(content).Ok? {
      Int32Range(content);
    }
  }

  lemma NameIsValid(data: seq<Byte>)
    requires DecodeObjectName(data).Ok?
    ensures ValidName(DecodeObjectName(data).value)
  {
  }

  lemma FloatSpecIsValid(data: seq<Byte>)
    requires DecodeFloatSpec(data).Ok?
    ensures DecodeFloatSpec(data).value.Float?
    ensures FitsInt32(DecodeFloatSpec(data).value.formatWidth) && FitsInt32(DecodeFloatSpec(data).value.expWidth)
  {
    var f := ReadField(data, 0x02).value;
    Int32Range(f.content);
    Int32Range(ReadField(f.rest, 0x02).value.content);
  }

  lemma {:induction false} ArrayIsValid(content: seq<Byte>, depth: nat)
    requires depth <= MAX_NESTING
    requires DecodeArray(content, depth).Ok?
    ensures Valid(DecodeArray(content, depth).value, depth)
    decreases |content|, 0
  {
    hide DecodeInt32, ReadField, DecodeSpec;
    var n := ReadField(SkipPacked(content).value, 0x81).value;
    Int32Range(n.content);
    DecodedIsValid(ReadField(n.rest, 0xa2).value.content, depth + 1);
  }

  lemma {:induction false} StructureIsValid(content: seq<Byte>, depth: nat)
    requires depth <= MAX_NESTING
    requires DecodeStructure(content, depth).Ok?
    ensures Valid(DecodeStructure(content, depth).value, depth)
    decreases |content|, 0
  {
    hide ReadField, DecodeComponents;
    ComponentsAreValid(ReadField(SkipPacked(content).value, 0xa1).value.content, depth);
  }

  lemma {:induction false} ComponentsAreValid(data: seq<Byte>, depth: nat)
    requires DecodeComponents(data, depth).Ok?
    ensures AllValid(DecodeComponents(data, depth).value, depth + 1)
    decreases |data|, 1
  {
    hide ReadField, DecodeComponent, Valid;
    if data != [] {
      var f := ReadField(data, 0x30).value;
      ComponentIsValid(f.content, depth);
      ComponentsAreValid(f.rest, depth);
      assert DecodeComponents(data, depth).value
          == [DecodeComponent(f.content, depth).value] + DecodeComponents(f.rest, depth).value;
    }
  }

  lemma {:induction false} ComponentIsValid(content: seq<Byte>, depth: nat)
    requires DecodeComponent(content, depth).Ok?
    ensures Valid(DecodeComponent(content, depth).value.spec, depth + 1)
    decreases |content|, 0
  {
    hide ReadField, DecodeSpec;
    var name := if content != [] && content[0] == 0x80 then ReadField(content, 0x80) else Ok(Field([], content));
    DecodedIsValid(ReadField(name.value.rest, 0xa1).value.content, depth + 1);
  }

  /** Among specifications whose encoding fits, exactly the valid ones survive the wire. */
  lemma SpecRoundTripExactly(ts: TypeSpec, rest: seq<Byte>)
    requires Fits(ts)
    ensures EncodeSpec(ts).Ok?
    ensures DecodeSpec(EncodeSpec(ts).value + rest, 0) == Ok(ts) <==> Valid(ts, 0)
  {
    hide DecodeSpec;
    if Valid(ts, 0) {
      SpecRoundTrip(ts, 0, rest);
    } else if DecodeSpec(EncodeSpec(ts).value + rest, 0) == Ok(ts) {
      DecodedIsValid(EncodeSpec(ts).value + rest, 0);
    }
  }

  // ----- whatever decodes, encoded again

  /** A field takes at least the octets of its shortest encoding. */
  lemma FieldSize(data: seq<Byte>, tag: Byte)
    requires ReadField(data, tag).Ok?
    ensures var f := ReadField(data, tag).value;
            |f.content| < MAX_CONTENT && TLVSize(|f.content|) + |f.rest| <= |data|
  {
    TLVShortest(data);
  }

  /** An element whose content at most doubles, but for one octet, at most doubles. */
  lemma AtMostDoubled(n: nat, m: nat)
    requires m <= 2 * n + 1 && n < MAX_CONTENT
    ensures TLVSize(m) <= 2 * TLVSize(n)
    ensures ByteCount(m) <= 8
  {
    LengthSizeMonotone(m, 2 * n + 1);
    LengthSizeValues(n);
    LengthSizeValues(2 * n + 1);
    Pow256Values();
    ByteCountLeast(2 * n + 1, 4);
    ByteCountLeast(m, 8);
  }

  /** An INTEGER read by DecodeInt32 and written again is no longer. */
  lemma Int32Shrinks(content: seq<Byte>, tag: Byte)
    requires DecodeInt32(content).Ok?
    ensures |EncodeInt(DecodeInt32(content).value)| <= |content|
    ensures |EncodeTLV(tag, EncodeInt(DecodeInt32(content).value))| <= TLVSize(|content|)
  {
    hide EncodeTLV, EncodeInt;
    SignedFits(content);
    IntNormalises(content);
    TLVLength(tag, EncodeInt(DecodeInt32(content).value));
    TLVSizeMonotone(|EncodeInt(DecodeInt32(content).value)|, |content|);
  }

  lemma FloatShrinks(data: seq<Byte>)
    requires DecodeFloatSpec(data).Ok?
    ensures DecodeFloatSpec(data).value.Float?
    ensures |SpecContent(DecodeFloatSpec(data).value).value| <= |data|
  {
    hide ReadField, EncodeTLV, EncodeInt, DecodeInt32;
    var f := ReadField(data, 0x02).value;
    var e := ReadField(f.rest, 0x02).value;
    FieldSize(data, 0x02);
    FieldSize(f.rest, 0x02);
    Int32Shrinks(f.content, 0x02);
    Int32Shrinks(e.content, 0x02);
  }

  lemma DomainNameShrinks(data: seq<Byte>)
    requires DecodeDomainName(data).Ok?
    ensures var n := DecodeDomainName(data).value;
            n.scope == 1 && |EncodeTLV(0x1a, n.domain)| + |EncodeTLV(0x1a, n.item)| <= |data|
  {
    hide ReadField, EncodeTLV;
    var domain := ReadField(data, 0x1a).value;
    FieldSize(data, 0x1a);
    FieldSize(domain.rest, 0x1a);
    TLVLength(0x1a, domain.content);
    TLVLength(0x1a, ReadField(domain.rest, 0x1a).value.content);
  }

  lemma NameShrinks(data: seq<Byte>)
    requires DecodeObjectName(data).Ok?
    ensures EncodeObjectName(DecodeObjectName(data).value).Ok?
    ensures |EncodeObjectName(DecodeObjectName(data).value).value| <= |data|
  {
    hide DecodeTLV, EncodeTLV, DecodeDomainName;
    var tlv := DecodeTLV(data).value;
    var n := DecodeObjectName(data).value;
    TLVShortest(data);
    if tlv.tag == 0xa1 {
      DomainNameShrinks(tlv.content);
      var body := EncodeTLV(0x1a, n.domain) + EncodeTLV(0x1a, n.item);
      TLVLength(0xa1, body);
      TLVSizeMonotone(|body|, |tlv.content|);
    } else {
      TLVLength(tlv.tag, n.item);
    }
  }

  /** A decoded specification encodes again, in at most twice the octets. */
  lemma {:induction false} SpecGrows(data: seq<Byte>, depth: nat)
    requires DecodeSpec(data, depth).Ok?
    ensures var ts := DecodeSpec(data, depth).value;
            EncodeSpec(ts).Ok? && |EncodeSpec(ts).value| <= 2 * |data| && ByteCount(|SpecContent(ts).value|) <= 8
    decreases |data|, 0
  {
    hide DecodeTLV, EncodeTLV, DecodeSpecContent, SpecContent;
    var tlv := DecodeTLV(data).value;
    var ts := DecodeSpec(data, depth).value;
    TLVShortest(data);
    ContentGrows(tlv.tag, tlv.content, depth);
    var content := SpecContent(ts).value;
    AtMostDoubled(|tlv.content|, |content|);
    TLVLength(SpecTag(ts), content);
  }

  lemma {:induction false} ContentGrows(tag: Byte, content: seq<Byte>, depth: nat)
    requires DecodeSpecContent(tag, content, depth).Ok?
    ensures var ts := DecodeSpecContent(tag, content, depth).value;
            SpecContent(ts).Ok? && |SpecContent(ts).value| <= 2 * |content| + 1
    decreases |content|, 2
  {
    hide DecodeFloatSpec, DecodeInt32, ReadField, DecodeObjectName, EncodeObjectName, DecodeArray, DecodeStructure,
         EncodeInt, EncodeTLV, EncodeComponents, EncodeSpec;
    var number := tag % 32;
    if number == 7 {
      FloatShrinks(content);
    } else if number == 1 {
      ArrayGrows(content, depth);
    } else if number == 2 {
      StructureGrows(content, depth);
    } else if number == 0 {
      NameShrinks(content);
    } else if DecodeInt32(content).Ok? {
      Int32Shrinks(content, 0x02);
    }
  }

  lemma {:induction false} ArrayGrows(content: seq<Byte>, depth: nat)
    requires DecodeArray(content, depth).Ok?
    ensures var ts := DecodeArray(content, depth).value;
            SpecContent(ts).Ok? && |SpecContent(ts).value| <= 2 * |content|
    decreases |content|, 0
  {
    hide DecodeInt32, ReadField, DecodeSpec, EncodeInt, EncodeTLV, EncodeSpec;
    var data := SkipPacked(content).value;
    var n := ReadField(data, 0x81).value;
    var e := ReadField(n.rest, 0xa2).value;
    FieldSize(data, 0x81);
    FieldSize(n.rest, 0xa2);
    Int32Shrinks(n.content, 0x81);
    SpecGrows(e.content, depth + 1);
    var elem := EncodeSpec(DecodeSpec(e.content, depth + 1).value).value;
    AtMostDoubled(|e.content|, |elem|);
    TLVLength(0xa2, elem);
  }

  lemma {:induction false} StructureGrows(content: seq<Byte>, depth: nat)
    requires DecodeStructure(content, depth).Ok?
    ensures var ts := DecodeStructure(content, depth).value;
            SpecContent(ts).Ok? && |SpecContent(ts).value| <= 2 * |content|
    decreases |content|, 0
  {
    hide ReadField, DecodeComponents, EncodeTLV, EncodeComponents;
    var data := SkipPacked(content).value;
    var c := ReadField(data, 0xa1).value;
    FieldSize(data, 0xa1);
    ComponentsGrow(c.content, depth);
    var comps := EncodeComponents(DecodeComponents(c.content, depth).value).value;
    AtMostDoubled(|c.content|, |comps|);
    TLVLength(0xa1, comps);
  }

  lemma {:induction false} ComponentsGrow(data: seq<Byte>, depth: nat)
    requires DecodeComponents(data, depth).Ok?
    ensures var cs := DecodeComponents(data, depth).value;
            EncodeComponents(cs).Ok? && |EncodeComponents(cs).value| <= 2 * |data|
    decreases |data|, 1
  {
    hide ReadField, DecodeComponent, EncodeComponent, EncodeTLV;
    if data != [] {
      var f := ReadField(data, 0x30).value;
      var cs := DecodeComponents(data, depth).value;
      FieldSize(data, 0x30);
      ComponentGrows(f.content, depth);
      ComponentsGrow(f.rest, depth);
      assert cs[1..] == DecodeComponents(f.rest, depth).value;
      var head := EncodeComponent(cs[0]).value;
      AtMostDoubled(|f.content|, |head|);
      TLVLength(0x30, head);
    }
  }

  lemma {:induction false} ComponentGrows(content: seq<Byte>, depth: nat)
    requires DecodeComponent(content, depth).Ok?
    ensures var c := DecodeComponent(content, depth).value;
            EncodeComponent(c).Ok? && |EncodeComponent(c).value| <= 2 * |content|
    decreases |content|, 0
  {
    hide ReadField, DecodeSpec, EncodeSpec, EncodeTLV;
    var name := if content != [] && content[0] == 0x80 then ReadField(content, 0x80) else Ok(Field([], content));
    var t := ReadField(name.value.rest, 0xa1).value;
    if content != [] && content[0] == 0x80 {
      FieldSize(content, 0x80);
      TLVLength(0x80, name.value.content);
    }
    FieldSize(name.value.rest, 0xa1);
    SpecGrows(t.content, depth + 1);
    var spec := EncodeSpec(DecodeSpec(t.content, depth + 1).value).value;
    AtMostDoubled(|t.content|, |spec|);
    TLVLength(0xa1, spec);
  }

  /**
   Whatever decodes encodes again, in at most twice the octets, and that decodes
   to the same specification exactly when it is within the length limit.
   */
  lemma DecodedSpecSurvives(data: seq<Byte>, rest: seq<Byte>)
    requires DecodeSpec(data, 0).Ok?
    ensures var ts := DecodeSpec(data, 0).value;
            && EncodeSpec(ts).Ok? && |EncodeSpec(ts).value| <= 2 * |data|
            && (DecodeSpec(EncodeSpec(ts).value + rest, 0) == Ok(ts) <==> Fits(ts))
  {
    hide DecodeTLV, EncodeTLV, DecodeSpecContent, SpecContent, Valid;
    var ts := DecodeSpec(data, 0).value;
    SpecGrows(data, 0);
    DecodedIsValid(data, 0);
    if Fits(ts) {
      SpecRoundTrip(ts, 0, rest);
    } else {
      TLVTooLong(SpecTag(ts), SpecContent(ts).value, rest);
    }
  }

  /** In particular anything received in fewer than 2^23 octets survives. */
  lemma ShortSpecSurvives(data: seq<Byte>, rest: seq<Byte>)
    requires DecodeSpec(data, 0).Ok? && |data| < MAX_CONTENT / 2
    ensures var ts := DecodeSpec(data, 0).value;
            EncodeSpec(ts).Ok? && DecodeSpec(EncodeSpec(ts).value + rest, 0) == Ok(ts)
  {
    hide DecodeSpec, SpecContent;
    var ts := DecodeSpec(data, 0).value;
    DecodedSpecSurvives(data, rest);
    TLVLength(SpecTag(ts), SpecContent(ts).value);
  }

  /** It may grow: a binary-time specification without content is written with one octet. */
  lemma BareBinaryTimeGrows()
    ensures DecodeSpec([0x8c, 0], 0) == Ok(BinaryTime(false))
    ensures EncodeSpec(BinaryTime(false)) == Ok([0x8c, 1, 0])
  {
    assert [0x8c, 0][1..] == [0];
    assert [0x8c, 0][2..2] == [];
    assert DecodeTLV([0x8c, 0]) == Ok(Tlv(0x8c, [], 2));
    assert SpecContent(BinaryTime(false)) == Ok([0]);
    assert EncodeTLV(0x8c, [0]) == [0x8c, 1, 0];
  }
}
