/**
 What the octets of a TypeSpecification and of an AlternateAccess denote
 (internal/pdu/getvaraccess.go, internal/pdu/altaccess.go), for every form the
 decoders accept: elements in any length form, the optional packed field,
 fields in either order. Tags are those of ISO 9506-2.
 */
module TypeSpecMeaning {
  import opened Bytes
  import opened Results
  import opened Ber
  import opened Integers
  import opened Meaning
  import opened TypeSpecWire
  import A = AltAccessWire

  /** A specification is decoded by tag and content, down to 32 levels. */
  lemma SpecElement(tag: Byte, form: seq<Byte>, content: seq<Byte>, rest: seq<Byte>, depth: nat)
    requires LengthForm(form, |content|)
    ensures DecodeSpec(El(tag, form, content) + rest, depth) ==
            if depth <= 32 then DecodeSpecContent(tag, content, depth) else Err
  {
    hide DecodeTLV, DecodeSpecContent, LengthForm;
    ElementMeaning(tag, form, content, rest);
  }

  /** Tag number and constructed bit decide; the class bits do not matter. */
  lemma ClassIgnored(tag: Byte, other: Byte, content: seq<Byte>, depth: nat)
    requires tag % 64 == other % 64
    ensures DecodeSpecContent(tag, content, depth) == DecodeSpecContent(other, content, depth)
  {
    hide DecodeInt32, DecodeFloatSpec, DecodeArray, DecodeStructure, DecodeObjectName;
    SameLowBits(tag, other);
  }

  lemma SameLowBits(a: Byte, b: Byte)
    requires a % 64 == b % 64
    ensures a % 32 == b % 32 && (a / 32) % 2 == (b / 32) % 2
  {
    SixBits(a);
    SixBits(b);
  }

  lemma SixBits(a: Byte)
    ensures a % 32 == (a % 64) % 32 && (a / 32) % 2 == (a % 64) / 32
  {
    var q, r := a / 64, a % 64;
    var s, t := r / 32, r % 32;
    assert a == 32 * (2 * q + s) + t;
    assert a / 32 == 2 * q + s && a % 32 == t;
  }

  lemma TagNumber(number: int)
    requires 0 <= number < 32
    ensures (0x80 + number) % 32 == number
  {
  }

  lemma Int32Meaning(content: seq<Byte>)
    ensures DecodeInt32(content).Ok? <==> 1 <= |content| <= 4
    ensures DecodeInt32(content).Ok? ==> TwosComplement(content, DecodeInt32(content).value)
  {
    hide TwosComplement;
    SignedMeaning(content, 4);
  }

  /** The types without a parameter, whatever their content: boolean, generalized time, object identifier, UTC time. */
  lemma NullMeaning(content: seq<Byte>, depth: nat)
    ensures DecodeSpecContent(0x83, content, depth) == Ok(Null(3))
    ensures DecodeSpecContent(0x8b, content, depth) == Ok(Null(11))
    ensures DecodeSpecContent(0x8f, content, depth) == Ok(Null(15))
    ensures DecodeSpecContent(0x91, content, depth) == Ok(Null(17))
  {
    hide DecodeInt32, DecodeFloatSpec, DecodeArray, DecodeStructure, DecodeObjectName;
    TagNumber(3);
    TagNumber(11);
    TagNumber(15);
    TagNumber(17);
  }

  /** Bit string, integer, unsigned, octet, visible, BCD and MMS string carry a size of one to four octets. */
  lemma SizedMeaning(number: int, content: seq<Byte>, depth: nat)
    requires number in {4, 5, 6, 9, 10, 13, 16}
    ensures var r := DecodeSpecContent(0x80 + number, content, depth);
            && (r.Ok? <==> 1 <= |content| <= 4)
            && (r.Ok? ==> r.value.Sized? && r.value.sizedKind == number && TwosComplement(content, r.value.size))
  {
    hide DecodeInt32, TwosComplement, DecodeFloatSpec, DecodeArray, DecodeStructure, DecodeObjectName;
    TagNumber(number);
    Int32Meaning(content);
  }

  /** Binary time: one non-zero octet says that it has a date; anything else that it has not. */
  lemma BinaryTimeMeaning(content: seq<Byte>, depth: nat)
    ensures DecodeSpecContent(0x8c, content, depth) == Ok(BinaryTime(|content| == 1 && content[0] != 0))
  {
    hide DecodeInt32, DecodeFloatSpec, DecodeArray, DecodeStructure, DecodeObjectName;
    TagNumber(12);
  }

  /** Floating point: format width and exponent width, in this order and nothing else. */
  lemma FloatMeaning(f: seq<Byte>, width: seq<Byte>, e: seq<Byte>, exponent: seq<Byte>, depth: nat)
    requires LengthForm(f, |width|) && LengthForm(e, |exponent|)
    ensures var r := DecodeSpecContent(0xa7, El(0x02, f, width) + El(0x02, e, exponent), depth);
            && (r.Ok? <==> 1 <= |width| <= 4 && 1 <= |exponent| <= 4)
            && (r.Ok? ==> r.value.Float? && TwosComplement(width, r.value.formatWidth) && TwosComplement(exponent, r.value.expWidth))
  {
    hide ReadField, LengthForm, DecodeInt32, TwosComplement, El;
    FieldMeaning(0x02, f, width, El(0x02, e, exponent), 0x02);
    LastField(0x02, e, exponent);
    Int32Meaning(width);
    Int32Meaning(exponent);
  }

  /** The packed field in front of an array or structure, if it is there. */
  ghost predicate Packed(octets: seq<Byte>) {
    octets == [] || exists form: seq<Byte>, b: seq<Byte> :: LengthForm(form, |b|) && octets == El(0x80, form, b)
  }

  lemma PackedSkipped(packed: seq<Byte>, rest: seq<Byte>)
    requires Packed(packed) && rest != [] && rest[0] != 0x80
    ensures SkipPacked(packed + rest) == Ok(rest)
  {
    hide ReadField, LengthForm;
    if packed == [] {
      assert packed + rest == rest;
    } else {
      var form: seq<Byte>, b: seq<Byte> :| LengthForm(form, |b|) && packed == El(0x80, form, b);
      FieldMeaning(0x80, form, b, rest, 0x80);
      ElHead(0x80, form, b, rest);
    }
  }

  /** An array: packed or not, its number of elements, then its element type one level down. */
  lemma ArrayMeaning(packed: seq<Byte>, n: seq<Byte>, count: seq<Byte>, e: seq<Byte>, element: seq<Byte>, depth: nat)
    requires Packed(packed) && LengthForm(n, |count|) && LengthForm(e, |element|)
    ensures var r := DecodeSpecContent(0xa1, packed + (El(0x81, n, count) + El(0xa2, e, element)), depth);
            var inner := DecodeSpec(element, depth + 1);
            && (r.Ok? <==> 1 <= |count| <= 4 && inner.Ok?)
            && (r.Ok? ==> r.value.Array? && TwosComplement(count, r.value.count) && r.value.element == Some(inner.value))
  {
    hide ReadField, LengthForm, DecodeInt32, TwosComplement, El, DecodeSpec, SkipPacked, Packed;
    var rest := El(0x81, n, count) + El(0xa2, e, element);
    ElHead(0x81, n, count, El(0xa2, e, element));
    PackedSkipped(packed, rest);
    FieldMeaning(0x81, n, count, El(0xa2, e, element), 0x81);
    LastField(0xa2, e, element);
    Int32Meaning(count);
  }

  /** A structure: packed or not, then the list of its components. */
  lemma StructureMeaning(packed: seq<Byte>, c: seq<Byte>, comps: seq<Byte>, depth: nat)
    requires Packed(packed) && LengthForm(c, |comps|)
    ensures DecodeSpecContent(0xa2, packed + El(0xa1, c, comps), depth) ==
            match DecodeComponents(comps, depth) case Err => Err case Ok(cs) => Ok(Structure(cs))
  {
    hide ReadField, LengthForm, El, DecodeComponents, SkipPacked, Packed;
    ElHead(0xa1, c, comps, []);
    assert El(0xa1, c, comps) + [] == El(0xa1, c, comps);
    PackedSkipped(packed, El(0xa1, c, comps));
    LastField(0xa1, c, comps);
  }

  /** A component: its name, if it has one, and its type one level down; components follow each other in order. */
  lemma ComponentMeaning(form: seq<Byte>, named: bool, n: seq<Byte>, name: seq<Byte>, t: seq<Byte>, spec: seq<Byte>, rest: seq<Byte>, depth: nat)
    requires LengthForm(n, |name|) && LengthForm(t, |spec|)
    requires LengthForm(form, |(if named then El(0x80, n, name) else []) + El(0xa1, t, spec)|)
    ensures var content := (if named then El(0x80, n, name) else []) + El(0xa1, t, spec);
            var inner, others := DecodeSpec(spec, depth + 1), DecodeComponents(rest, depth);
            DecodeComponents(El(0x30, form, content) + rest, depth) ==
            if inner.Err? || others.Err? then Err
            else Ok([Component(if named then name else [], inner.value)] + others.value)
  {
    hide ReadField, LengthForm, El, DecodeSpec;
    var content := (if named then El(0x80, n, name) else []) + El(0xa1, t, spec);
    ElHead(0x30, form, content, rest);
    FieldMeaning(0x30, form, content, rest, 0x30);
    LastField(0xa1, t, spec);
    ElHead(0xa1, t, spec, []);
    assert El(0xa1, t, spec) + [] == El(0xa1, t, spec);
    if named {
      ElHead(0x80, n, name, El(0xa1, t, spec));
      FieldMeaning(0x80, n, name, El(0xa1, t, spec), 0x80);
    } else {
      assert content == El(0xa1, t, spec);
    }
  }

  /** A type name: the item alone for VMD and association scope, domain and item for domain scope. */
  lemma NameMeaning(form: seq<Byte>, item: seq<Byte>, depth: nat)
    requires LengthForm(form, |item|)
    ensures DecodeSpecContent(0xa0, El(0x80, form, item), depth) == Ok(TypeName(Some(ObjectName(0, [], item))))
    ensures DecodeSpecContent(0xa0, El(0x82, form, item), depth) == Ok(TypeName(Some(ObjectName(2, [], item))))
  {
    hide DecodeTLV, LengthForm;
    ElementMeaning(0x80, form, item, []);
    ElementMeaning(0x82, form, item, []);
    assert El(0x80, form, item) + [] == El(0x80, form, item) && El(0x82, form, item) + [] == El(0x82, form, item);
  }

  lemma DomainNameMeaning(form: seq<Byte>, d: seq<Byte>, domain: seq<Byte>, i: seq<Byte>, item: seq<Byte>, depth: nat)
    requires LengthForm(d, |domain|) && LengthForm(i, |item|)
    requires LengthForm(form, |El(0x1a, d, domain) + El(0x1a, i, item)|)
    ensures DecodeSpecContent(0xa0, El(0xa1, form, El(0x1a, d, domain) + El(0x1a, i, item)), depth)
         == Ok(TypeName(Some(ObjectName(1, domain, item))))
  {
    hide DecodeTLV, ReadField, LengthForm;
    var content := El(0x1a, d, domain) + El(0x1a, i, item);
    ElementMeaning(0xa1, form, content, []);
    assert El(0xa1, form, content) + [] == El(0xa1, form, content);
    FieldMeaning(0x1a, d, domain, El(0x1a, i, item), 0x1a);
    LastField(0x1a, i, item);
  }

  /** Other tag numbers, and composites or floats that are not constructed, are refused. */
  lemma Refused(tag: Byte, content: seq<Byte>, depth: nat)
    ensures tag % 32 in {8, 14, 18, 19, 20, 21, 22, 23, 24, 25, 26, 27, 28, 29, 30, 31} ==> DecodeSpecContent(tag, content, depth) == Err
    ensures tag % 32 in {1, 2, 7} && (tag / 32) % 2 == 0 ==> DecodeSpecContent(tag, content, depth) == Err
  {
    hide DecodeInt32, DecodeFloatSpec, DecodeArray, DecodeStructure, DecodeObjectName;
  }

  // ----- alternate access

  /** The last selector of a chain: a component name, an index, or a range, each under its own tag. */
  lemma TerminalMeaning(content: seq<Byte>)
    ensures A.DecodeSelection(0x81, content) == if 1 <= |content| <= 1024 then Ok([A.ByName(content)]) else Err
    ensures A.DecodeSelection(0x82, content) == if IsIndex(content) then Ok([A.ByIndex(Place(content))]) else Err
  {
    hide DecodeUnsigned, Place;
    UnsignedMeaning(content, 4);
  }

  /** Up to four octets without a sign, or five of which the first is zero. */
  predicate IsIndex(content: seq<Byte>) {
    content != [] && content[0] < 128 && (|content| <= 4 || (content[0] == 0 && |content| == 5))
  }

  /** A range: the low index and the number of elements, in either order. */
  lemma RangeMeaning(l: seq<Byte>, low: seq<Byte>, n: seq<Byte>, num: seq<Byte>)
    requires LengthForm(l, |low|) && LengthForm(n, |num|)
    ensures var good := IsIndex(low) && IsIndex(num);
            var range := if good then Ok([A.ByRange(Place(low), Place(num))]) else Err;
            && A.DecodeSelection(0xa3, El(0x80, l, low) + El(0x81, n, num)) == range
            && A.DecodeSelection(0xa3, El(0x81, n, num) + El(0x80, l, low)) == range
  {
    hide DecodeTLV, DecodeUnsigned, Place, LengthForm, El;
    UnsignedMeaning(low, 4);
    UnsignedMeaning(num, 4);
    RangeField(0x80, l, low, El(0x81, n, num), None, None);
    RangeField(0x81, n, num, El(0x80, l, low), None, None);
    if IsIndex(low) {
      RangeField(0x81, n, num, [], Some(Place(low)), None);
    }
    if IsIndex(num) {
      RangeField(0x80, l, low, [], None, Some(Place(num)));
    }
    assert El(0x81, n, num) + [] == El(0x81, n, num) && El(0x80, l, low) + [] == El(0x80, l, low);
  }

  lemma RangeField(tag: Byte, form: seq<Byte>, content: seq<Byte>, rest: seq<Byte>, low: Option<nat>, num: Option<nat>)
    requires LengthForm(form, |content|) && (tag == 0x80 || tag == 0x81)
    ensures var v := DecodeUnsigned(content, 4);
            A.DecodeRangeFields(El(tag, form, content) + rest, low, num) ==
            if v.Err? then Err
            else if tag == 0x80 then A.DecodeRangeFields(rest, Some(v.value), num)
            else A.DecodeRangeFields(rest, low, Some(v.value))
  {
    hide DecodeTLV, DecodeUnsigned, LengthForm;
    ElementMeaning(tag, form, content, rest);
    ElHead(tag, form, content, rest);
    assert (El(tag, form, content) + rest)[1 + |form| + |content|..] == rest;
  }

  /** Inside a chain the selectors have the tags of an access selection, and the rest of the chain follows under [5]. */
  lemma NestedMeaning(s: seq<Byte>, content: seq<Byte>, n: seq<Byte>, nested: seq<Byte>)
    requires LengthForm(s, |content|) && LengthForm(n, |nested|)
    ensures A.DecodeSelection(0xa0, El(0x80, s, content) + El(0xa5, n, nested)) == Follow(A.DecodeSelection(0x81, content), A.DecodeChain(nested))
    ensures A.DecodeSelection(0xa0, El(0x81, s, content) + El(0xa5, n, nested)) == Follow(A.DecodeSelection(0x82, content), A.DecodeChain(nested))
    ensures A.DecodeSelection(0xa0, El(0xa2, s, content) + El(0xa5, n, nested)) == Follow(A.DecodeSelection(0xa3, content), A.DecodeChain(nested))
  {
    hide LengthForm, El, A.DecodeNested, A.DecodeName, A.DecodeIndex, A.DecodeRangeFields, A.DecodeChain;
    NestedStep(0x80, s, content, n, nested);
    NestedStep(0x81, s, content, n, nested);
    NestedStep(0xa2, s, content, n, nested);
  }

  /** A selection with nothing below it is one selector; anything else than one chain behind it is refused. */
  lemma NestedAlone(tag: Byte, s: seq<Byte>, content: seq<Byte>, n: seq<Byte>, nested: seq<Byte>, rest: seq<Byte>)
    requires LengthForm(s, |content|) && LengthForm(n, |nested|)
    ensures var sel := A.DecodeSelector(tag, content, 0x80, 0x81, 0xa2);
            && A.DecodeSelection(0xa0, El(tag, s, content)) == (if sel.Err? then Err else Ok([sel.value]))
            && (rest != [] ==> A.DecodeSelection(0xa0, El(tag, s, content) + (El(0xa5, n, nested) + rest)) == Err)
  {
    hide DecodeTLV, ReadField, LengthForm, A.DecodeSelector, A.DecodeChain;
    ElementMeaning(tag, s, content, []);
    ElementMeaning(tag, s, content, El(0xa5, n, nested) + rest);
    ElHead(0xa5, n, nested, rest);
    FieldMeaning(0xa5, n, nested, rest, 0xa5);
    assert El(tag, s, content) + [] == El(tag, s, content);
    assert (El(tag, s, content) + (El(0xa5, n, nested) + rest))[1 + |s| + |content|..] == El(0xa5, n, nested) + rest;
  }

  /** One selection, then the chain below it. */
  function Follow(first: Result<seq<A.Selector>>, rest: Result<seq<A.Selector>>): Result<seq<A.Selector>> {
    if first.Err? || rest.Err? then Err else Ok(first.value + rest.value)
  }

  lemma NestedStep(tag: Byte, s: seq<Byte>, content: seq<Byte>, n: seq<Byte>, nested: seq<Byte>)
    requires LengthForm(s, |content|) && LengthForm(n, |nested|)
    ensures var sel := A.DecodeSelector(tag, content, 0x80, 0x81, 0xa2);
            A.DecodeNested(El(tag, s, content) + El(0xa5, n, nested)) ==
            Follow(if sel.Err? then Err else Ok([sel.value]), A.DecodeChain(nested))
  {
    hide DecodeTLV, ReadField, LengthForm, A.DecodeSelector, A.DecodeChain;
    var rest := El(0xa5, n, nested);
    ElementMeaning(tag, s, content, rest);
    ElHead(0xa5, n, nested, []);
    LastField(0xa5, n, nested);
    assert (El(tag, s, content) + rest)[1 + |s| + |content|..] == rest;
    assert rest + [] == rest;
  }

  /** The selections of a chain follow each other; a chain without any is refused. */
  lemma ChainMeaning(tag: Byte, form: seq<Byte>, content: seq<Byte>, rest: seq<Byte>)
    requires LengthForm(form, |content|)
    ensures A.DecodeSelections(El(tag, form, content) + rest) == Follow(A.DecodeSelection(tag, content), A.DecodeSelections(rest))
    ensures A.DecodeChain([]) == Err
    ensures A.DecodeSelections(rest).Ok? && A.DecodeSelections(rest).value != [] ==> A.DecodeChain(rest) == A.DecodeSelections(rest)
  {
    hide DecodeTLV, LengthForm, A.DecodeSelection;
    ElementMeaning(tag, form, content, rest);
    ElHead(tag, form, content, rest);
    assert (El(tag, form, content) + rest)[1 + |form| + |content|..] == rest;
  }
}
