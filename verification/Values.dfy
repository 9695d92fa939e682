/**
 MMS values and their types as trees (value.go, types.go). A nil *Value is
 Nil, both at the top and as an element of a composite.
 */
module Values {
  import opened Bytes
  import opened Results
  import opened Times
  import opened RealCodec
  import opened AltAccessWire

  datatype ValueType =
    | BooleanType | IntegerType | UnsignedType | FloatType | BitStringType | OctetStringType
    | VisibleStringType | MmsStringType | UtcTimeType | BinaryTimeType | ArrayType | StructureType
    | DataAccessErrorType | NamedTypeType | GeneralizedTimeType | BcdType | ObjectIdentifierType
    | RealType | BooleanArrayType

  /** What a non-composite value holds; floats are IEEE doubles. */
  datatype Scalar =
    | BooleanValue(b: bool)
    | IntegerValue(i: int)
    | UnsignedValue(u: nat)
    | FloatValue(f: Double)
    | RealValue(f: Double)
    | BitStringValue(bytes: seq<Byte>, bitLen: int)
    | BooleanArrayValue(bytes: seq<Byte>, bitLen: int)
    | OctetStringValue(bytes: seq<Byte>)
    | VisibleStringValue(text: seq<Byte>)
    | MmsStringValue(text: seq<Byte>)
    | UtcTimeValue(time: Instant, quality: Byte)
    | GeneralizedTimeValue(time: Instant)
    | BinaryTimeValue(ms: int)
    | BcdValue(i: int)
    | ObjectIdentifierValue(arcs: seq<int>)
    | DataAccessErrorValue(code: int)
  {
    function Type(): ValueType {
      match this
      case BooleanValue(_) => BooleanType
      case IntegerValue(_) => IntegerType
      case UnsignedValue(_) => UnsignedType
      case FloatValue(_) => FloatType
      case RealValue(_) => RealType
      case BitStringValue(_, _) => BitStringType
      case BooleanArrayValue(_, _) => BooleanArrayType
      case OctetStringValue(_) => OctetStringType
      case VisibleStringValue(_) => VisibleStringType
      case MmsStringValue(_) => MmsStringType
      case UtcTimeValue(_, _) => UtcTimeType
      case GeneralizedTimeValue(_) => GeneralizedTimeType
      case BinaryTimeValue(_) => BinaryTimeType
      case BcdValue(_) => BcdType
      case ObjectIdentifierValue(_) => ObjectIdentifierType
      case DataAccessErrorValue(_) => DataAccessErrorType
    }
  }

  datatype Tree =
    | Nil
    | Leaf(scalar: Scalar)
    | Structure(kids: seq<Tree>)
    | Array(kids: seq<Tree>)
  {
    predicate Composite() {
      Structure? || Array?
    }

    function Type(): ValueType
      requires !Nil?
    {
      match this
      case Leaf(scalar) => scalar.Type()
      case Structure(_) => StructureType
      case Array(_) => ArrayType
    }

    /** The same composite with one element replaced. */
    function WithKid(i: nat, kid: Tree): (t: Tree)
      requires Composite() && i < |kids|
      ensures t.Composite() && |t.kids| == |kids| && t.kids == kids[i := kid]
      ensures t.Structure? == Structure? && t.Array? == Array?
    {
      if Structure? then Structure(kids[i := kid]) else Array(kids[i := kid])
    }
  }

  /** Exact float comparison, except that all NaNs are equal. */
  predicate FloatsEqual(a: Double, b: Double) {
    if a.IsNaN() || b.IsNaN() then a.IsNaN() && b.IsNaN() else a == b
  }

  predicate ScalarsEqual(a: Scalar, b: Scalar) {
    if a.FloatValue? && b.FloatValue? then FloatsEqual(a.f, b.f)
    else if a.RealValue? && b.RealValue? then FloatsEqual(a.f, b.f)
    else a == b
  }

  /** Value.Equal. */
  predicate Equal(a: Tree, b: Tree)
    decreases a
  {
    match (a, b)
    case (Nil, Nil) => true
    case (Leaf(s), Leaf(t)) => ScalarsEqual(s, t)
    case (Structure(ks), Structure(ls)) => |ks| == |ls| && forall i :: 0 <= i < |ks| ==> Equal(ks[i], ls[i])
    case (Array(ks), Array(ls)) => |ks| == |ls| && forall i :: 0 <= i < |ks| ==> Equal(ks[i], ls[i])
    case _ => false
  }

  // ----- types

  datatype TypeSpec = TypeSpec(typ: ValueType, elements: seq<TypeElement>, count: int, element: Option<TypeSpec>)

  datatype TypeElement = TypeElement(name: seq<Byte>, spec: TypeSpec)

  /** The index of the first element called name, from position i on. */
  function NameIndex(elements: seq<TypeElement>, name: seq<Byte>, i: nat): (r: Option<nat>)
    requires i <= |elements|
    ensures r.Some? ==> i <= r.value < |elements| && elements[r.value].name == name
    ensures r.Some? ==> forall j :: i <= j < r.value ==> elements[j].name != name
    ensures r.None? ==> forall j :: i <= j < |elements| ==> elements[j].name != name
    decreases |elements| - i
  {
    if i == |elements| then None
    else if elements[i].name == name then Some(i)
    else NameIndex(elements, name, i + 1)
  }

  function ChildByName(ts: TypeSpec, name: seq<Byte>): (r: Option<TypeSpec>)
  {
    if ts.typ != StructureType then None
    else match NameIndex(ts.elements, name, 0)
      case None => None
      case Some(i) => Some(ts.elements[i].spec)
  }

  function ChildByIndex(ts: TypeSpec, i: int): (r: Option<TypeSpec>)
  {
    if ts.typ == StructureType then (if 0 <= i < |ts.elements| then Some(ts.elements[i].spec) else None)
    else if ts.typ == ArrayType then (if 0 <= i < ts.count then ts.element else None)
    else None
  }

  /** Top-level type and element count only. */
  predicate ShallowCompatible(ts: TypeSpec, v: Tree) {
    && !v.Nil?
    && v.Type() == ts.typ
    && (v.Structure? ==> |v.kids| == |ts.elements|)
    && (v.Array? ==> |v.kids| == ts.count)
  }

  /** TypeSpec.Resolve. */
  function Resolve(ts: TypeSpec, chain: seq<Selector>): (r: Option<TypeSpec>)
    decreases |chain|
  {
    if chain == [] then Some(ts)
    else
      var child := ResolveStep(ts, chain[0]);
      if child.None? then None else Resolve(child.value, chain[1..])
  }

  function ResolveStep(ts: TypeSpec, sel: Selector): (r: Option<TypeSpec>)
  {
    if sel.component != [] then ChildByName(ts, sel.component)
    else if sel.hasIndex then ChildByIndex(ts, sel.index)
    else if sel.range.Some? then
      if ts.typ != ArrayType || ts.element.None? then None
      else Some(TypeSpec(ArrayType, [], sel.range.value.count, ts.element))
    else None
  }

  /** The loop of Resolve. */
  method ResolveLoop(ts: TypeSpec, chain: seq<Selector>) returns (r: Option<TypeSpec>)
    ensures r == Resolve(ts, chain)
  {
    var cur := ts;
    for i := 0 to |chain|
      invariant Resolve(ts, chain) == Resolve(cur, chain[i..])
    {
      var child := ResolveStep(cur, chain[i]);
      assert chain[i..][1..] == chain[i + 1..];
      if child.None? {
        return None;
      }
      cur := child.value;
    }
    return Some(cur);
  }

  /** Deep conformance: the type of every node, the size of every composite, an element type for every array. */
  predicate Conforms(t: Tree, ts: TypeSpec)
    decreases t
  {
    match t
    case Nil => false
    case Leaf(s) => s.Type() == ts.typ
    case Structure(kids) =>
      && ts.typ == StructureType
      && |kids| == |ts.elements|
      && forall i :: 0 <= i < |kids| ==> Conforms(kids[i], ts.elements[i].spec)
    case Array(kids) =>
      && ts.typ == ArrayType
      && |kids| == ts.count
      && ts.element.Some?
      && forall i :: 0 <= i < |kids| ==> Conforms(kids[i], ts.element.value)
  }

  lemma {:induction false} EqualReflexive(t: Tree)
    ensures Equal(t, t)
    decreases t
  {
    if t.Composite() {
      forall i | 0 <= i < |t.kids| ensures Equal(t.kids[i], t.kids[i]) {
        EqualReflexive(t.kids[i]);
      }
    }
  }

  lemma {:induction false} EqualSymmetric(a: Tree, b: Tree)
    requires Equal(a, b)
    ensures Equal(b, a)
    decreases a
  {
    if a.Composite() {
      forall i | 0 <= i < |a.kids| ensures Equal(b.kids[i], a.kids[i]) {
        EqualSymmetric(a.kids[i], b.kids[i]);
      }
    }
  }

  lemma {:induction false} EqualTransitive(a: Tree, b: Tree, c: Tree)
    requires Equal(a, b) && Equal(b, c)
    ensures Equal(a, c)
    decreases a
  {
    if a.Composite() {
      forall i | 0 <= i < |a.kids| ensures Equal(a.kids[i], c.kids[i]) {
        EqualTransitive(a.kids[i], b.kids[i], c.kids[i]);
      }
    }
  }

  // ----- what equality means

  /** The one representative of all NaNs. */
  function CanonFloat(d: Double): Double {
    if d.IsNaN() then QUIET_NAN else d
  }

  function CanonScalar(s: Scalar): Scalar {
    match s
    case FloatValue(f) => FloatValue(CanonFloat(f))
    case RealValue(f) => RealValue(CanonFloat(f))
    case _ => s
  }

  /** The same tree with every NaN in it the quiet one. */
  function Canon(t: Tree): Tree
  {
    match t
    case Nil => Nil
    case Leaf(s) => Leaf(CanonScalar(s))
    case Structure(kids) => Structure(seq(|kids|, i requires 0 <= i < |kids| => Canon(kids[i])))
    case Array(kids) => Array(seq(|kids|, i requires 0 <= i < |kids| => Canon(kids[i])))
  }

  /** Two values are equal exactly when they are the same tree but for the payloads of NaNs. */
  lemma {:induction false} EqualExactly(a: Tree, b: Tree)
    ensures Equal(a, b) <==> Canon(a) == Canon(b)
    decreases a
  {
    if a.Composite() && b.Composite() && a.Array? == b.Array? {
      var x, y := Canon(a).kids, Canon(b).kids;
      if |a.kids| == |b.kids| {
        forall i | 0 <= i < |a.kids| ensures Equal(a.kids[i], b.kids[i]) <==> x[i] == y[i] {
          EqualExactly(a.kids[i], b.kids[i]);
        }
      }
    }
  }

  /** Distinct scalars are unequal, unless both are NaNs of the same kind. */
  lemma ScalarsDiffer(a: Scalar, b: Scalar)
    requires a != b
    ensures Equal(Leaf(a), Leaf(b)) <==>
            || (a.FloatValue? && b.FloatValue? && a.f.IsNaN() && b.f.IsNaN())
            || (a.RealValue? && b.RealValue? && a.f.IsNaN() && b.f.IsNaN())
  {
  }
}
