/**
 Values as heap objects (value.go, server_altaccess.go): composites hold a
 slice of pointers to their elements, and both a slice and an element may be
 reached along several paths. Cloning yields nodes and slices of its own; a
 write patches slots of the clone in place.
 */
module ValueHeap {
  import opened Bytes
  import opened Results
  import opened AltAccessWire
  import opened Values
  import opened AltAccess

  class Value {
    var typ: ValueType
    var scalar: Option<Scalar>
    var elements: array?<Value?>

    /** The elements; a nil slice has none. */
    function Elems(): seq<Value?>
      reads this, elements
    {
      if elements == null then [] else elements[..]
    }
  }

  /** A slice as a set of objects. */
  function Slice(a: array?<Value?>): set<object> {
    if a == null then {} else {a}
  }

  /** The fields of one node are those of the root of t. */
  ghost predicate Root(v: Value, t: Tree)
    reads v, v.elements
  {
    match t
    case Nil => false
    case Leaf(s) => v.typ == s.Type() && v.scalar == Some(s) && v.elements == null
    case Structure(kids) => v.typ == StructureType && v.scalar == None && |v.Elems()| == |kids|
    case Array(kids) => v.typ == ArrayType && v.scalar == None && |v.Elems()| == |kids|
  }

  /** v represents t with nodes and slices of S; both may be shared. */
  ghost predicate Holds(v: Value?, t: Tree, S: set<object>)
    reads S
    decreases t
  {
    if t.Nil? then v == null
    else
      && v != null && v in S && Slice(v.elements) <= S && Root(v, t)
      && (t.Composite() ==> forall i :: 0 <= i < |t.kids| ==> Holds(v.Elems()[i], t.kids[i], S))
  }

  /** The nodes and slices of a value that shares none, as a tree of objects. */
  datatype Shape = NoNode | Node(obj: Value, slice: array?<Value?>, kids: seq<Shape>)

  ghost function Nodes(s: Shape): set<object>
  {
    if s.NoNode? then {} else {s.obj} + Slice(s.slice) + AllNodes(s.kids)
  }

  ghost function AllNodes(ss: seq<Shape>): set<object>
  {
    if ss == [] then {} else Nodes(ss[0]) + AllNodes(ss[1..])
  }

  ghost predicate Apart(ss: seq<Shape>) {
    forall i, j :: 0 <= i < j < |ss| ==> Nodes(ss[i]) !! Nodes(ss[j])
  }

  lemma {:induction false} NodesOfKids(ss: seq<Shape>)
    ensures forall i :: 0 <= i < |ss| ==> Nodes(ss[i]) <= AllNodes(ss)
  {
    if ss != [] {
      NodesOfKids(ss[1..]);
      assert forall i :: 1 <= i < |ss| ==> ss[i] == ss[1..][i - 1];
    }
  }

  /** v represents t with exactly the nodes and slices of s, no two of them the same. */
  ghost predicate Owns(v: Value?, t: Tree, s: Shape)
    reads Nodes(s)
    decreases t, 1
  {
    if t.Nil? then v == null && s.NoNode?
    else
      && s.Node? && v == s.obj && v.elements == s.slice && Root(v, t)
      && (if t.Composite() then {s.obj} + Slice(s.slice) !! AllNodes(s.kids) && OwnsAll(v.Elems(), t.kids, s.kids)
          else s.kids == [])
  }

  ghost predicate OwnsAll(vs: seq<Value?>, ts: seq<Tree>, ss: seq<Shape>)
    reads AllNodes(ss)
    decreases ts, 0
  {
    && |vs| == |ts| == |ss|
    && Apart(ss)
    && (NodesOfKids(ss); forall i :: 0 <= i < |ts| ==> Owns(vs[i], ts[i], ss[i]))
  }

  // ----- resolveComponentIndex

  method ResolveComponentIndex(ts: Spec, name: seq<Byte>) returns (r: int)
    ensures r >= -1
    ensures r == -1 <==> (ts.None? || ts.value.typ != StructureType || NameIndex(ts.value.elements, name, 0).None?)
    ensures r >= 0 ==> NameIndex(ts.value.elements, name, 0) == Some(r)
  {
    if ts.None? || ts.value.typ != StructureType {
      return -1;
    }
    for i := 0 to |ts.value.elements|
      invariant NameIndex(ts.value.elements, name, 0) == NameIndex(ts.value.elements, name, i)
    {
      if ts.value.elements[i].name == name {
        return i;
      }
    }
    return -1;
  }

  // ----- Clone

  /** A deep copy with nodes and slices of its own, even where v shares some. */
  method Clone(v: Value?, ghost t: Tree, ghost S: set<object>) returns (c: Value?, ghost s: Shape, ghost nodes: set<object>)
    requires Holds(v, t, S)
    ensures Owns(c, t, s)
    ensures nodes == Nodes(s) && fresh(nodes)
    decreases t, 1
  {
    if v == null {
      return null, NoNode, {};
    }
    var node := new Value;
    node.typ, node.scalar, node.elements := v.typ, v.scalar, null;
    ghost var shapes: seq<Shape>, below: set<object> := [], {};
    if v.elements != null {
      node.elements, shapes, below := CloneElements(v.elements, t.kids, S);
    }
    c, s, nodes := node, Node(node, node.elements, shapes), below + {node} + Slice(node.elements);
  }

  /** The loop of Clone: a new slice, filled with a copy of each element. */
  method CloneElements(vs: array<Value?>, ghost ts: seq<Tree>, ghost S: set<object>)
      returns (elements: array<Value?>, ghost shapes: seq<Shape>, ghost nodes: set<object>)
    requires vs.Length == |ts| && forall i :: 0 <= i < |ts| ==> Holds(vs[i], ts[i], S)
    ensures OwnsAll(elements[..], ts, shapes)
    ensures nodes == AllNodes(shapes) && fresh(nodes) && fresh(elements) && elements !in nodes
    decreases ts, 0
  {
    hide Owns, Holds;
    elements := new Value?[vs.Length];
    shapes, nodes := [], {};
    for i := 0 to vs.Length
      invariant nodes == AllNodes(shapes) && fresh(nodes) && elements !in nodes
      invariant OwnsAll(elements[..i], ts[..i], shapes)
    {
      var kid, shape, more := Clone(vs[i], ts[i], S);
      OwnsOneMore(elements[..i], ts[..i], shapes, kid, ts[i], shape);
      assert ts[..i] + [ts[i]] == ts[..i + 1];
      elements[i] := kid;
      assert elements[..i + 1] == elements[..i] + [kid];
      shapes, nodes := shapes + [shape], nodes + more;
    }
    assert ts[..vs.Length] == ts && elements[..vs.Length] == elements[..];
  }

  lemma OwnsOneMore(vs: seq<Value?>, ts: seq<Tree>, ss: seq<Shape>, v: Value?, t: Tree, s: Shape)
    requires OwnsAll(vs, ts, ss) && Owns(v, t, s)
    requires AllNodes(ss) !! Nodes(s)
    ensures AllNodes(ss + [s]) == AllNodes(ss) + Nodes(s)
    ensures OwnsAll(vs + [v], ts + [t], ss + [s])
  {
    Extend(ss, s);
    NodesOfKids(ss);
  }

  lemma {:induction false} Extend(ss: seq<Shape>, s: Shape)
    ensures AllNodes(ss + [s]) == AllNodes(ss) + Nodes(s)
  {
    if ss == [] {
      assert ss + [s] == [s];
    } else {
      assert (ss + [s])[1..] == ss[1..] + [s];
      Extend(ss[1..], s);
    }
  }

  // ----- patching in place

  /** ShallowCompatible on an object. */
  method CheckShallow(ts: TypeSpec, v: Value?, ghost t: Tree, ghost S: set<object>) returns (ok: bool)
    requires Holds(v, t, S)
    ensures ok == ShallowCompatible(ts, t)
  {
    if v == null || v.typ != ts.typ {
      return false;
    }
    if ts.typ == StructureType {
      return |v.Elems()| == |ts.elements|;
    }
    if ts.typ == ArrayType {
      return |v.Elems()| == ts.count;
    }
    return true;
  }

  lemma {:induction false} ReplaceNodes(ss: seq<Shape>, i: nat, s: Shape)
    requires i < |ss|
    ensures AllNodes(ss[i := s]) <= AllNodes(ss) + Nodes(s)
  {
    if i == 0 {
      assert ss[i := s][1..] == ss[1..];
    } else {
      assert ss[i := s][1..] == ss[1..][i - 1 := s];
      ReplaceNodes(ss[1..], i - 1, s);
    }
  }

  /** Exchanging one element of an owned composite, whose other elements are as before. */
  lemma OwnsReplaced(v: Value, t: Tree, s: Shape, i: nat, kid: Tree, shape: Shape)
    requires t.Composite() && s.Node? && v == s.obj && v.elements == s.slice && Root(v, t)
    requires |s.kids| == |t.kids| && i < |t.kids|
    requires {v} + Slice(s.slice) !! AllNodes(s.kids) && Apart(s.kids)
    requires forall j :: 0 <= j < |t.kids| && j != i ==> Owns(v.Elems()[j], t.kids[j], s.kids[j])
    requires Owns(v.Elems()[i], kid, shape)
    requires {v} + Slice(s.slice) !! Nodes(shape) && forall j :: 0 <= j < |s.kids| && j != i ==> Nodes(s.kids[j]) !! Nodes(shape)
    ensures Owns(v, t.WithKid(i, kid), Node(v, s.slice, s.kids[i := shape]))
    ensures Nodes(Node(v, s.slice, s.kids[i := shape])) <= Nodes(s) + Nodes(shape)
  {
    ReplaceNodes(s.kids, i, shape);
  }

  /** What owning a composite means for its elements. */
  lemma OwnedParts(v: Value, t: Tree, s: Shape)
    requires Owns(v, t, s) && t.Composite()
    ensures s.Node? && v == s.obj && v.elements == s.slice && Root(v, t) && |s.kids| == |t.kids|
    ensures {v} + Slice(s.slice) !! AllNodes(s.kids) && Apart(s.kids) && {v} + Slice(s.slice) <= Nodes(s)
    ensures forall j :: 0 <= j < |s.kids| ==> Nodes(s.kids[j]) <= AllNodes(s.kids) <= Nodes(s)
    ensures forall j :: 0 <= j < |s.kids| ==> Owns(v.Elems()[j], t.kids[j], s.kids[j])
  {
    NodesOfKids(s.kids);
  }

  /** One element is replaced by a deep copy of the written value. */
  method SetElement(val: Value, i: nat, writeVal: Value?,
                    ghost t: Tree, ghost s: Shape, ghost nodes: set<object>, ghost w: Tree, ghost W: set<object>)
      returns (ghost s': Shape, ghost nodes': set<object>)
    requires Owns(val, t, s) && Nodes(s) <= nodes
    requires t.Composite() && i < |t.kids|
    requires Holds(writeVal, w, W) && val.elements != null && val.elements !in W
    modifies val.elements
    ensures Owns(val, t.WithKid(i, w), s') && s'.slice == s.slice
    ensures Nodes(s') <= nodes' && nodes <= nodes' && fresh(nodes' - nodes)
  {
    hide Holds;
    NodesOfKids(s.kids);
    var c, shape, more := Clone(writeVal, w, W);
    val.elements[i] := c;
    OwnsReplaced(val, t, s, i, w, shape);
    s', nodes' := Node(val, s.slice, s.kids[i := shape]), nodes + more;
  }

  /** patchValue: descends through the owned tree and replaces the selected element in place. */
  method PatchValue(val: Value?, ts: Spec, chain: seq<Selector>, writeVal: Value?,
                    ghost t: Tree, ghost s: Shape, ghost nodes: set<object>, ghost w: Tree, ghost W: set<object>)
      returns (ok: bool, ghost s': Shape, ghost nodes': set<object>)
    requires Owns(val, t, s) && nodes == Nodes(s)
    requires Holds(writeVal, w, W) && W !! nodes
    requires writeVal == null ==> RangeFree(chain)
    modifies nodes
    ensures ok == Patch(t, ts, chain, w).Some?
    ensures ok ==> Owns(val, Patch(t, ts, chain, w).value, s') && Nodes(s') <= nodes'
    ensures fresh(nodes' - nodes)
    decreases |chain|, 1
  {
    s', nodes' := s, nodes;
    if |chain| == 0 || val == null {
      return false, s, nodes;
    }
    var sel := chain[0];
    if sel.component != [] {
      if val.typ != StructureType {
        return false, s, nodes;
      }
      var idx := ResolveComponentIndex(ts, sel.component);
      if idx < 0 || idx >= |val.Elems()| {
        return false, s, nodes;
      }
      var childTs: Spec := if ts.Some? && idx < |ts.value.elements| then Some(ts.value.elements[idx].spec) else None;
      ok, s', nodes' := PatchElement(val, idx, childTs, chain, writeVal, ts, t, s, nodes, w, W);
    } else if sel.hasIndex {
      if (val.typ != ArrayType && val.typ != StructureType) || sel.index < 0 || sel.index >= |val.Elems()| {
        return false, s, nodes;
      }
      var childTs: Spec := None;
      if ts.Some? {
        if val.typ == StructureType && sel.index < |ts.value.elements| {
          childTs := Some(ts.value.elements[sel.index].spec);
        } else if val.typ == ArrayType {
          childTs := ts.value.element;
        }
      }
      ok, s', nodes' := PatchElement(val, sel.index, childTs, chain, writeVal, ts, t, s, nodes, w, W);
    } else if sel.range.Some? {
      ok, s', nodes' := PatchRange(val, sel.range.value, chain, writeVal, ts, t, s, nodes, w, W);
    } else {
      return false, s, nodes;
    }
  }

  /** The common end of patchComponent and patchIndex, once the element and its type are known. */
  method PatchElement(val: Value, i: nat, childTs: Spec, chain: seq<Selector>, writeVal: Value?, ghost ts: Spec,
                      ghost t: Tree, ghost s: Shape, ghost nodes: set<object>, ghost w: Tree, ghost W: set<object>)
      returns (ok: bool, ghost s': Shape, ghost nodes': set<object>)
    requires Owns(val, t, s) && nodes == Nodes(s)
    requires Holds(writeVal, w, W) && W !! nodes
    requires writeVal == null ==> RangeFree(chain)
    requires chain != [] && !IsRange(chain[0])
    requires Locate(t, ts, chain[0]) == Some(i) && childTs == KidSpec(t, ts, i)
    modifies nodes
    ensures ok == Patch(t, ts, chain, w).Some?
    ensures ok ==> Owns(val, Patch(t, ts, chain, w).value, s') && Nodes(s') <= nodes'
    ensures fresh(nodes' - nodes)
    decreases |chain|, 0
  {
    hide Locate, KidSpec, ShallowCompatible, Owns, Holds, Nodes;
    OwnedParts(val, t, s);
    s', nodes' := s, nodes;
    ghost var kidNodes := nodes * Nodes(s.kids[i]);
    if |chain| == 1 {
      if childTs.Some? {
        var fits := CheckShallow(childTs.value, writeVal, w, W);
        if !fits {
          return false, s, nodes;
        }
      }
      s', nodes' := SetElement(val, i, writeVal, t, s, nodes, w, W);
      ok := true;
    } else {
      ghost var shape, more;
      ok, shape, more := PatchValue(val.Elems()[i], childTs, chain[1..], writeVal, t.kids[i], s.kids[i], kidNodes, w, W);
      if ok {
        OwnsReplaced(val, t, s, i, Patch(t.kids[i], childTs, chain[1..], w).value, shape);
        s', nodes' := Node(val, s.slice, s.kids[i := shape]), nodes + more;
      }
    }
  }

  /** The elements of an array while a range write has copied k of them. */
  ghost function Spliced(kids: seq<Tree>, low: nat, written: seq<Tree>, k: nat): (r: seq<Tree>)
    requires low + |written| <= |kids| && k <= |written|
    ensures |r| == |kids|
  {
    kids[..low] + written[..k] + kids[low + k..]
  }

  lemma SpliceStep(kids: seq<Tree>, low: nat, written: seq<Tree>, k: nat)
    requires low + |written| <= |kids| && k < |written|
    ensures Spliced(kids, low, written, k)[low + k := written[k]] == Spliced(kids, low, written, k + 1)
  {
  }

  method PatchRange(val: Value, range: IndexRange, chain: seq<Selector>, writeVal: Value?, ghost ts: Spec,
                    ghost t: Tree, ghost s: Shape, ghost nodes: set<object>, ghost w: Tree, ghost W: set<object>)
      returns (ok: bool, ghost s': Shape, ghost nodes': set<object>)
    requires Owns(val, t, s) && nodes == Nodes(s)
    requires Holds(writeVal, w, W) && W !! nodes
    requires writeVal != null
    requires chain != [] && IsRange(chain[0]) && chain[0].range.value == range
    modifies nodes
    ensures ok == Patch(t, ts, chain, w).Some?
    ensures ok ==> Owns(val, Patch(t, ts, chain, w).value, s') && Nodes(s') <= nodes'
    ensures fresh(nodes' - nodes)
  {
    hide Spliced, Owns, Holds;
    OwnedRoot(val, t, s);
    HeldKids(writeVal, w, W);
    s', nodes' := s, nodes;
    if val.typ != ArrayType || range.low < 0 || range.low + range.count > |val.Elems()| || |chain| > 1 {
      return false, s, nodes;
    }
    if writeVal.typ != ArrayType || |writeVal.Elems()| != range.count {
      return false, s, nodes;
    }
    var newElems := CopyValues(writeVal.Elems());
    s', nodes' := CopyRange(val, range.low, newElems, t, s, nodes, w.kids, W);
    SpliceAll(t.kids, range.low, w.kids);
    ok := true;
  }

  lemma OwnedRoot(v: Value, t: Tree, s: Shape)
    requires Owns(v, t, s)
    ensures Root(v, t) && v in Nodes(s) && Slice(v.elements) <= Nodes(s)
  {
  }

  lemma HeldKids(v: Value, t: Tree, S: set<object>)
    requires Holds(v, t, S)
    ensures Root(v, t)
    ensures t.Composite() ==> forall i :: 0 <= i < |t.kids| ==> Holds(v.Elems()[i], t.kids[i], S)
  {
  }

  /** copyValues: a new slice with the same elements. */
  method CopyValues(vs: seq<Value?>) returns (c: array<Value?>)
    ensures fresh(c) && c[..] == vs
  {
    c := new Value?[|vs|];
    for i := 0 to |vs|
      invariant c[..i] == vs[..i]
    {
      c[i] := vs[i];
    }
  }

  /** The copying loop of patchRange. */
  method CopyRange(val: Value, low: nat, newElems: array<Value?>,
                   ghost t: Tree, ghost s: Shape, ghost nodes: set<object>, ghost written: seq<Tree>, ghost W: set<object>)
      returns (ghost s': Shape, ghost nodes': set<object>)
    requires t.Array? && Owns(val, t, s) && nodes == Nodes(s)
    requires W !! nodes
    requires newElems.Length == |written| && low + |written| <= |t.kids| && newElems !in nodes
    requires forall k :: 0 <= k < |written| ==> Holds(newElems[k], written[k], W)
    modifies nodes
    ensures Owns(val, Array(Spliced(t.kids, low, written, |written|)), s')
    ensures Nodes(s') <= nodes' && fresh(nodes' - nodes)
  {
    hide Holds, Spliced;
    s', nodes' := s, nodes;
    ghost var cur := t;
    assert Spliced(t.kids, low, written, 0) == t.kids by { SpliceNothing(t.kids, low, written); }
    for k := 0 to newElems.Length
      invariant cur == Array(Spliced(t.kids, low, written, k))
      invariant Owns(val, cur, s')
      invariant Nodes(s') <= nodes' && nodes <= nodes' && fresh(nodes' - nodes)
    {
      SpliceStep(t.kids, low, written, k);
      s', nodes' := SetElement(val, low + k, newElems[k], cur, s', nodes', written[k], W);
      cur := cur.WithKid(low + k, written[k]);
    }
  }

  lemma SpliceNothing(kids: seq<Tree>, low: nat, written: seq<Tree>)
    requires low + |written| <= |kids|
    ensures Spliced(kids, low, written, 0) == kids
  {
  }

  lemma SpliceAll(kids: seq<Tree>, low: nat, written: seq<Tree>)
    requires low + |written| <= |kids|
    ensures Spliced(kids, low, written, |written|) == kids[..low] + written + kids[low + |written|..]
  {
    assert written[..|written|] == written;
  }

  // ----- the two operations

  /** The loop of applyAlternateAccessRead; a range yields a new array node over the same elements. */
  method ApplyRead(val: Value?, ts: Spec, chain: seq<Selector>, ghost t: Tree, ghost S: set<object>)
      returns (r: Value?, ghost S': set<object>)
    requires Holds(val, t, S)
    requires NonNegative(chain)
    ensures Holds(r, Read(t, ts, chain), S')
    ensures S <= S' && fresh(S' - S)
  {
    hide Locate, KidSpec;
    r, S' := val, S;
    var spec := ts;
    ghost var cur := t;
    for i := 0 to |chain|
      invariant Holds(r, cur, S')
      invariant S <= S' && fresh(S' - S)
      invariant Read(t, ts, chain) == Read(cur, spec, chain[i..])
    {
      assert chain[i..][0] == chain[i] && chain[i..][1..] == chain[i + 1..];
      if r == null {
        NilReadsNil(spec, chain[i..]);
        return null, S';
      }
      ghost var was := spec;
      r, spec, S' := ApplySelector(r, spec, chain[i], cur, S');
      cur := Select(cur, was, chain[i]).0;
    }
  }

  /** applySingleSelector. */
  method ApplySelector(val: Value, ts: Spec, sel: Selector, ghost t: Tree, ghost S: set<object>)
      returns (r: Value?, spec: Spec, ghost S': set<object>)
    requires Holds(val, t, S)
    requires sel.range.Some? ==> sel.range.value.count >= 0
    ensures Holds(r, Select(t, ts, sel).0, S') && spec == Select(t, ts, sel).1
    ensures S <= S' && fresh(S' - S)
  {
    S' := S;
    if sel.component != [] {
      if val.typ != StructureType {
        return null, None, S;
      }
      var idx := ResolveComponentIndex(ts, sel.component);
      if idx < 0 || idx >= |val.Elems()| {
        return null, None, S;
      }
      spec := if idx < |ts.value.elements| then Some(ts.value.elements[idx].spec) else None;
      r := val.Elems()[idx];
    } else if sel.hasIndex {
      if (val.typ != ArrayType && val.typ != StructureType) || sel.index < 0 || sel.index >= |val.Elems()| {
        return null, None, S;
      }
      spec := None;
      if ts.Some? && val.typ == ArrayType {
        spec := ts.value.element;
      } else if ts.Some? && sel.index < |ts.value.elements| {
        spec := Some(ts.value.elements[sel.index].spec);
      }
      r := val.Elems()[sel.index];
    } else if sel.range.Some? {
      r, S' := SelectRange(val, sel.range.value, t, S);
      spec := None;
    } else {
      return null, None, S;
    }
  }

  method SelectRange(val: Value, range: IndexRange, ghost t: Tree, ghost S: set<object>)
      returns (r: Value?, ghost S': set<object>)
    requires Holds(val, t, S)
    requires range.count >= 0
    ensures Holds(r, if InBounds(t, range) then Array(t.kids[range.low..range.low + range.count]) else Nil, S')
    ensures S <= S' && fresh(S' - S)
  {
    hide Holds;
    HeldKids(val, t, S);
    S' := S;
    var end := range.low + range.count;
    if val.typ != ArrayType || range.low < 0 || end > |val.Elems()| {
      NilHeld(S);
      return null, S;
    }
    var node := NewArray(val.Elems()[range.low..end]);
    S' := S + {node} + Slice(node.elements);
    RangeHeld(val, node, t, range, S, S');
    r := node;
  }

  /** NewArray: a new node over a new slice of the same elements. */
  method NewArray(elements: seq<Value?>) returns (node: Value)
    ensures fresh(node) && node.typ == ArrayType && node.scalar == None
    ensures node.elements != null && fresh(node.elements) && node.Elems() == elements
  {
    var slice := CopyValues(elements);
    node := new Value;
    node.typ, node.scalar, node.elements := ArrayType, None, slice;
  }

  lemma NilHeld(S: set<object>)
    ensures Holds(null, Nil, S)
  {
  }

  lemma RangeHeld(val: Value, node: Value, t: Tree, range: IndexRange, S: set<object>, S': set<object>)
    requires Holds(val, t, S) && S <= S' && node in S' && Slice(node.elements) <= S'
    requires InBounds(t, range) && range.count >= 0
    requires node.typ == ArrayType && node.scalar == None
    requires node.Elems() == val.Elems()[range.low..range.low + range.count]
    ensures Holds(node, Array(t.kids[range.low..range.low + range.count]), S')
  {
    hide Holds;
    HeldKids(val, t, S);
    var part := t.kids[range.low..range.low + range.count];
    forall i | 0 <= i < range.count
      ensures Holds(node.Elems()[i], part[i], S')
    {
      MoreNodes(val.Elems()[range.low + i], t.kids[range.low + i], S, S');
    }
    ArrayHeld(node, part, S');
  }

  lemma ArrayHeld(node: Value, kids: seq<Tree>, S: set<object>)
    requires node in S && Slice(node.elements) <= S && Root(node, Array(kids))
    requires forall i :: 0 <= i < |kids| ==> Holds(node.Elems()[i], kids[i], S)
    ensures Holds(node, Array(kids), S)
  {
  }

  lemma {:induction false} MoreNodes(v: Value?, t: Tree, S: set<object>, S': set<object>)
    requires Holds(v, t, S) && S <= S'
    ensures Holds(v, t, S')
    decreases t
  {
    if t.Composite() {
      forall i | 0 <= i < |t.kids| ensures Holds(v.Elems()[i], t.kids[i], S') {
        MoreNodes(v.Elems()[i], t.kids[i], S, S');
      }
    }
  }

  /**
   applyAlternateAccessWrite. The method modifies no existing object: every
   node and every slice of the current and of the written value is as before,
   and the result consists of new nodes and slices only, even if current
   shares elements or slices.
   */
  method ApplyWrite(current: Value?, ts: Spec, chain: seq<Selector>, writeVal: Value?,
                    ghost t: Tree, ghost S: set<object>, ghost w: Tree, ghost W: set<object>)
      returns (r: Value?, ghost s: Shape)
    requires Holds(current, t, S) && Holds(writeVal, w, W)
    requires writeVal == null ==> RangeFree(chain)
    ensures chain == [] ==> r == writeVal
    ensures chain != [] && Write(t, ts, chain, w).None? ==> r == null
    ensures chain != [] && Write(t, ts, chain, w).Some? ==> Owns(r, Write(t, ts, chain, w).value, s) && fresh(Nodes(s))
    ensures unchanged(S) && unchanged(W) && Holds(current, t, S) && Holds(writeVal, w, W)
  {
    hide Holds, Patch, Owns;
    s := NoNode;
    if |chain| == 0 {
      return writeVal, s;
    }
    var patched, shape, nodes := Clone(current, t, S);
    var ok, shape', nodes' := PatchValue(patched, ts, chain, writeVal, t, shape, nodes, w, W);
    if !ok {
      return null, s;
    }
    return patched, shape';
  }
}
