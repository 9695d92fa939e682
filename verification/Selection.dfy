/**
 What each selector of an alternate access stands for (server_altaccess.go),
 said of reads and writes without their own helper functions: an index is a
 position, a name the first element of the type that has it, a range a run of
 consecutive positions, and a chain its first selector followed by the others.
 */
module Selection {
  import opened Results
  import opened AltAccessWire
  import opened Values
  import opened AltAccess

  /** Element k is the one that sel means in a value t of type ts. */
  predicate Means(t: Tree, ts: Spec, sel: Selector, k: int) {
    && t.Composite() && 0 <= k < |t.kids|
    && if sel.component == [] then sel.hasIndex && sel.index == k
       else
         && t.Structure? && ts.Some? && ts.value.typ == StructureType
         && k < |ts.value.elements| && ts.value.elements[k].name == sel.component
         && forall j :: 0 <= j < k ==> ts.value.elements[j].name != sel.component
  }

  /** The declared type of element k, as far as the type says. */
  function Declared(t: Tree, ts: Spec, k: nat): Spec
  {
    if ts.None? then None
    else if t.Array? then ts.value.element
    else if k < |ts.value.elements| then Some(ts.value.elements[k].spec)
    else None
  }

  /** A value of the declared top-level type and size; anything goes where no type is declared. */
  predicate Accepts(ts: Spec, w: Tree) {
    ts.Some? ==>
      match w
      case Nil => false
      case Leaf(s) => s.Type() == ts.value.typ
      case Structure(kids) => ts.value.typ == StructureType && |kids| == |ts.value.elements|
      case Array(kids) => ts.value.typ == ArrayType && |kids| == ts.value.count
  }

  lemma MeansExactly(t: Tree, ts: Spec, sel: Selector, k: int)
    requires !IsRange(sel)
    ensures Means(t, ts, sel, k) <==> (k >= 0 && Locate(t, ts, sel) == Some(k))
    ensures k >= 0 && t.Composite() ==> Declared(t, ts, k) == KidSpec(t, ts, k)
  {
  }

  // ----- reads

  /** Reading a chain is reading the rest of it in the element its first selector means. */
  lemma ElementRead(t: Tree, ts: Spec, sel: Selector, k: int, rest: seq<Selector>)
    requires !IsRange(sel) && NonNegative([sel] + rest) && NonNegative(rest)
    requires Means(t, ts, sel, k)
    ensures Read(t, ts, [sel] + rest) == Read(t.kids[k], Declared(t, ts, k), rest)
    ensures NonNegative([sel]) && Read(t, ts, [sel]) == t.kids[k]
  {
    hide Locate;
    MeansExactly(t, ts, sel, k);
    assert ([sel] + rest)[1..] == rest;
    assert ([sel] + rest)[0] == sel;
    assert [sel][1..] == [];
  }

  /** A selector that means no element reads nothing, and neither does a chain that starts with it. */
  lemma NothingRead(t: Tree, ts: Spec, sel: Selector, rest: seq<Selector>)
    requires !IsRange(sel) && NonNegative([sel] + rest)
    requires forall k :: !Means(t, ts, sel, k)
    ensures Read(t, ts, [sel] + rest) == Nil
  {
    hide Locate;
    var i := Locate(t, ts, sel);
    if i.Some? {
      MeansExactly(t, ts, sel, i.value);
    }
    assert ([sel] + rest)[1..] == rest;
    assert ([sel] + rest)[0] == sel;
    TailNonNegative(sel, rest);
    NilReadsNil(None, rest);
  }

  lemma TailNonNegative(sel: Selector, rest: seq<Selector>)
    requires NonNegative([sel] + rest)
    ensures NonNegative(rest) && NonNegative([sel])
  {
    forall i | 0 <= i < |rest| && rest[i].range.Some? ensures rest[i].range.value.count >= 0 {
      assert ([sel] + rest)[i + 1] == rest[i];
    }
    assert ([sel] + rest)[0] == sel;
  }

  predicate WithinArray(t: Tree, low: int, count: int) {
    t.Array? && 0 <= low && low + count <= |t.kids|
  }

  /** A range in bounds reads the array of the elements from low on; the rest of the chain goes on there, without a type. */
  lemma RangeRead(t: Tree, ts: Spec, sel: Selector, rest: seq<Selector>)
    requires IsRange(sel) && NonNegative([sel] + rest) && NonNegative(rest) && NonNegative([sel])
    ensures var low, count := sel.range.value.low, sel.range.value.count;
            var r := Read(t, ts, [sel]);
            && (if WithinArray(t, low, count)
                then r.Array? && |r.kids| == count && (forall j :: 0 <= j < count ==> r.kids[j] == t.kids[low + j])
                else r.Nil?)
            && Read(t, ts, [sel] + rest) == Read(r, None, rest)
  {
    assert ([sel] + rest)[1..] == rest;
    assert ([sel] + rest)[0] == sel;
    assert [sel][1..] == [];
    NilReadsNil(None, rest);
  }

  // ----- writes

  /** The same composite with element k replaced. */
  predicate Replaced(t: Tree, k: int, kid: Tree, u: Tree) {
    && t.Composite() && 0 <= k < |t.kids|
    && u.Composite() && u.Array? == t.Array? && u.kids == t.kids[k := kid]
  }

  /** Writing at a name or index replaces that element, exactly when the value is of the declared type and size. */
  lemma ElementWrite(t: Tree, ts: Spec, sel: Selector, k: int, w: Tree)
    requires !IsRange(sel) && Means(t, ts, sel, k)
    ensures Write(t, ts, [sel], w).Some? <==> Accepts(Declared(t, ts, k), w)
    ensures Write(t, ts, [sel], w).Some? ==> Replaced(t, k, w, Write(t, ts, [sel], w).value)
  {
    hide Locate;
    MeansExactly(t, ts, sel, k);
  }

  /** Writing a longer chain is writing the rest of it in that element, and replaces nothing else. */
  lemma ElementWriteInside(t: Tree, ts: Spec, sel: Selector, k: int, rest: seq<Selector>, w: Tree)
    requires !IsRange(sel) && Means(t, ts, sel, k) && rest != []
    ensures var inner := Write(t.kids[k], Declared(t, ts, k), rest, w);
            var outer := Write(t, ts, [sel] + rest, w);
            && (outer.Some? <==> inner.Some?)
            && (outer.Some? ==> Replaced(t, k, inner.value, outer.value))
  {
    hide Locate;
    MeansExactly(t, ts, sel, k);
    assert ([sel] + rest)[1..] == rest;
    assert ([sel] + rest)[0] == sel;
  }

  /** A selector that means no element is refused. */
  lemma NothingWritten(t: Tree, ts: Spec, sel: Selector, rest: seq<Selector>, w: Tree)
    requires !IsRange(sel)
    requires forall k :: !Means(t, ts, sel, k)
    ensures Write(t, ts, [sel] + rest, w) == None
  {
    hide Locate;
    var i := Locate(t, ts, sel);
    if i.Some? {
      MeansExactly(t, ts, sel, i.value);
    }
    assert ([sel] + rest)[0] == sel;
  }

  /**
   Writing a range overwrites exactly the elements from low on, when it is the last selector, in
   bounds, and the value is an array of that many elements; it is refused otherwise.
   */
  lemma RangeWrite(t: Tree, ts: Spec, sel: Selector, rest: seq<Selector>, w: Tree)
    requires IsRange(sel)
    ensures var low, count := sel.range.value.low, sel.range.value.count;
            var u := Write(t, ts, [sel] + rest, w);
            && (u.Some? <==> rest == [] && WithinArray(t, low, count) && w.Array? && |w.kids| == count)
            && (u.Some? ==>
                  && u.value.Array? && |u.value.kids| == |t.kids|
                  && forall j :: 0 <= j < |t.kids| ==>
                       u.value.kids[j] == if low <= j < low + count then w.kids[j - low] else t.kids[j])
  {
    assert ([sel] + rest)[0] == sel;
  }

  /** A write of the empty chain is the value itself, whatever was there. */
  lemma WholeWrite(t: Tree, ts: Spec, w: Tree)
    ensures Write(t, ts, [], w) == Some(w) && Read(t, ts, []) == t
  {
  }
}
