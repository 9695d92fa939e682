/**
 Alternate access as a lens (server_altaccess.go): a chain of component,
 index and range selectors reads a sub-value, or patches it in a copy.
 */
module AltAccess {
  import opened Results
  import opened AltAccessWire
  import opened Values

  type Spec = Option<TypeSpec>

  /** The element a component or index selector stands for, if it resolves. */
  function Locate(t: Tree, ts: Spec, sel: Selector): (r: Option<nat>)
    ensures r.Some? ==> t.Composite() && r.value < |t.kids|
  {
    if sel.component != [] then
      if !t.Structure? || ts.None? || ts.value.typ != StructureType then None
      else
        var i := NameIndex(ts.value.elements, sel.component, 0);
        if i.Some? && i.value < |t.kids| then i else None
    else if sel.hasIndex then
      if t.Composite() && 0 <= sel.index < |t.kids| then Some(sel.index) else None
    else None
  }

  /** The type the code passes down to element i. */
  function KidSpec(t: Tree, ts: Spec, i: nat): Spec
  {
    if ts.None? then None
    else if t.Structure? then (if i < |ts.value.elements| then Some(ts.value.elements[i].spec) else None)
    else ts.value.element
  }

  predicate IsRange(sel: Selector) {
    sel.component == [] && !sel.hasIndex && sel.range.Some?
  }

  /** Range counts on the wire are unsigned. */
  predicate NonNegative(chain: seq<Selector>) {
    forall i :: 0 <= i < |chain| && chain[i].range.Some? ==> chain[i].range.value.count >= 0
  }

  predicate RangeFree(chain: seq<Selector>) {
    forall i :: 0 <= i < |chain| ==> !IsRange(chain[i])
  }

  predicate InBounds(t: Tree, range: IndexRange) {
    t.Array? && range.low >= 0 && range.low + range.count <= |t.kids|
  }

  /** applySingleSelector: the selected sub-value and its type. */
  function Select(t: Tree, ts: Spec, sel: Selector): (r: (Tree, Spec))
    requires sel.range.Some? ==> sel.range.value.count >= 0
  {
    if IsRange(sel) then
      var range := sel.range.value;
      if InBounds(t, range) then (Array(t.kids[range.low..range.low + range.count]), None) else (Nil, None)
    else
      var i := Locate(t, ts, sel);
      if i.Some? then (t.kids[i.value], KidSpec(t, ts, i.value)) else (Nil, None)
  }

  /** applyAlternateAccessRead; Nil when the path is invalid. */
  function Read(t: Tree, ts: Spec, chain: seq<Selector>): (r: Tree)
    requires NonNegative(chain)
    decreases |chain|
  {
    if chain == [] then t
    else if t.Nil? then Nil
    else
      var (kid, spec) := Select(t, ts, chain[0]);
      Read(kid, spec, chain[1..])
  }

  /** patchValue on a tree; a range is only accepted as the last selector. */
  function Patch(t: Tree, ts: Spec, chain: seq<Selector>, w: Tree): (r: Option<Tree>)
    decreases |chain|
  {
    if chain == [] || t.Nil? then None
    else if IsRange(chain[0]) then
      var range := chain[0].range.value;
      if InBounds(t, range) && |chain| == 1 && w.Array? && |w.kids| == range.count
      then Some(Array(t.kids[..range.low] + w.kids + t.kids[range.low + range.count..]))
      else None
    else
      var i := Locate(t, ts, chain[0]);
      if i.None? then None
      else
        var spec := KidSpec(t, ts, i.value);
        if |chain| == 1 then
          if spec.Some? && !ShallowCompatible(spec.value, w) then None else Some(t.WithKid(i.value, w))
        else
          var kid := Patch(t.kids[i.value], spec, chain[1..], w);
          if kid.None? then None else Some(t.WithKid(i.value, kid.value))
  }

  /** applyAlternateAccessWrite. */
  function Write(t: Tree, ts: Spec, chain: seq<Selector>, w: Tree): (r: Option<Tree>)
  {
    if chain == [] then Some(w) else Patch(t, ts, chain, w)
  }

  // ----- lens laws

  /** A patched tree keeps the shape every selector at its root looks at. */
  lemma SameShape(t: Tree, u: Tree, ts: Spec, sel: Selector, i: nat)
    requires t.Composite() && u.Composite() && t.Array? == u.Array? && |t.kids| == |u.kids|
    ensures Locate(t, ts, sel) == Locate(u, ts, sel)
    ensures KidSpec(t, ts, i) == KidSpec(u, ts, i)
  {
  }

  lemma PatchKeepsShape(t: Tree, ts: Spec, chain: seq<Selector>, w: Tree)
    requires Patch(t, ts, chain, w).Some?
    ensures var u := Patch(t, ts, chain, w).value;
            t.Composite() && u.Composite() && t.Array? == u.Array? && |t.kids| == |u.kids|
  {
  }

  /** What was written is what is read at the same chain. */
  lemma {:induction false} WriteThenRead(t: Tree, ts: Spec, chain: seq<Selector>, w: Tree)
    requires NonNegative(chain)
    requires Write(t, ts, chain, w).Some?
    ensures Read(Write(t, ts, chain, w).value, ts, chain) == w
    decreases |chain|
  {
    if chain != [] {
      var u := Patch(t, ts, chain, w).value;
      PatchKeepsShape(t, ts, chain, w);
      if IsRange(chain[0]) {
        var range := chain[0].range.value;
        assert u.kids[range.low..range.low + range.count] == w.kids;
      } else {
        var i := Locate(t, ts, chain[0]).value;
        SameShape(t, u, ts, chain[0], i);
        if |chain| > 1 {
          WriteThenRead(t.kids[i], KidSpec(t, ts, i), chain[1..], w);
        }
      }
    }
  }

  lemma ReplaceTwice(t: Tree, i: nat, a: Tree, b: Tree)
    requires t.Composite() && i < |t.kids|
    ensures t.WithKid(i, a).WithKid(i, b) == t.WithKid(i, b)
    ensures t.WithKid(i, t.kids[i]) == t
  {
    assert t.kids[i := a][i := b] == t.kids[i := b];
    assert t.kids[i := t.kids[i]] == t.kids;
  }

  lemma RangeReadThenWrite(t: Tree, ts: Spec, sel: Selector)
    requires IsRange(sel) && sel.range.value.count >= 0
    requires InBounds(t, sel.range.value)
    ensures Patch(t, ts, [sel], Select(t, ts, sel).0) == Some(t)
  {
    var low, end := sel.range.value.low, sel.range.value.low + sel.range.value.count;
    assert t.kids == t.kids[..low] + t.kids[low..end] + t.kids[end..];
  }

  /** Writing back what was read changes nothing. */
  lemma {:induction false} ReadThenWrite(t: Tree, ts: Spec, chain: seq<Selector>)
    requires NonNegative(chain)
    requires Write(t, ts, chain, Read(t, ts, chain)).Some?
    ensures Write(t, ts, chain, Read(t, ts, chain)).value == t
    ensures Equal(Write(t, ts, chain, Read(t, ts, chain)).value, t)
    decreases |chain|
  {
    hide Locate, KidSpec, ShallowCompatible, InBounds, Equal;
    EqualReflexive(t);
    if chain != [] {
      if IsRange(chain[0]) {
        assert chain == [chain[0]];
        RangeReadThenWrite(t, ts, chain[0]);
      } else {
        var i := Locate(t, ts, chain[0]).value;
        ReplaceTwice(t, i, t, t);
        if |chain| > 1 {
          ReadThenWrite(t.kids[i], KidSpec(t, ts, i), chain[1..]);
        }
      }
    }
  }

  lemma RangeWriteThenWrite(t: Tree, ts: Spec, sel: Selector, v: Tree, w: Tree)
    requires IsRange(sel)
    requires Patch(t, ts, [sel], v).Some?
    ensures Patch(Patch(t, ts, [sel], v).value, ts, [sel], w) == Patch(t, ts, [sel], w)
  {
    var low, end := sel.range.value.low, sel.range.value.low + sel.range.value.count;
    var u := Patch(t, ts, [sel], v).value;
    assert u.kids[..low] == t.kids[..low] && u.kids[end..] == t.kids[end..];
  }

  /** A second write at the same chain overrides the first, and succeeds in exactly the same cases. */
  lemma {:induction false} WriteThenWrite(t: Tree, ts: Spec, chain: seq<Selector>, v: Tree, w: Tree)
    requires Write(t, ts, chain, v).Some?
    ensures Write(Write(t, ts, chain, v).value, ts, chain, w) == Write(t, ts, chain, w)
    decreases |chain|
  {
    hide Locate, KidSpec, ShallowCompatible, InBounds;
    if chain != [] {
      var u := Patch(t, ts, chain, v).value;
      if IsRange(chain[0]) {
        assert chain == [chain[0]];
        RangeWriteThenWrite(t, ts, chain[0], v, w);
      } else {
        var i := Locate(t, ts, chain[0]).value;
        SameShape(t, u, ts, chain[0], i);
        if |chain| > 1 {
          WriteThenWrite(t.kids[i], KidSpec(t, ts, i), chain[1..], v, w);
        }
        if Patch(t, ts, chain, w).Some? {
          ReplaceTwice(t, i, u.kids[i], Patch(t, ts, chain, w).value.kids[i]);
        }
      }
    }
  }

  // ----- independence of diverging paths

  datatype Span = Span(from: int, to: int)

  /** The elements a selector looks at. */
  function SpanOf(t: Tree, ts: Spec, sel: Selector): (s: Option<Span>)
  {
    if IsRange(sel) then
      if InBounds(t, sel.range.value) then Some(Span(sel.range.value.low, sel.range.value.low + sel.range.value.count))
      else None
    else
      var i := Locate(t, ts, sel);
      if i.Some? then Some(Span(i.value, i.value + 1)) else None
  }

  /** What a reader has of a composite: all of it, or the elements a range has cut out. */
  datatype View = Whole | Window(from: nat, to: nat)

  predicate Within(t: Tree, v: View) {
    v.Window? ==> t.Array? && v.from <= v.to <= |t.kids|
  }

  function Seen(t: Tree, v: View): Tree
    requires Within(t, v)
  {
    match v
    case Whole => t
    case Window(from, to) => Array(t.kids[from..to])
  }

  /** Where in t the elements are that sel selects in the view of t. */
  function SpanIn(t: Tree, v: View, ts: Spec, sel: Selector): (s: Option<Span>)
    requires Within(t, v) && (sel.range.Some? ==> sel.range.value.count >= 0)
    ensures s.Some? ==> t.Composite() && 0 <= s.value.from <= s.value.to <= |t.kids|
    ensures s.Some? && IsRange(sel) ==> t.Array?
    ensures s.Some? && !IsRange(sel) ==> s.value.to == s.value.from + 1
  {
    var s := SpanOf(Seen(t, v), ts, sel);
    var base := if v.Window? then v.from else 0;
    if s.Some? then Some(Span(base + s.value.from, base + s.value.to)) else None
  }

  predicate Disjoint(a: Span, b: Span) {
    a.to <= b.from || b.to <= a.from
  }

  /**
   A write along p (whose types start with ps) misses a read along q (whose types start with qs):
   q does not resolve, or the two select disjoint elements somewhere on the way, with q's ranges
   taken as windows on the elements p descends through.
   */
  predicate Misses(t: Tree, ps: Spec, p: seq<Selector>, v: View, qs: Spec, q: seq<Selector>)
    requires Within(t, v) && NonNegative(p) && NonNegative(q)
    decreases |q|
  {
    && p != [] && SpanIn(t, Whole, ps, p[0]).Some?
    && var a := SpanIn(t, Whole, ps, p[0]).value;
       if q == [] then v.Window? && Disjoint(a, Span(v.from, v.to))
       else
         var s := SpanIn(t, v, qs, q[0]);
         || s.None? || Disjoint(a, s.value)
         || (if IsRange(q[0]) then Misses(t, ps, p, Window(s.value.from, s.value.to), None, q[1..])
             else
               && !IsRange(p[0])
               && Misses(t.kids[a.from], KidSpec(t, ps, a.from), p[1..], Whole, KidSpec(t, qs, a.from), q[1..]))
  }

  predicate Diverge(t: Tree, ts: Spec, p: seq<Selector>, q: seq<Selector>)
    requires NonNegative(p) && NonNegative(q)
  {
    Misses(t, ts, p, Whole, ts, q)
  }

  /** A write leaves every diverging path reading as before. */
  lemma WriteElsewhere(t: Tree, ts: Spec, p: seq<Selector>, w: Tree, q: seq<Selector>)
    requires NonNegative(p) && NonNegative(q)
    requires Diverge(t, ts, p, q)
    requires Write(t, ts, p, w).Some?
    ensures Read(Write(t, ts, p, w).value, ts, q) == Read(t, ts, q)
  {
    hide Patch, Read;
    PatchKeepsShape(t, ts, p, w);
    MissedRead(t, ts, p, w, Whole, ts, q);
  }

  lemma {:induction false} MissedRead(t: Tree, ps: Spec, p: seq<Selector>, w: Tree, v: View, qs: Spec, q: seq<Selector>)
    requires Within(t, v) && NonNegative(p) && NonNegative(q)
    requires Misses(t, ps, p, v, qs, q) && Patch(t, ps, p, w).Some?
    ensures Within(Patch(t, ps, p, w).value, v)
    ensures Read(Seen(Patch(t, ps, p, w).value, v), qs, q) == Read(Seen(t, v), qs, q)
    decreases |q|
  {
    hide Locate, KidSpec, ShallowCompatible, Patch, Select, SpanIn, SpanOf;
    SpanWhole(t, ps, p[0]);
    var u := Patch(t, ps, p, w).value;
    PatchKeepsShape(t, ps, p, w);
    var a := SpanIn(t, Whole, ps, p[0]).value;
    PatchOutside(t, ps, p, w, a);
    if q == [] {
      SameSlice(t, u, a, Span(v.from, v.to));
    } else {
      SameSpan(t, u, v, qs, q[0]);
      SelectSeen(t, v, qs, q[0]);
      SelectSeen(u, v, qs, q[0]);
      var s := SpanIn(t, v, qs, q[0]);
      if s.Some? && Disjoint(a, s.value) {
        SameSlice(t, u, a, s.value);
      } else if s.Some? && IsRange(q[0]) {
        MissedRead(t, ps, p, w, Window(s.value.from, s.value.to), None, q[1..]);
      } else if s.Some? {
        PatchInside(t, ps, p, w, a.from);
        MissedRead(t.kids[a.from], KidSpec(t, ps, a.from), p[1..], w, Whole, KidSpec(t, qs, a.from), q[1..]);
      }
    }
  }

  lemma SpanWhole(t: Tree, ts: Spec, sel: Selector)
    requires sel.range.Some? ==> sel.range.value.count >= 0
    ensures SpanIn(t, Whole, ts, sel) == SpanOf(t, ts, sel)
    ensures SpanOf(t, ts, sel).Some? && !IsRange(sel) ==> Locate(t, ts, sel) == Some(SpanOf(t, ts, sel).value.from)
  {
    hide Locate;
  }

  lemma SameSlice(t: Tree, u: Tree, a: Span, b: Span)
    requires t.Composite() && u.Composite() && |t.kids| == |u.kids| && 0 <= b.from <= b.to <= |t.kids| && Disjoint(a, b)
    requires forall k :: 0 <= k < |t.kids| && (k < a.from || a.to <= k) ==> u.kids[k] == t.kids[k]
    ensures u.kids[b.from..b.to] == t.kids[b.from..b.to]
    ensures b.from < b.to ==> u.kids[b.from] == t.kids[b.from]
  {
    assert forall k :: b.from <= k < b.to ==> u.kids[k] == t.kids[k];
  }

  lemma SameSpan(t: Tree, u: Tree, v: View, ts: Spec, sel: Selector)
    requires t.Composite() && u.Composite() && t.Array? == u.Array? && |t.kids| == |u.kids|
    requires Within(t, v) && (sel.range.Some? ==> sel.range.value.count >= 0)
    ensures SpanIn(u, v, ts, sel) == SpanIn(t, v, ts, sel)
    ensures forall i: nat :: KidSpec(u, ts, i) == KidSpec(t, ts, i)
  {
    SameShape(Seen(t, v), Seen(u, v), ts, sel, 0);
  }

  /** One selector applied to a view, in terms of the composite behind it. */
  lemma SelectSeen(t: Tree, v: View, ts: Spec, sel: Selector)
    requires t.Composite() && Within(t, v) && (sel.range.Some? ==> sel.range.value.count >= 0)
    ensures var s := SpanIn(t, v, ts, sel);
            Select(Seen(t, v), ts, sel) ==
            if s.None? then (Nil, None)
            else if IsRange(sel) then (Seen(t, Window(s.value.from, s.value.to)), None)
            else (t.kids[s.value.from], KidSpec(t, ts, s.value.from))
  {
    hide Locate;
    if v.Window? && IsRange(sel) && InBounds(Seen(t, v), sel.range.value) {
      var r := sel.range.value;
      SliceOfSlice(t.kids, v.from, v.to, r.low, r.low + r.count);
    }
  }

  lemma SliceOfSlice<T>(s: seq<T>, from: nat, to: nat, low: nat, high: nat)
    requires from <= to <= |s| && low <= high <= to - from
    ensures s[from..to][low..high] == s[from + low..from + high]
  {
    var inner, outer := s[from..to], s[from + low..from + high];
    forall k | 0 <= k < high - low ensures inner[low..high][k] == outer[k] {
      assert inner[low..high][k] == inner[low + k] == s[from + low + k];
    }
    assert inner[low..high] == outer;
  }

  /** Below its first selector a patch is the patch of the selected element. */
  lemma PatchInside(t: Tree, ts: Spec, p: seq<Selector>, w: Tree, i: nat)
    requires |p| > 1 && !IsRange(p[0]) && Patch(t, ts, p, w).Some? && Locate(t, ts, p[0]) == Some(i)
    ensures Patch(t.kids[i], KidSpec(t, ts, i), p[1..], w).Some?
    ensures Patch(t, ts, p, w).value == t.WithKid(i, Patch(t.kids[i], KidSpec(t, ts, i), p[1..], w).value)
  {
    hide Locate, KidSpec;
  }

  /** Outside the span of its first selector a patch keeps every element. */
  lemma PatchOutside(t: Tree, ts: Spec, p: seq<Selector>, w: Tree, a: Span)
    requires NonNegative(p)
    requires Patch(t, ts, p, w).Some? && SpanOf(t, ts, p[0]) == Some(a)
    ensures var u := Patch(t, ts, p, w).value;
            && u.Composite() && t.Composite() && |u.kids| == |t.kids|
            && forall k :: 0 <= k < |t.kids| && (k < a.from || a.to <= k) ==> u.kids[k] == t.kids[k]
  {
  }

  // ----- type soundness

  lemma KidConforms(t: Tree, ts: TypeSpec, i: nat)
    requires Conforms(t, ts) && t.Composite() && i < |t.kids|
    ensures KidSpec(t, Some(ts), i).Some?
    ensures Conforms(t.kids[i], KidSpec(t, Some(ts), i).value)
  {
  }

  /** On a conforming value a component or index selector resolves in the value exactly when it does in the type. */
  lemma LocateMatchesResolve(t: Tree, ts: TypeSpec, sel: Selector)
    requires Conforms(t, ts) && !IsRange(sel)
    ensures ResolveStep(ts, sel).Some? <==> Locate(t, Some(ts), sel).Some?
    ensures Locate(t, Some(ts), sel).Some? ==>
              ResolveStep(ts, sel) == KidSpec(t, Some(ts), Locate(t, Some(ts), sel).value)
    ensures Locate(t, None, sel).Some? ==> Locate(t, None, sel) == Locate(t, Some(ts), sel)
  {
  }

  /** Whatever a chain reads, ranges included, conforms to the type the chain resolves to. */
  lemma {:induction false} ReadIsTyped(t: Tree, ts: TypeSpec, known: Spec, chain: seq<Selector>)
    requires NonNegative(chain)
    requires Conforms(t, ts) && (known == Some(ts) || known == None)
    requires !Read(t, known, chain).Nil?
    ensures Resolve(ts, chain).Some?
    ensures Conforms(Read(t, known, chain), Resolve(ts, chain).value)
    decreases |chain|
  {
    if chain != [] {
      var sel := chain[0];
      var (kid, spec) := Select(t, known, sel);
      NilReadsNil(spec, chain[1..]);
      if !IsRange(sel) {
        LocateMatchesResolve(t, ts, sel);
        KidConforms(t, ts, Locate(t, known, sel).value);
      }
      ReadIsTyped(kid, ResolveStep(ts, sel).value, spec, chain[1..]);
    }
  }

  lemma NilReadsNil(spec: Spec, chain: seq<Selector>)
    requires NonNegative(chain)
    ensures Read(Nil, spec, chain) == Nil
  {
  }

  /** Range-free chains: the type resolves exactly when the value can be read. */
  lemma {:induction false} ResolveExactly(t: Tree, ts: TypeSpec, chain: seq<Selector>)
    requires RangeFree(chain) && NonNegative(chain)
    requires Conforms(t, ts)
    ensures Resolve(ts, chain).Some? <==> !Read(t, Some(ts), chain).Nil?
    decreases |chain|
  {
    if chain != [] {
      var sel := chain[0];
      LocateMatchesResolve(t, ts, sel);
      var i := Locate(t, Some(ts), sel);
      if i.Some? {
        KidConforms(t, ts, i.value);
        ResolveExactly(t.kids[i.value], ResolveStep(ts, sel).value, chain[1..]);
      } else {
        NilReadsNil(None, chain[1..]);
      }
    }
  }

  lemma WithKidConforms(t: Tree, ts: TypeSpec, i: nat, kid: Tree)
    requires Conforms(t, ts) && t.Composite() && i < |t.kids|
    requires Conforms(kid, KidSpec(t, Some(ts), i).value)
    ensures Conforms(t.WithKid(i, kid), ts)
  {
  }

  /** Writing a conforming value at a resolvable range-free chain succeeds and keeps the whole value conforming. */
  lemma {:induction false} WriteIsTyped(t: Tree, ts: TypeSpec, chain: seq<Selector>, w: Tree)
    requires RangeFree(chain)
    requires Conforms(t, ts)
    requires Resolve(ts, chain).Some? && Conforms(w, Resolve(ts, chain).value)
    ensures Write(t, Some(ts), chain, w).Some?
    ensures Conforms(Write(t, Some(ts), chain, w).value, ts)
    decreases |chain|
  {
    if chain != [] {
      var sel := chain[0];
      LocateMatchesResolve(t, ts, sel);
      var i := Locate(t, Some(ts), sel).value;
      KidConforms(t, ts, i);
      var child := ResolveStep(ts, sel).value;
      if |chain| == 1 {
        assert Resolve(child, chain[1..]) == Some(child);
        WithKidConforms(t, ts, i, w);
      } else {
        WriteIsTyped(t.kids[i], child, chain[1..], w);
        WithKidConforms(t, ts, i, Patch(t.kids[i], Some(child), chain[1..], w).value);
      }
    }
  }

  predicate RangeOnlyLast(chain: seq<Selector>) {
    forall i :: 0 <= i < |chain| - 1 ==> !IsRange(chain[i])
  }

  /** In a conforming value, what was read can be written back exactly when no selector follows a range. */
  lemma {:induction false} WriteBackAccepted(t: Tree, ts: TypeSpec, chain: seq<Selector>)
    requires NonNegative(chain)
    requires Conforms(t, ts)
    requires !Read(t, Some(ts), chain).Nil?
    ensures Write(t, Some(ts), chain, Read(t, Some(ts), chain)).Some? <==> RangeOnlyLast(chain)
    decreases |chain|
  {
    hide Locate, KidSpec;
    if chain != [] {
      var (kid, spec) := Select(t, Some(ts), chain[0]);
      NilReadsNil(spec, chain[1..]);
      if !IsRange(chain[0]) {
        KidConforms(t, ts, Locate(t, Some(ts), chain[0]).value);
        WriteBackAccepted(kid, spec.value, chain[1..]);
        assert RangeOnlyLast(chain) <==> RangeOnlyLast(chain[1..]) by {
          assert forall i :: 0 <= i < |chain| - 1 ==> chain[i + 1] == chain[1..][i];
        }
      }
    }
  }

  // ----- ranges: Resolve promises more than a read delivers

  /** What Resolve does not check: the bounds of a range, and that no component name follows one. */
  predicate RangesFit(ts: TypeSpec, chain: seq<Selector>, named: bool)
    decreases |chain|
  {
    if chain == [] then true
    else
      && (IsRange(chain[0]) ==>
            && chain[0].range.value.low >= 0
            && chain[0].range.value.low + chain[0].range.value.count <= ts.count)
      && (chain[0].component != [] ==> named)
      && (ResolveStep(ts, chain[0]).Some? ==>
            RangesFit(ResolveStep(ts, chain[0]).value, chain[1..], named && !IsRange(chain[0])))
  }

  /** With ranges, a chain reads a value exactly when it resolves, its ranges are in bounds and no name follows a range. */
  lemma {:induction false} ResolveExactlyWithRanges(t: Tree, ts: TypeSpec, known: Spec, chain: seq<Selector>)
    requires NonNegative(chain)
    requires Conforms(t, ts) && (known == Some(ts) || known == None)
    ensures !Read(t, known, chain).Nil? <==> (Resolve(ts, chain).Some? && RangesFit(ts, chain, known.Some?))
    decreases |chain|
  {
    if chain != [] {
      var sel := chain[0];
      var (kid, spec) := Select(t, known, sel);
      NilReadsNil(None, chain[1..]);
      if IsRange(sel) {
        if InBounds(t, sel.range.value) {
          ResolveExactlyWithRanges(kid, ResolveStep(ts, sel).value, None, chain[1..]);
        }
      } else {
        LocateMatchesResolve(t, ts, sel);
        var i := Locate(t, known, sel);
        if i.Some? {
          KidConforms(t, ts, i.value);
          ResolveExactlyWithRanges(kid, ResolveStep(ts, sel).value, spec, chain[1..]);
        }
      }
    }
  }

  /** An array of two booleans: Resolve accepts a range past its end, the read does not. */
  lemma ResolveAcceptsUnreadableRange()
    ensures var t := Array([Leaf(BooleanValue(true)), Leaf(BooleanValue(false))]);
            var ts := TypeSpec(ArrayType, [], 2, Some(TypeSpec(BooleanType, [], 0, None)));
            && Conforms(t, ts)
            && Resolve(ts, [ByRange(1, 2)]).Some?
            && Read(t, Some(ts), [ByRange(1, 2)]).Nil?
  {
    var t := Array([Leaf(BooleanValue(true)), Leaf(BooleanValue(false))]);
    var ts := TypeSpec(ArrayType, [], 2, Some(TypeSpec(BooleanType, [], 0, None)));
    assert [ByRange(1, 2)][1..] == [];
    NilReadsNil(None, []);
    assert Select(t, Some(ts), ByRange(1, 2)) == (Nil, None);
  }
}
