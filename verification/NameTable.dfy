/**
 One of the registry's two object tables, variables or named variable lists
 (internal/servermodel/registry.go): a map keyed by `scope:domain/item`
 strings, plus sorted name slices per domain and for VMD scope.
 */
module NameTable {
  import opened Bytes
  import opened Results
  import opened Names

  datatype Scope = Vmd | Domain | Association

  datatype Id = Id(scope: Scope, domain: Name, item: Name)

  /** payload stands for the type, callbacks or member list of the entry. */
  datatype Entry = Entry(id: Id, deletable: bool, payload: nat)

  const SLASH: Byte := 47
  const COLON: Byte := 58

  function Digit(s: Scope): Byte {
    match s case Vmd => 48 case Domain => 49 case Association => 50
  }

  /** varKey and nvlKey, the latter with prefix "nvl:". */
  function Key(prefix: Name, id: Id): Name {
    prefix + [Digit(id.scope), COLON] + id.domain + [SLASH] + id.item
  }

  lemma SlashInside(a: Name, b: Name, c: Name, d: Name)
    requires |a| < |c|
    requires a + [SLASH] + b == c + [SLASH] + d
    ensures SLASH in c
  {
    assert (c + [SLASH] + d)[|a|] == c[|a|] && (a + [SLASH] + b)[|a|] == SLASH;
  }

  /** Where the first slash is decides how a key is read. */
  lemma SplitAtSlash(a: Name, b: Name, c: Name, d: Name)
    requires SLASH !in a && SLASH !in c
    requires a + [SLASH] + b == c + [SLASH] + d
    ensures a == c && b == d
  {
    if |a| < |c| {
      SlashInside(a, b, c, d);
    } else if |c| < |a| {
      SlashInside(c, d, a, b);
    }
    var s, t := a + [SLASH] + b, c + [SLASH] + d;
    assert s[..|a|] == a && t[..|a|] == c;
    assert s[|a| + 1..] == b && t[|a| + 1..] == d;
  }

  /** Keys identify objects as long as domain names contain no slash; item names may. */
  lemma KeyInjective(prefix: Name, x: Id, y: Id)
    requires SLASH !in x.domain && SLASH !in y.domain
    requires Key(prefix, x) == Key(prefix, y)
    ensures x == y
  {
    var k, l := Key(prefix, x), Key(prefix, y);
    var n := |prefix|;
    assert k[n] == Digit(x.scope) && l[n] == Digit(y.scope);
    assert k[n + 2..] == x.domain + [SLASH] + x.item && l[n + 2..] == y.domain + [SLASH] + y.item;
    SplitAtSlash(x.domain, x.item, y.domain, y.item);
  }

  /** With a slash in a domain name two objects share one key. */
  lemma KeyCollision(prefix: Name, a: Name, b: Name, c: Name)
    ensures Key(prefix, Id(Domain, a + [SLASH] + b, c)) == Key(prefix, Id(Domain, a, b + [SLASH] + c))
    ensures Id(Domain, a + [SLASH] + b, c) != Id(Domain, a, b + [SLASH] + c)
  {
    assert prefix + [49, COLON] + (a + [SLASH] + b) + [SLASH] + c == prefix + [49, COLON] + a + [SLASH] + (b + [SLASH] + c);
    assert |a + [SLASH] + b| != |a|;
  }

  /** The stored object asked for under another name: its item starts where the requested domain has a slash. */
  predicate Covers(request: Id, stored: Id) {
    var n := |stored.domain|;
    && request.scope == stored.scope
    && n < |request.domain| && request.domain[..n] == stored.domain && request.domain[n] == SLASH
    && stored.item == request.domain[n + 1..] + [SLASH] + request.item
  }

  lemma SameKey(prefix: Name, x: Id, y: Id)
    ensures Key(prefix, x) == Key(prefix, y) <==>
            x.scope == y.scope && x.domain + [SLASH] + x.item == y.domain + [SLASH] + y.item
  {
    var k, l := Key(prefix, x), Key(prefix, y);
    var n := |prefix|;
    assert k == prefix + [Digit(x.scope), COLON] + (x.domain + [SLASH] + x.item);
    assert l == prefix + [Digit(y.scope), COLON] + (y.domain + [SLASH] + y.item);
    assert k[n] == Digit(x.scope) && l[n] == Digit(y.scope);
    assert k[n + 2..] == x.domain + [SLASH] + x.item && l[n + 2..] == y.domain + [SLASH] + y.item;
  }

  /** A name with any domain asks for a stored object exactly when it is its name or covers it. */
  lemma RequestHits(prefix: Name, request: Id, stored: Id)
    requires SLASH !in stored.domain
    ensures Key(prefix, request) == Key(prefix, stored) <==> request == stored || Covers(request, stored)
  {
    hide Key;
    SameKey(prefix, request, stored);
    var n := |stored.domain|;
    if Covers(request, stored) {
      assert request.domain == stored.domain + [SLASH] + request.domain[n + 1..];
    } else if Key(prefix, request) == Key(prefix, stored) {
      LongerDomain(request, stored);
    }
  }

  lemma LongerDomain(request: Id, stored: Id)
    requires SLASH !in stored.domain && request.scope == stored.scope
    requires request.domain + [SLASH] + request.item == stored.domain + [SLASH] + stored.item
    ensures request == stored || Covers(request, stored)
  {
    var n, s, t := |stored.domain|, request.domain + [SLASH] + request.item, stored.domain + [SLASH] + stored.item;
    if |request.domain| < n {
      SlashInside(request.domain, request.item, stored.domain, stored.item);
    } else if |request.domain| == n {
      assert request.domain == s[..n] == t[..n] == stored.domain;
      assert request.item == s[n + 1..] == t[n + 1..] == stored.item;
    } else {
      assert request.domain[..n] == s[..n] == t[..n] == stored.domain;
      assert request.domain[n] == s[n] == t[n];
      assert stored.item == t[n + 1..] == s[n + 1..] == request.domain[n + 1..] + [SLASH] + request.item;
    }
  }

  /** No stored object answers to this name but its own. */
  ghost predicate Unambiguous(model: map<Id, Entry>, id: Id) {
    forall other :: other in model ==> !Covers(id, other)
  }

  lemma PlainDomain(model: map<Id, Entry>, id: Id)
    requires SLASH !in id.domain
    ensures Unambiguous(model, id)
  {
  }

  /** Every name is unambiguous exactly when no stored item name has a slash. */
  lemma PlainItems(model: map<Id, Entry>)
    ensures (forall id :: Unambiguous(model, id)) <==> (forall id :: id in model ==> SLASH !in id.item)
  {
    forall id | id in model && SLASH in id.item ensures exists request :: !Unambiguous(model, request) {
      var k :| 0 <= k < |id.item| && id.item[k] == SLASH;
      var request := Id(id.scope, id.domain + [SLASH] + id.item[..k], id.item[k + 1..]);
      var n := |id.domain|;
      assert request.domain[..n] == id.domain && request.domain[n + 1..] == id.item[..k];
      assert id.item == id.item[..k] + [SLASH] + id.item[k + 1..];
      assert Covers(request, id);
      assert !Unambiguous(model, request);
    }
  }

  ghost predicate ValidIds(model: map<Id, Entry>) {
    forall id :: id in model ==>
      model[id].id == id && SLASH !in id.domain && id.item != [] && (id.scope == Vmd ==> id.domain == [])
  }

  /** The string-keyed map holds exactly the objects of the model. */
  ghost predicate Keyed(prefix: Name, entries: map<Name, Entry>, model: map<Id, Entry>)
  {
    && (forall id :: id in model ==> Key(prefix, id) in entries && entries[Key(prefix, id)] == model[id])
    && (forall k :: k in entries ==> k == Key(prefix, entries[k].id) && entries[k].id in model)
  }

  lemma KeyedInsert(prefix: Name, entries: map<Name, Entry>, model: map<Id, Entry>, e: Entry)
    requires ValidIds(model) && Keyed(prefix, entries, model)
    requires SLASH !in e.id.domain && e.id !in model
    ensures Keyed(prefix, entries[Key(prefix, e.id) := e], model[e.id := e])
  {
    hide Key;
    forall id | id in model ensures Key(prefix, id) != Key(prefix, e.id) {
      if Key(prefix, id) == Key(prefix, e.id) {
        KeyInjective(prefix, id, e.id);
      }
    }
  }

  lemma KeyedDelete(prefix: Name, entries: map<Name, Entry>, model: map<Id, Entry>, id: Id)
    requires ValidIds(model) && Keyed(prefix, entries, model)
    requires id in model
    ensures Keyed(prefix, entries - {Key(prefix, id)}, model - {id})
  {
    hide Key;
    forall other | other in model && other != id ensures Key(prefix, other) != Key(prefix, id) {
      if Key(prefix, other) == Key(prefix, id) {
        KeyInjective(prefix, other, id);
      }
    }
  }

  class Table {
    const prefix: Name
    var entries: map<Name, Entry>
    var order: map<Name, seq<Name>>
    var vmdOrder: seq<Name>

    /** The objects stored, by identity. */
    ghost var model: map<Id, Entry>

    function OrderAt(scope: Scope, domain: Name): seq<Name>
      reads this`order, this`vmdOrder
    {
      match scope
      case Vmd => if domain == [] then vmdOrder else []
      case Domain => if domain in order then order[domain] else []
      case Association => []
    }

    /** Every order slice is ascending and holds exactly the names of its scope and domain. */
    ghost predicate Ordered()
      reads this
    {
      && (forall scope, domain :: Ascending(OrderAt(scope, domain)))
      && (forall scope, domain, x :: x in OrderAt(scope, domain) <==> (scope != Association && Id(scope, domain, x) in model))
    }

    ghost predicate Valid()
      reads this
    {
      ValidIds(model) && Keyed(prefix, entries, model) && Ordered()
    }

    constructor (prefix: Name)
      ensures Valid() && model == map[] && this.prefix == prefix
    {
      this.prefix := prefix;
      entries, order, vmdOrder, model := map[], map[], [], map[];
    }

    /** What the string map holds for a requested name. */
    lemma KeyOf(id: Id)
      requires Valid()
      ensures id in model ==> Unambiguous(model, id) && Key(prefix, id) in entries && entries[Key(prefix, id)] == model[id]
      ensures Key(prefix, id) in entries <==> id in model || !Unambiguous(model, id)
      ensures Key(prefix, id) in entries ==>
                var e := entries[Key(prefix, id)];
                Key(prefix, e.id) == Key(prefix, id) && e.id in model && model[e.id] == e && (e.id == id || Covers(id, e.id))
    {
      hide Key, Covers;
      if id in model {
        PlainDomain(model, id);
      }
      if Key(prefix, id) in entries {
        RequestHits(prefix, id, entries[Key(prefix, id)].id);
      } else if !Unambiguous(model, id) {
        var other :| other in model && Covers(id, other);
        RequestHits(prefix, id, other);
      }
    }

    /** A stored object is found under its own name and under the names that cover it. */
    method Lookup(id: Id) returns (r: Option<Entry>)
      requires Valid()
      ensures Unambiguous(model, id) ==> r == if id in model then Some(model[id]) else None
      ensures !Unambiguous(model, id) ==> r.Some? && r.value.id in model && r.value == model[r.value.id] && Covers(id, r.value.id)
    {
      KeyOf(id);
      var key := Key(prefix, id);
      if key in entries {
        return Some(entries[key]);
      }
      return None;
    }

    method SetOrder(scope: Scope, domain: Name, names: seq<Name>)
      requires scope == Vmd ==> domain == []
      modifies this`order, this`vmdOrder
      ensures scope != Association ==> OrderAt(scope, domain) == names
      ensures forall s, d :: (s != scope || d != domain) ==> OrderAt(s, d) == old(OrderAt(s, d))
    {
      match scope
      case Vmd => vmdOrder := names;
      case Domain => order := order[domain := names];
      case Association =>
    }

    method AddName(id: Id)
      requires forall s, d :: Ascending(OrderAt(s, d))
      requires id.item !in OrderAt(id.scope, id.domain)
      requires id.scope == Vmd ==> id.domain == []
      modifies this`order, this`vmdOrder
      ensures forall s, d :: Ascending(OrderAt(s, d))
      ensures forall s, d, x :: x in OrderAt(s, d) <==>
        (x in old(OrderAt(s, d)) || (id == Id(s, d, x) && s != Association))
    {
      hide OrderAt, Ascending;
      if id.scope != Association {
        var names := InsertSorted(OrderAt(id.scope, id.domain), id.item);
        SetOrder(id.scope, id.domain, names);
      }
    }

    method DropName(id: Id)
      requires forall s, d :: Ascending(OrderAt(s, d))
      requires id.scope == Vmd ==> id.domain == []
      modifies this`order, this`vmdOrder
      ensures forall s, d :: Ascending(OrderAt(s, d))
      ensures forall s, d, x :: x in OrderAt(s, d) <==>
        (x in old(OrderAt(s, d)) && (id != Id(s, d, x) || s == Association))
    {
      hide OrderAt, Ascending;
      if id.scope != Association {
        var names := RemoveFromSorted(OrderAt(id.scope, id.domain), id.item);
        SetOrder(id.scope, id.domain, names);
      }
    }

    /** The common part of RegisterVariable and DefineNVL. */
    method Insert(e: Entry) returns (ok: bool)
      requires Valid()
      requires SLASH !in e.id.domain && e.id.item != [] && (e.id.scope == Vmd ==> e.id.domain == [])
      modifies this
      ensures Valid()
      ensures ok <==> e.id !in old(model)
      ensures model == if ok then old(model)[e.id := e] else old(model)
    {
      hide Key, Ascending, OrderAt, Keyed;
      KeyOf(e.id);
      PlainDomain(model, e.id);
      var key := Key(prefix, e.id);
      if key in entries {
        return false;
      }
      KeyedInsert(prefix, entries, model, e);
      AddName(e.id);
      entries := entries[key := e];
      model := model[e.id := e];
      ok := true;
    }

    /**
     DeleteNVL: only a stored, deletable object is removed. Under a name that
     covers it the object goes but its own name stays listed.
     */
    method Delete(id: Id) returns (ok: bool)
      requires Valid() && (id.scope == Vmd ==> Unambiguous(model, id))
      modifies this
      ensures Unambiguous(old(model), id) ==>
                && Valid()
                && (ok <==> id in old(model) && old(model)[id].deletable)
                && model == if ok then old(model) - {id} else old(model)
      ensures !Unambiguous(old(model), id) ==>
                && Key(prefix, id) in old(entries)
                && var gone := old(entries)[Key(prefix, id)].id;
                && gone in old(model) && Covers(id, gone)
                && (ok <==> old(model)[gone].deletable)
                && model == (if ok then old(model) - {gone} else old(model))
                && ValidIds(model) && Keyed(prefix, entries, model)
                && (forall s, d, x :: x in OrderAt(s, d) <==> x in old(OrderAt(s, d)))
                && (Valid() <==> !ok || gone.scope == Association)
    {
      hide Key, Ascending, OrderAt, Keyed, Covers;
      KeyOf(id);
      var key := Key(prefix, id);
      if key !in entries || !entries[key].deletable {
        return false;
      }
      ghost var gone := entries[key].id;
      KeyedDelete(prefix, entries, model, gone);
      DropName(id);
      entries := entries - {key};
      model := model - {gone};
      ok := true;
    }

    /** DeleteAllDomainNVLs and DeleteAllVMDNVLs: the loop over a copy of the order slice. */
    method DeleteAll(scope: Scope, domain: Name) returns (matched: nat, deleted: nat)
      requires Valid()
      requires scope != Association && (scope == Vmd ==> domain == [])
      modifies this
      ensures Valid()
      ensures model == Survivors(old(model), scope, domain)
      ensures matched == |old(OrderAt(scope, domain))|
      ensures deleted == |old(model)| - |model| && deleted <= matched
    {
      hide Valid, Ascending, OrderAt, Without, Survivors;
      NamesListed(scope, domain);
      var names := OrderAt(scope, domain);
      ghost var all := model;
      matched, deleted := 0, 0;
      WithoutNone(all, scope, domain);
      for i := 0 to |names|
        invariant Valid()
        invariant model == Without(all, scope, domain, names[..i])
        invariant matched == i && deleted <= i && deleted == |all| - |model|
      {
        var id := Id(scope, domain, names[i]);
        assert names[i] in names;
        WithoutStep(all, scope, domain, names, i);
        PlainDomain(model, id);
        var entry := Lookup(id);
        if entry.Some? {
          matched := matched + 1;
          DropOne(model, id);
          var removed := Delete(id);
          if removed {
            deleted := deleted + 1;
          }
        }
      }
      WithoutAll(all, scope, domain, names);
    }

    lemma NamesListed(scope: Scope, domain: Name)
      requires Valid() && scope != Association
      ensures Ascending(OrderAt(scope, domain))
      ensures forall x :: x in OrderAt(scope, domain) <==> Id(scope, domain, x) in model
      ensures OrderAt(scope, domain) != [] ==> SLASH !in domain
    {
      if OrderAt(scope, domain) != [] {
        assert OrderAt(scope, domain)[0] in OrderAt(scope, domain);
      }
    }

    /** Every order slice is in octet order: each name ends first or has the smaller octet at the first difference. */
    lemma NamesInOctetOrder(scope: Scope, domain: Name, i: nat)
      requires Valid() && i + 1 < |OrderAt(scope, domain)|
      ensures Precedes(OrderAt(scope, domain)[i], OrderAt(scope, domain)[i + 1])
    {
      hide Less, OrderAt, Precedes;
      assert Ascending(OrderAt(scope, domain));
      LessExactly(OrderAt(scope, domain)[i], OrderAt(scope, domain)[i + 1]);
    }

    method List(scope: Scope, domain: Name, continueAfter: Name, maxNames: int) returns (r: Page)
      requires Valid()
      ensures r == PageOf(OrderAt(scope, domain), continueAfter, maxNames)
    {
      r := Paginate(OrderAt(scope, domain), continueAfter, maxNames);
    }
  }

  /** What is left after a delete-all in one scope and domain. */
  ghost function Survivors(m: map<Id, Entry>, scope: Scope, domain: Name): map<Id, Entry> {
    map id | id in m && !(id.scope == scope && id.domain == domain && m[id].deletable) :: m[id]
  }

  ghost function Without(m: map<Id, Entry>, scope: Scope, domain: Name, names: seq<Name>): map<Id, Entry> {
    map id | id in m && !(id.scope == scope && id.domain == domain && id.item in names && m[id].deletable) :: m[id]
  }

  lemma WithoutNone(m: map<Id, Entry>, scope: Scope, domain: Name)
    ensures Without(m, scope, domain, []) == m
  {
  }

  lemma WithoutAll(m: map<Id, Entry>, scope: Scope, domain: Name, names: seq<Name>)
    requires forall x :: x in names <==> Id(scope, domain, x) in m
    ensures Without(m, scope, domain, names[..|names|]) == Survivors(m, scope, domain)
  {
    assert names[..|names|] == names;
    assert forall id :: id in m && id.scope == scope && id.domain == domain ==> id == Id(scope, domain, id.item);
  }

  /** The i-th name is still there after the ones before it, and removing it is one step. */
  lemma WithoutStep(m: map<Id, Entry>, scope: Scope, domain: Name, names: seq<Name>, i: nat)
    requires Ascending(names) && i < |names|
    requires Id(scope, domain, names[i]) in m
    ensures var id := Id(scope, domain, names[i]);
            && id in Without(m, scope, domain, names[..i])
            && Without(m, scope, domain, names[..i])[id] == m[id]
            && Without(m, scope, domain, names[..i + 1]) ==
               if m[id].deletable then Without(m, scope, domain, names[..i]) - {id} else Without(m, scope, domain, names[..i])
  {
    hide Less;
    forall k | 0 <= k < i ensures names[k] != names[i] {
      LessAsymmetric(names[k], names[i]);
    }
    assert forall x :: x in names[..i + 1] <==> x in names[..i] || x == names[i];
  }

  lemma DropOne<K, V>(m: map<K, V>, k: K)
    requires k in m
    ensures |m - {k}| == |m| - 1
  {
    assert (m - {k}).Keys == m.Keys - {k};
  }
}
