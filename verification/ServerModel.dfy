/**
 The server's object registry (internal/servermodel/registry.go): domains,
 variables and named variable lists, with deterministic listing.
 */
module ServerModel {
  import opened Results
  import opened Names
  import opened NameTable

  const NVL_PREFIX: Name := [110, 118, 108, 58]

  class Registry {
    var domains: set<Name>
    var domainOrder: seq<Name>
    const vars: Table
    const nvls: Table

    /** Every domain-scoped object lives in a registered domain. */
    ghost predicate Housed(t: Table)
      reads this, t
    {
      forall id :: id in t.model && id.scope == Domain ==> id.domain in domains
    }

    ghost predicate Valid()
      reads this, vars, nvls
    {
      && vars != nvls && vars.Valid() && nvls.Valid()
      && Ascending(domainOrder)
      && (forall x :: x in domainOrder <==> x in domains)
      && (forall d :: d in domains ==> d != [] && SLASH !in d)
      && Housed(vars) && Housed(nvls)
    }

    constructor ()
      ensures Valid() && fresh(vars) && fresh(nvls)
      ensures domains == {} && vars.model == map[] && nvls.model == map[]
    {
      domains, domainOrder := {}, [];
      var v := new Table([]);
      var n := new Table(NVL_PREFIX);
      vars, nvls := v, n;
    }

    method RegisterDomain(name: Name) returns (ok: bool)
      requires Valid() && SLASH !in name
      modifies this
      ensures Valid()
      ensures ok <==> name != [] && name !in old(domains)
      ensures domains == if ok then old(domains) + {name} else old(domains)
    {
      hide Ascending;
      if name == [] || name in domains {
        return false;
      }
      domainOrder := InsertSorted(domainOrder, name);
      domains := domains + {name};
      ok := true;
    }

    /** RegisterVariable and DefineNVL differ only in their table. */
    method Register(t: Table, e: Entry) returns (ok: bool)
      requires Valid() && (t == vars || t == nvls)
      requires e.id.scope == Vmd ==> e.id.domain == []
      requires e.id.scope == Association ==> SLASH !in e.id.domain
      modifies t
      ensures Valid()
      ensures ok <==> (e.id.item != [] && (e.id.scope == Domain ==> e.id.domain in domains) && e.id !in old(t.model))
      ensures t.model == if ok then old(t.model)[e.id := e] else old(t.model)
    {
      hide Table.Valid, Ascending;
      if e.id.item == [] {
        return false;
      }
      if e.id.scope == Domain && (e.id.domain == [] || e.id.domain !in domains) {
        return false;
      }
      ok := t.Insert(e);
    }

    method RegisterVariable(e: Entry) returns (ok: bool)
      requires Valid()
      requires e.id.scope == Vmd ==> e.id.domain == []
      requires e.id.scope == Association ==> SLASH !in e.id.domain
      modifies vars
      ensures Valid()
      ensures ok <==> (e.id.item != [] && (e.id.scope == Domain ==> e.id.domain in domains) && e.id !in old(vars.model))
      ensures vars.model == if ok then old(vars.model)[e.id := e] else old(vars.model)
    {
      ok := Register(vars, e);
    }

    method DefineNVL(e: Entry) returns (ok: bool)
      requires Valid()
      requires e.id.scope == Vmd ==> e.id.domain == []
      requires e.id.scope == Association ==> SLASH !in e.id.domain
      modifies nvls
      ensures Valid()
      ensures ok <==> (e.id.item != [] && (e.id.scope == Domain ==> e.id.domain in domains) && e.id !in old(nvls.model))
      ensures nvls.model == if ok then old(nvls.model)[e.id := e] else old(nvls.model)
    {
      ok := Register(nvls, e);
    }

    method LookupNVL(id: Id) returns (r: Option<Entry>)
      requires Valid()
      ensures Unambiguous(nvls.model, id) ==> r == if id in nvls.model then Some(nvls.model[id]) else None
      ensures !Unambiguous(nvls.model, id) ==>
                r.Some? && r.value.id in nvls.model && r.value == nvls.model[r.value.id] && Covers(id, r.value.id)
    {
      hide Table.Valid;
      r := nvls.Lookup(id);
    }

    /** Table.Delete says what happens under a name that covers another list. */
    method DeleteNVL(id: Id) returns (ok: bool)
      requires Valid() && Unambiguous(nvls.model, id)
      modifies nvls
      ensures Valid()
      ensures ok <==> id in old(nvls.model) && old(nvls.model)[id].deletable
      ensures nvls.model == if ok then old(nvls.model) - {id} else old(nvls.model)
    {
      hide Table.Valid, Ascending;
      ok := nvls.Delete(id);
    }

    method DeleteAllNVLs(scope: Scope, domain: Name) returns (matched: nat, deleted: nat)
      requires Valid()
      requires scope != Association && (scope == Vmd ==> domain == [])
      modifies nvls
      ensures Valid()
      ensures nvls.model == Survivors(old(nvls.model), scope, domain)
      ensures matched == |old(nvls.OrderAt(scope, domain))|
      ensures deleted == |old(nvls.model)| - |nvls.model| && deleted <= matched
    {
      hide Table.Valid, Ascending;
      matched, deleted := nvls.DeleteAll(scope, domain);
    }

    /** An order slice has one name per stored object. */
    lemma OrderCounts(scope: Scope, domain: Name)
      requires Valid() && scope != Association
      ensures |nvls.OrderAt(scope, domain)| == |set id | id in nvls.model && id.scope == scope && id.domain == domain|
    {
      hide Table.Valid;
      nvls.NamesListed(scope, domain);
      var names := nvls.OrderAt(scope, domain);
      IdSetMembers(names, scope, domain);
      IdSetSize(names, scope, domain);
      assert (set id | id in nvls.model && id.scope == scope && id.domain == domain) == IdSet(names, scope, domain) by {
        assert forall id: Id :: id.scope == scope && id.domain == domain ==> id == Id(scope, domain, id.item);
      }
    }

    method ListDomains(continueAfter: Name, maxNames: int) returns (r: Page)
      requires Valid()
      ensures r == PageOf(domainOrder, continueAfter, maxNames)
    {
      r := Paginate(domainOrder, continueAfter, maxNames);
    }

    /** In every valid state an order slice is the one ascending list of the names stored in its scope and domain. */
    lemma OrderIsDetermined(t: Table, scope: Scope, domain: Name, names: seq<Name>)
      requires Valid() && (t == vars || t == nvls) && scope != Association
      requires Ascending(names) && forall x :: x in names <==> Id(scope, domain, x) in t.model
      ensures t.OrderAt(scope, domain) == names
      ensures [] !in names
    {
      t.NamesListed(scope, domain);
      AscendingUnique(t.OrderAt(scope, domain), names);
    }
  }

  ghost function IdSet(names: seq<Name>, scope: Scope, domain: Name): set<Id> {
    if names == [] then {} else IdSet(names[..|names| - 1], scope, domain) + {Id(scope, domain, names[|names| - 1])}
  }

  lemma {:induction false} IdSetMembers(names: seq<Name>, scope: Scope, domain: Name)
    ensures forall id :: id in IdSet(names, scope, domain) <==> (id.scope == scope && id.domain == domain && id.item in names)
  {
    if names != [] {
      var n := |names| - 1;
      IdSetMembers(names[..n], scope, domain);
      assert names == names[..n] + [names[n]];
    }
  }

  lemma {:induction false} IdSetSize(names: seq<Name>, scope: Scope, domain: Name)
    requires Ascending(names)
    ensures |IdSet(names, scope, domain)| == |names|
  {
    hide Less;
    if names != [] {
      var n := |names| - 1;
      IdSetSize(names[..n], scope, domain);
      IdSetMembers(names[..n], scope, domain);
      forall i | 0 <= i < n ensures names[i] != names[n] {
        LessAsymmetric(names[i], names[n]);
      }
    }
  }
}
