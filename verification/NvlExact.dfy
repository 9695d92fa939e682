/**
 Exactly which named variable lists a request defines or deletes, and what it
 counts (server.go: handleDefineNVL, handleDeleteNVL), said of the stored lists
 before and after.
 */
module NvlExact {
  import opened Results
  import opened Names
  import opened NameTable
  import opened NvlModel

  // ----- specific list names

  predicate NamesShared(names: seq<Id>, id: Id) {
    id.scope != Association && id in names
  }

  predicate NamesAssoc(names: seq<Id>, item: Name) {
    exists n :: n in names && n.scope == Association && n.item == item
  }

  /** Of the lists that were there, exactly the deletable ones that were named are gone. */
  ghost predicate NamedGone(l: Lists, names: seq<Id>, after: Lists) {
    && (forall id :: id in after.shared <==> id in l.shared && !(l.shared[id].deletable && NamesShared(names, id)))
    && (forall id :: id in after.shared ==> after.shared[id] == l.shared[id])
    && after.assoc.Some? == l.assoc.Some?
    && (l.assoc.Some? ==>
          && (forall x :: x in after.assoc.value <==> x in l.assoc.value && !(l.assoc.value[x].deletable && NamesAssoc(names, x)))
          && (forall x :: x in after.assoc.value ==> after.assoc.value[x] == l.assoc.value[x]))
  }

  /** n names a stored list that must not be deleted. */
  predicate Protected(l: Lists, n: Id) {
    if n.scope == Association then l.assoc.Some? && n.item in l.assoc.value && !l.assoc.value[n.item].deletable
    else n in l.shared && !l.shared[n].deletable
  }

  /** How many of the names are those of protected lists, repetitions included. */
  function CountProtected(l: Lists, names: seq<Id>): nat {
    if names == [] then 0
    else CountProtected(l, names[..|names| - 1]) + (if Protected(l, names[|names| - 1]) then 1 else 0)
  }

  lemma NamesGrow(names: seq<Id>, n: Id)
    ensures forall id :: NamesShared(names + [n], id) <==> NamesShared(names, id) || (id == n && n.scope != Association)
    ensures forall x :: NamesAssoc(names + [n], x) <==> NamesAssoc(names, x) || (n.scope == Association && x == n.item)
  {
    assert forall id :: id in names + [n] <==> id in names || id == n;
    forall x | NamesAssoc(names, x) ensures NamesAssoc(names + [n], x) {
      var m :| m in names && m.scope == Association && m.item == x;
      assert m in names + [n];
    }
    if n.scope == Association {
      assert n in names + [n];
      assert NamesAssoc(names + [n], n.item);
    }
  }

  lemma NamedStep(l: Lists, names: seq<Id>, o: Outcome, n: Id)
    requires NamedGone(l, names, o.lists)
    ensures NamedGone(l, names + [n], DeleteOne(o, n).lists)
    ensures DeleteOne(o, n).matched - DeleteOne(o, n).deleted == o.matched - o.deleted + (if Protected(l, n) then 1 else 0)
  {
    hide NamesShared, NamesAssoc;
    NamesGrow(names, n);
  }

  /**
   Deleting by name: exactly the named deletable lists go, as many are counted as deleted as are gone,
   and a name matches in addition exactly when its list is protected.
   */
  lemma {:induction false} DeleteNamedExactly(l: Lists, names: seq<Id>)
    ensures var o := DeleteNamed(Outcome(l, 0, 0), names);
            && NamedGone(l, names, o.lists)
            && o.deleted == Size(l) - Size(o.lists)
            && o.matched == o.deleted + CountProtected(l, names)
    decreases |names|
  {
    hide DeleteOne, NamedGone, Size, Protected;
    DeleteNamedAccounts(l, names);
    if names == [] {
      NothingGone(l);
    } else {
      var n, before := names[|names| - 1], names[..|names| - 1];
      DeleteNamedExactly(l, before);
      assert names == before + [n];
      NamedStep(l, before, DeleteNamed(Outcome(l, 0, 0), before), n);
    }
  }

  lemma NothingGone(l: Lists)
    ensures NamedGone(l, [], l)
  {
  }

  // ----- whole scopes

  /** Exactly the deletable shared lists of one scope and domain are gone. */
  ghost predicate ScopeGone(l: Lists, scope: Scope, domain: Name, after: Lists) {
    && (forall id :: id in after.shared <==> id in l.shared && !(l.shared[id].deletable && id.scope == scope && id.domain == domain))
    && (forall id :: id in after.shared ==> after.shared[id] == l.shared[id])
    && after.assoc == l.assoc
  }

  /** Which lists each scope of delete takes, and which requests are refused. */
  lemma ScopesExactly(l: Lists, req: DeleteRequest)
    ensures var r := HandleDelete(l, req);
            && (r.Err? <==> || req.scopeOfDelete !in {0, 1, 2, 3}
                            || (req.scopeOfDelete == 1 && l.assoc.None?)
                            || (req.scopeOfDelete == 2 && req.domain == []))
            && (r.Ok? && req.scopeOfDelete == 0 ==> NamedGone(l, req.names, r.value.lists))
            && (r.Ok? && req.scopeOfDelete == 2 ==> ScopeGone(l, Domain, req.domain, r.value.lists))
            && (r.Ok? && req.scopeOfDelete == 3 ==> ScopeGone(l, Vmd, [], r.value.lists))
            && (r.Ok? && req.scopeOfDelete == 1 ==>
                  && r.value.lists.shared == l.shared && r.value.matched == |l.assoc.value|
                  && r.value.lists.assoc ==
                     if exists x :: x in l.assoc.value && l.assoc.value[x].deletable then Some(map[]) else l.assoc)
            && (r.Ok? && req.scopeOfDelete in {2, 3} ==>
                  r.value.matched ==
                  |set id | id in l.shared && id.scope == (if req.scopeOfDelete == 2 then Domain else Vmd)
                            && id.domain == (if req.scopeOfDelete == 2 then req.domain else [])|)
  {
    hide NamedGone, DeleteNamed;
    if req.scopeOfDelete == 0 {
      DeleteNamedExactly(l, req.names);
    } else if req.scopeOfDelete == 1 && l.assoc.Some? {
      SomeDeletable(l.assoc.value);
    }
  }

  lemma SomeDeletable(m: map<Name, Entry>)
    ensures |DeletableOf(m)| > 0 <==> exists x :: x in m && m[x].deletable
  {
    if exists x :: x in m && m[x].deletable {
      var x :| x in m && m[x].deletable;
      assert x in DeletableOf(m);
    } else {
      assert DeletableOf(m) == {};
    }
  }

  // ----- definition

  /** A list is defined exactly when it has a place and its name is new there. */
  predicate MayDefine(l: Lists, domains: set<Name>, id: Id) {
    match id.scope
    case Association => l.assoc.Some? && id.item !in l.assoc.value
    case Domain => id.item != [] && id.domain in domains && id !in l.shared
    case Vmd => id.item != [] && id !in l.shared
  }

  /** The new list can be found, deletable and with its members, and every other list is as it was. */
  lemma DefineExactly(l: Lists, domains: set<Name>, id: Id, payload: nat, other: Id)
    ensures HandleDefine(l, domains, id, payload).Some? <==> MayDefine(l, domains, id)
    ensures MayDefine(l, domains, id) ==>
              var after := HandleDefine(l, domains, id, payload).value;
              && Find(after, id) == Some(Entry(id, true, payload))
              && (other.scope != id.scope || other.item != id.item || (id.scope != Association && other.domain != id.domain) ==>
                    Find(after, other) == Find(l, other))
  {
  }

  /** Deleting a list right after its definition leaves everything as it was, and counts one. */
  lemma DefineThenDelete(l: Lists, domains: set<Name>, id: Id, payload: nat)
    requires MayDefine(l, domains, id)
    ensures HandleDefine(l, domains, id, payload).Some?
    ensures HandleDelete(HandleDefine(l, domains, id, payload).value, DeleteRequest(0, [id], [])) == Ok(Outcome(l, 1, 1))
  {
    DefineExactly(l, domains, id, payload, id);
    var after := HandleDefine(l, domains, id, payload).value;
    var e := Entry(id, true, payload);
    assert [id][..0] == [];
    assert DeleteNamed(Outcome(after, 0, 0), [id]) == DeleteOne(DeleteNamed(Outcome(after, 0, 0), []), id);
    if id.scope == Association {
      assert l.assoc.value[id.item := e] - {id.item} == l.assoc.value;
    } else {
      assert l.shared[id := e] - {id} == l.shared;
    }
  }

  // ----- events of the whole server

  /** Connections other than k have the association lists they had. */
  predicate OthersKeep(w: World, k: nat, after: World) {
    && |after.conns| == |w.conns| && k < |w.conns|
    && forall j :: 0 <= j < |w.conns| && j != k ==> after.conns[j] == w.conns[j]
  }

  /** A request on an open connection sees the shared lists and its own association lists, and changes no other connection's. */
  lemma AskExactly(w: World, k: nat, request: Request)
    requires IsOpen(w, k)
    ensures var after := Step(w, Ask(k, request));
            && OthersKeep(w, k, after) && after.domains == w.domains
            && (request.Define? ==>
                  var l := HandleDefine(View(w, k), w.domains, request.id, request.payload);
                  View(after, k) == if l.Some? then l.value else View(w, k))
            && (request.Delete? ==>
                  var o := HandleDelete(View(w, k), request.req);
                  View(after, k) == if o.Ok? then o.value.lists else View(w, k))
  {
    hide HandleDefine, HandleDelete;
    if request.Delete? {
      AssocStays(View(w, k), request.req);
    }
  }

  lemma AssocStays(l: Lists, req: DeleteRequest)
    ensures HandleDelete(l, req).Ok? ==> HandleDelete(l, req).value.lists.assoc.Some? == l.assoc.Some?
  {
    if HandleDelete(l, req).Ok? && req.scopeOfDelete == 0 {
      DeleteNamedExactly(l, req.names);
    }
  }

  /** A connection starts without lists of its own, and its lists go with it; the shared lists stay. */
  lemma ConnectionsExactly(w: World, k: nat)
    ensures Step(w, Connect).conns == w.conns + [Some(map[])] && Step(w, Connect).shared == w.shared
    ensures IsOpen(w, k) ==>
              var after := Step(w, Disconnect(k));
              after.conns == w.conns[k := None] && after.shared == w.shared && after.domains == w.domains
  {
  }

  /** What the server registers itself is stored as it is, exactly when its domain exists and its name is new. */
  lemma RegistrationExactly(w: World, e: Entry, name: Name)
    ensures var stored := e.id.item != [] && (e.id.scope == Domain ==> e.id.domain in w.domains) && e.id !in w.shared;
            Step(w, RegisterList(e)).shared == if stored then w.shared[e.id := e] else w.shared
    ensures Step(w, RegisterList(e)).conns == w.conns
    ensures name != [] ==> Step(w, RegisterDomain(name)).domains == w.domains + {name}
    ensures Step(w, RegisterDomain(name)).shared == w.shared && Step(w, RegisterDomain(name)).conns == w.conns
  {
  }
}
