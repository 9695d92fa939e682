/**
 The stores behind NvlModel: the per-connection association lists and the
 handlers of server.go on top of the registry. One request is one step; the
 locks are not released between its lookups and deletions.
 */
module NvlService {
  import opened Results
  import opened Names
  import opened NameTable
  import opened ServerModel
  import M = NvlModel

  /** numberMatched and numberDeleted of the response. */
  datatype Counts = Counts(matched: nat, deleted: nat)

  /** The association lists of one connection. */
  class AssocLists {
    var lists: map<Name, Entry>
    var order: seq<Name>

    ghost predicate Valid()
      reads this
    {
      && Ascending(order)
      && (forall x :: x in order <==> x in lists)
    }

    method Define(e: Entry) returns (ok: bool)
      requires Valid()
      modifies this
      ensures Valid()
      ensures ok <==> e.id.item !in old(lists)
      ensures lists == if ok then old(lists)[e.id.item := e] else old(lists)
    {
      hide Ascending;
      if e.id.item in lists {
        return false;
      }
      order := InsertSorted(order, e.id.item);
      lists := lists[e.id.item := e];
      ok := true;
    }

    method Delete(item: Name) returns (ok: bool)
      requires Valid()
      modifies this
      ensures Valid()
      ensures ok <==> item in old(lists) && old(lists)[item].deletable
      ensures lists == if ok then old(lists) - {item} else old(lists)
    {
      hide Ascending;
      if item !in lists || !lists[item].deletable {
        return false;
      }
      order := RemoveFromSorted(order, item);
      lists := lists - {item};
      ok := true;
    }

    /** deleteAllAssocNVLs. */
    method DeleteAll() returns (matched: nat, deleted: nat)
      requires Valid()
      modifies this
      ensures Valid()
      ensures matched == |old(lists)| && deleted == |M.DeletableOf(old(lists))|
      ensures lists == if deleted > 0 then map[] else old(lists)
    {
      matched, deleted := CountDeletable(lists);
      if deleted > 0 {
        lists, order := map[], [];
      }
    }
  }

  /** The counting loop over the map, in whatever order. */
  method CountDeletable(lists: map<Name, Entry>) returns (matched: nat, deleted: nat)
    ensures matched == |lists|
    ensures deleted == |M.DeletableOf(lists)|
  {
    matched, deleted := 0, 0;
    var rest := lists.Keys;
    ghost var seen: set<Name> := {};
    while rest != {}
      invariant seen !! rest && seen + rest == lists.Keys
      invariant matched == |seen|
      invariant deleted == |seen * M.DeletableOf(lists)|
      decreases |rest|
    {
      var x :| x in rest;
      matched := matched + 1;
      if lists[x].deletable {
        deleted := deleted + 1;
        assert (seen + {x}) * M.DeletableOf(lists) == seen * M.DeletableOf(lists) + {x};
      } else {
        assert (seen + {x}) * M.DeletableOf(lists) == seen * M.DeletableOf(lists);
      }
      rest, seen := rest - {x}, seen + {x};
    }
    assert seen * M.DeletableOf(lists) == M.DeletableOf(lists);
  }

  /** The lists a request on this connection can reach. */
  ghost function View(r: Registry, conn: AssocLists?): M.Lists
    reads r, r.nvls, conn
  {
    M.Lists(r.nvls.model, if conn == null then None else Some(conn.lists))
  }

  ghost predicate Ready(r: Registry, conn: AssocLists?)
    reads r, r.vars, r.nvls, conn
  {
    r.Valid() && (conn != null ==> conn.Valid())
  }

  /** handleDefineNVL. */
  method HandleDefine(r: Registry, conn: AssocLists?, id: Id, payload: nat) returns (ok: bool)
    requires Ready(r, conn)
    requires id.scope == Vmd ==> id.domain == []
    modifies r.nvls, conn
    ensures Ready(r, conn)
    ensures ok == M.HandleDefine(old(View(r, conn)), r.domains, id, payload).Some?
    ensures View(r, conn) == if ok then M.HandleDefine(old(View(r, conn)), r.domains, id, payload).value else old(View(r, conn))
  {
    hide Registry.Valid, AssocLists.Valid;
    var entry := Entry(id, true, payload);
    if id.scope == Association {
      if conn == null {
        return false;
      }
      ok := conn.Define(entry);
    } else {
      ok := r.DefineNVL(entry);
    }
  }

  /** handleDeleteNVL; by PlainItems every request is unambiguous when no stored list name has a slash. */
  method HandleDelete(r: Registry, conn: AssocLists?, req: M.DeleteRequest) returns (result: Result<Counts>)
    requires Ready(r, conn)
    requires req.scopeOfDelete == 0 ==> forall i :: 0 <= i < |req.names| ==> Unambiguous(r.nvls.model, req.names[i])
    modifies r.nvls, conn
    ensures Ready(r, conn)
    ensures result.Ok? == M.HandleDelete(old(View(r, conn)), req).Ok?
    ensures result.Ok? ==>
              && result.value.matched == M.HandleDelete(old(View(r, conn)), req).value.matched
              && result.value.deleted == M.HandleDelete(old(View(r, conn)), req).value.deleted
              && View(r, conn) == M.HandleDelete(old(View(r, conn)), req).value.lists
    ensures result.Err? ==> View(r, conn) == old(View(r, conn))
  {
    hide Registry.Valid, AssocLists.Valid;
    var matched, deleted := 0, 0;
    if req.scopeOfDelete == 0 {
      matched, deleted := DeleteNamed(r, conn, req.names);
    } else if req.scopeOfDelete == 1 {
      if conn == null {
        return Err;
      }
      matched, deleted := conn.DeleteAll();
    } else if req.scopeOfDelete == 2 {
      if req.domain == [] {
        return Err;
      }
      matched, deleted := DeleteShared(r, conn, Domain, req.domain);
    } else if req.scopeOfDelete == 3 {
      matched, deleted := DeleteShared(r, conn, Vmd, []);
    } else {
      return Err;
    }
    return Ok(Counts(matched, deleted));
  }

  method DeleteShared(r: Registry, conn: AssocLists?, scope: Scope, domain: Name) returns (matched: nat, deleted: nat)
    requires Ready(r, conn)
    requires scope != Association && (scope == Vmd ==> domain == [])
    modifies r.nvls
    ensures Ready(r, conn)
    ensures M.Outcome(View(r, conn), matched, deleted) == M.DeleteIn(old(View(r, conn)), scope, domain)
  {
    hide Registry.Valid, AssocLists.Valid;
    r.OrderCounts(scope, domain);
    M.SharedDrop(View(r, conn), scope, domain);
    matched, deleted := r.DeleteAllNVLs(scope, domain);
  }

  /** The loop over specific list names. */
  method DeleteNamed(r: Registry, conn: AssocLists?, names: seq<Id>) returns (matched: nat, deleted: nat)
    requires Ready(r, conn)
    requires forall i :: 0 <= i < |names| ==> Unambiguous(r.nvls.model, names[i])
    modifies r.nvls, conn
    ensures Ready(r, conn)
    ensures M.Outcome(View(r, conn), matched, deleted) == M.DeleteNamed(M.Outcome(old(View(r, conn)), 0, 0), names)
  {
    hide Ready, M.DeleteOne, Covers;
    matched, deleted := 0, 0;
    ghost var start := M.Outcome(View(r, conn), 0, 0);
    for i := 0 to |names|
      invariant Ready(r, conn)
      invariant forall k :: 0 <= k < |names| ==> Unambiguous(r.nvls.model, names[k])
      invariant M.Outcome(View(r, conn), matched, deleted) == M.DeleteNamed(start, names[..i])
    {
      assert names[..i + 1][..i] == names[..i];
      matched, deleted := DeleteOne(r, conn, names[i], matched, deleted);
    }
    assert names[..|names|] == names;
  }

  method DeleteOne(r: Registry, conn: AssocLists?, n: Id, m: nat, d: nat) returns (matched: nat, deleted: nat)
    requires Ready(r, conn)
    requires Unambiguous(r.nvls.model, n)
    modifies r.nvls, conn
    ensures Ready(r, conn)
    ensures r.nvls.model.Keys <= old(r.nvls.model.Keys)
    ensures M.Outcome(View(r, conn), matched, deleted) == M.DeleteOne(M.Outcome(old(View(r, conn)), m, d), n)
  {
    hide Registry.Valid, AssocLists.Valid;
    matched, deleted := m, d;
    if n.scope == Association {
      if conn != null && n.item in conn.lists {
        matched := matched + 1;
        var ok := conn.Delete(n.item);
        if ok {
          deleted := deleted + 1;
        }
      }
    } else {
      var entry := r.LookupNVL(n);
      if entry.Some? {
        matched := matched + 1;
        var ok := r.DeleteNVL(n);
        if ok {
          deleted := deleted + 1;
        }
      }
    }
  }
}
