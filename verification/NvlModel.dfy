/**
 Definition and deletion of named variable lists (server.go): what each
 request does to the shared and association lists, and what the counters of
 the responses add up to over a whole run of a server and its connections.
 */
module NvlModel {
  import opened Results
  import opened Names
  import opened NameTable

  /** The shared lists, and those of the association if there is one. */
  datatype Lists = Lists(shared: map<Id, Entry>, assoc: Option<map<Name, Entry>>)

  datatype Outcome = Outcome(lists: Lists, matched: nat, deleted: nat)

  datatype DeleteRequest = DeleteRequest(scopeOfDelete: int, names: seq<Id>, domain: Name)

  datatype Request = Define(id: Id, payload: nat) | Delete(req: DeleteRequest)

  ghost function Size(l: Lists): nat {
    |l.shared| + if l.assoc.Some? then |l.assoc.value| else 0
  }

  function Find(l: Lists, n: Id): (r: Option<Entry>) {
    if n.scope == Association then
      if l.assoc.Some? && n.item in l.assoc.value then Some(l.assoc.value[n.item]) else None
    else if n in l.shared then Some(l.shared[n]) else None
  }

  function Remove(l: Lists, n: Id): Lists
    requires Find(l, n).Some?
  {
    if n.scope == Association then l.(assoc := Some(l.assoc.value - {n.item})) else l.(shared := l.shared - {n})
  }

  // ----- deletion

  function DeleteOne(o: Outcome, n: Id): Outcome
  {
    match Find(o.lists, n)
    case None => o
    case Some(e) =>
      if e.deletable then Outcome(Remove(o.lists, n), o.matched + 1, o.deleted + 1)
      else o.(matched := o.matched + 1)
  }

  /** Scope 0: the names in order, each looked up in what the earlier ones left. */
  function DeleteNamed(o: Outcome, names: seq<Id>): Outcome
  {
    if names == [] then o else DeleteOne(DeleteNamed(o, names[..|names| - 1]), names[|names| - 1])
  }

  ghost function Matching(m: map<Id, Entry>, scope: Scope, domain: Name): set<Id> {
    set id | id in m && id.scope == scope && id.domain == domain
  }

  ghost function DeletableOf<K>(m: map<K, Entry>): set<K> {
    set k | k in m && m[k].deletable
  }

  /** Scopes 2 and 3. */
  ghost function DeleteIn(l: Lists, scope: Scope, domain: Name): Outcome {
    Outcome(l.(shared := Survivors(l.shared, scope, domain)),
            |Matching(l.shared, scope, domain)|,
            |Matching(l.shared, scope, domain) * DeletableOf(l.shared)|)
  }

  /** Scope 1: everything goes as soon as one list is deletable. */
  ghost function ClearAssoc(l: Lists): Outcome
    requires l.assoc.Some?
  {
    var d := |DeletableOf(l.assoc.value)|;
    Outcome(if d > 0 then l.(assoc := Some(map[])) else l, |l.assoc.value|, d)
  }

  ghost function HandleDelete(l: Lists, req: DeleteRequest): (r: Result<Outcome>)
  {
    if req.scopeOfDelete == 0 then Ok(DeleteNamed(Outcome(l, 0, 0), req.names))
    else if req.scopeOfDelete == 1 then (if l.assoc.None? then Err else Ok(ClearAssoc(l)))
    else if req.scopeOfDelete == 2 then (if req.domain == [] then Err else Ok(DeleteIn(l, Domain, req.domain)))
    else if req.scopeOfDelete == 3 then Ok(DeleteIn(l, Vmd, []))
    else Err
  }

  // ----- what a deletion keeps and counts

  /** Nothing new, and nothing gone that was not deletable. */
  ghost predicate OnlyDeletableGone<K(!new)>(before: map<K, Entry>, after: map<K, Entry>) {
    && (forall k :: k in after ==> k in before && after[k] == before[k])
    && (forall k :: k in before && !before[k].deletable ==> k in after)
  }

  ghost predicate Shrinks(before: Lists, after: Lists) {
    && OnlyDeletableGone(before.shared, after.shared)
    && before.assoc.Some? == after.assoc.Some?
    && (before.assoc.Some? ==> OnlyDeletableGone(before.assoc.value, after.assoc.value))
  }

  /** What requests alone can put into the association lists. */
  ghost predicate AssocDeletable(l: Lists) {
    ConnDeletable(l.assoc)
  }

  ghost predicate ConnDeletable(c: Option<map<Name, Entry>>) {
    c.Some? ==> forall x :: x in c.value ==> c.value[x].deletable
  }

  /** The counters of an outcome are right for what happened to the lists. */
  ghost predicate Accounts(before: Lists, o: Outcome) {
    && Shrinks(before, o.lists)
    && o.deleted == Size(before) - Size(o.lists)
    && o.deleted <= o.matched
  }

  lemma DropOneKey<K(!new)>(m: map<K, Entry>, k: K)
    requires k in m && m[k].deletable
    ensures |m - {k}| == |m| - 1
    ensures OnlyDeletableGone(m, m - {k})
  {
    DropOne(m, k);
  }

  lemma GoneTransitive<K(!new)>(a: map<K, Entry>, b: map<K, Entry>, c: map<K, Entry>)
    requires OnlyDeletableGone(a, b) && OnlyDeletableGone(b, c)
    ensures OnlyDeletableGone(a, c)
  {
  }

  lemma DeleteOneAccounts(l: Lists, o: Outcome, n: Id)
    requires Accounts(l, o)
    ensures Accounts(l, DeleteOne(o, n))
  {
    hide OnlyDeletableGone;
    if Find(o.lists, n).Some? && Find(o.lists, n).value.deletable {
      if n.scope == Association {
        DropOneKey(o.lists.assoc.value, n.item);
        GoneTransitive(l.assoc.value, o.lists.assoc.value, o.lists.assoc.value - {n.item});
      } else {
        DropOneKey(o.lists.shared, n);
        GoneTransitive(l.shared, o.lists.shared, o.lists.shared - {n});
      }
    }
  }

  lemma {:induction false} DeleteNamedAccounts(l: Lists, names: seq<Id>)
    ensures Accounts(l, DeleteNamed(Outcome(l, 0, 0), names))
  {
    if names != [] {
      DeleteNamedAccounts(l, names[..|names| - 1]);
      DeleteOneAccounts(l, DeleteNamed(Outcome(l, 0, 0), names[..|names| - 1]), names[|names| - 1]);
    }
  }

  lemma SubsetSize<T>(a: set<T>, b: set<T>)
    requires a <= b
    ensures |a| <= |b|
    ensures |a| == |b| <==> a == b
  {
    assert b == a + (b - a);
  }

  lemma SharedDrop(l: Lists, scope: Scope, domain: Name)
    ensures |Matching(l.shared, scope, domain) * DeletableOf(l.shared)| == |l.shared| - |Survivors(l.shared, scope, domain)|
  {
    var gone := Matching(l.shared, scope, domain) * DeletableOf(l.shared);
    assert Survivors(l.shared, scope, domain).Keys == l.shared.Keys - gone;
    assert gone <= l.shared.Keys;
  }

  lemma DeleteInAccounts(l: Lists, scope: Scope, domain: Name)
    ensures Accounts(l, DeleteIn(l, scope, domain))
  {
    SharedDrop(l, scope, domain);
    SubsetSize(Matching(l.shared, scope, domain) * DeletableOf(l.shared), Matching(l.shared, scope, domain));
  }

  lemma AllDeletableCounted(m: map<Name, Entry>)
    ensures |DeletableOf(m)| <= |m|
    ensures |DeletableOf(m)| == |m| <==> forall x :: x in m ==> m[x].deletable
    ensures |m| == 0 ==> m == map[]
  {
    SubsetSize(DeletableOf(m), m.Keys);
    assert DeletableOf(m) == m.Keys <==> forall x :: x in m ==> m[x].deletable;
  }

  /** The clear-all counts correctly exactly when its lists are all deletable or none of them is. */
  lemma ClearAssocAccounts(l: Lists)
    requires l.assoc.Some?
    ensures Accounts(l, ClearAssoc(l)) <==> (AssocDeletable(l) || DeletableOf(l.assoc.value) == {})
  {
    AllDeletableCounted(l.assoc.value);
    assert DeletableOf(l.assoc.value) == {} <==> |DeletableOf(l.assoc.value)| == 0;
  }

  /** A list that must not be deleted is dropped, uncounted, along with a deletable one. */
  lemma ClearAssocDropsUndeletable(a: Name, b: Name)
    requires a != b
    ensures var e, f := Entry(Id(Association, [], a), true, 0), Entry(Id(Association, [], b), false, 0);
            ClearAssoc(Lists(map[], Some(map[a := e, b := f]))) == Outcome(Lists(map[], Some(map[])), 2, 1)
  {
    var e, f := Entry(Id(Association, [], a), true, 0), Entry(Id(Association, [], b), false, 0);
    var m := map[a := e, b := f];
    assert DeletableOf(m) == {a};
    assert m.Keys == {a, b};
  }

  /** For every request: NumberDeleted is the drop in stored lists, at most NumberMatched, and no undeletable list goes. */
  lemma DeleteAccounting(l: Lists, req: DeleteRequest)
    requires AssocDeletable(l)
    requires HandleDelete(l, req).Ok?
    ensures Accounts(l, HandleDelete(l, req).value)
    ensures AssocDeletable(HandleDelete(l, req).value.lists)
  {
    if req.scopeOfDelete == 0 {
      DeleteNamedAccounts(l, req.names);
    } else if req.scopeOfDelete == 1 {
      ClearAssocAccounts(l);
    } else {
      DeleteInAccounts(l, if req.scopeOfDelete == 2 then Domain else Vmd, if req.scopeOfDelete == 2 then req.domain else []);
    }
  }

  // ----- definition

  /** handleDefineNVL: the entry is always deletable; existing lists and unknown domains are refused. */
  function HandleDefine(l: Lists, domains: set<Name>, id: Id, payload: nat): (r: Option<Lists>)
  {
    var e := Entry(id, true, payload);
    if id.scope == Association then
      if l.assoc.None? || id.item in l.assoc.value then None
      else Some(l.(assoc := Some(l.assoc.value[id.item := e])))
    else if id.item == [] || (id.scope == Domain && id.domain !in domains) || id in l.shared then None
    else Some(l.(shared := l.shared[id := e]))
  }

  lemma AddOne<K, V>(m: map<K, V>, k: K, v: V)
    requires k !in m
    ensures |m[k := v]| == |m| + 1
  {
    assert m[k := v].Keys == m.Keys + {k};
  }

  lemma DefineAccounting(l: Lists, domains: set<Name>, id: Id, payload: nat)
    requires AssocDeletable(l)
    requires HandleDefine(l, domains, id, payload).Some?
    ensures var after := HandleDefine(l, domains, id, payload).value;
            && AssocDeletable(after) && Size(after) == Size(l) + 1
            && (forall k :: k in l.shared ==> k in after.shared && after.shared[k] == l.shared[k])
  {
    var e := Entry(id, true, payload);
    if id.scope == Association {
      AddOne(l.assoc.value, id.item, e);
    } else {
      AddOne(l.shared, id, e);
    }
  }

  // ----- whole runs

  /**
   The server with all its associations: connection k has association lists while it is open.
   The counters record what was defined by requests, registered by the server, reported as
   deleted, and dropped with a closing connection.
   */
  datatype World = World(
    shared: map<Id, Entry>, domains: set<Name>, conns: seq<Option<map<Name, Entry>>>,
    defined: nat, registered: nat, reported: nat, dropped: nat)

  datatype Event =
    | Connect
    | Disconnect(conn: nat)
    | RegisterDomain(name: Name)
    | RegisterList(entry: Entry)
    | Ask(conn: nat, request: Request)

  predicate IsOpen(w: World, k: nat) {
    k < |w.conns| && w.conns[k].Some?
  }

  function View(w: World, k: nat): Lists
    requires k < |w.conns|
  {
    Lists(w.shared, w.conns[k])
  }

  function Put(w: World, k: nat, l: Lists): World
    requires k < |w.conns|
  {
    w.(shared := l.shared, conns := w.conns[k := l.assoc])
  }

  /** One request on one connection; failed requests change nothing. */
  ghost function Answer(w: World, k: nat, request: Request): World
    requires IsOpen(w, k)
  {
    match request
    case Define(id, payload) =>
      var l := HandleDefine(View(w, k), w.domains, id, payload);
      if l.None? then w else Put(w, k, l.value).(defined := w.defined + 1)
    case Delete(req) =>
      var o := HandleDelete(View(w, k), req);
      if o.Err? then w else Put(w, k, o.value.lists).(reported := w.reported + o.value.deleted)
  }

  /** The registry's DefineNVL, called by the server itself: deletable or not. */
  predicate MayRegister(w: World, e: Entry) {
    e.id.item != [] && (e.id.scope == Domain ==> e.id.domain in w.domains) && e.id !in w.shared
  }

  ghost function Step(w: World, event: Event): World {
    match event
    case Connect => w.(conns := w.conns + [Some(map[])])
    case Disconnect(k) =>
      if IsOpen(w, k) then w.(conns := w.conns[k := None], dropped := w.dropped + |w.conns[k].value|) else w
    case RegisterDomain(name) => if name == [] then w else w.(domains := w.domains + {name})
    case RegisterList(e) =>
      if MayRegister(w, e) then w.(shared := w.shared[e.id := e], registered := w.registered + 1) else w
    case Ask(k, request) => if IsOpen(w, k) then Answer(w, k, request) else w
  }

  ghost function Run(w: World, events: seq<Event>): World {
    if events == [] then w else Step(Run(w, events[..|events| - 1]), events[|events| - 1])
  }

  ghost function ConnSize(c: Option<map<Name, Entry>>): nat {
    if c.Some? then |c.value| else 0
  }

  ghost function Total(conns: seq<Option<map<Name, Entry>>>): nat {
    if conns == [] then 0 else Total(conns[..|conns| - 1]) + ConnSize(conns[|conns| - 1])
  }

  lemma {:induction false} TotalUpdate(conns: seq<Option<map<Name, Entry>>>, k: nat, c: Option<map<Name, Entry>>)
    requires k < |conns|
    ensures Total(conns[k := c]) == Total(conns) - ConnSize(conns[k]) + ConnSize(c)
  {
    var n := |conns| - 1;
    if k == n {
      assert conns[k := c][..n] == conns[..n];
    } else {
      assert conns[k := c][..n] == conns[..n][k := c];
      TotalUpdate(conns[..n], k, c);
    }
  }

  lemma TotalMore(conns: seq<Option<map<Name, Entry>>>, c: Option<map<Name, Entry>>)
    ensures Total(conns + [c]) == Total(conns) + ConnSize(c)
  {
    assert (conns + [c])[..|conns|] == conns;
  }

  /** Association lists only come from requests, so all of them are deletable. */
  ghost predicate AllDeletable(w: World) {
    forall k :: 0 <= k < |w.conns| ==> ConnDeletable(w.conns[k])
  }

  /** Lists stored, less those that came in, plus those that went out. */
  ghost function Balance(w: World): int {
    |w.shared| + Total(w.conns) + w.reported + w.dropped - w.defined - w.registered
  }

  ghost predicate UndeletableStay(before: World, after: World) {
    forall k :: k in before.shared && !before.shared[k].deletable ==> k in after.shared && after.shared[k] == before.shared[k]
  }

  lemma AnswerConserves(w: World, k: nat, request: Request)
    requires AllDeletable(w) && IsOpen(w, k)
    ensures var after := Answer(w, k, request);
            AllDeletable(after) && Balance(after) == Balance(w) && UndeletableStay(w, after)
  {
    hide HandleDelete, HandleDefine, ConnDeletable, Total;
    assert AssocDeletable(View(w, k));
    match request
    case Define(id, payload) =>
      var l := HandleDefine(View(w, k), w.domains, id, payload);
      if l.Some? {
        DefineAccounting(View(w, k), w.domains, id, payload);
        PutConserves(w, k, l.value);
      }
    case Delete(req) =>
      var o := HandleDelete(View(w, k), req);
      if o.Ok? {
        DeleteAccounting(View(w, k), req);
        PutConserves(w, k, o.value.lists);
      }
  }

  lemma PutConserves(w: World, k: nat, l: Lists)
    requires AllDeletable(w) && k < |w.conns| && AssocDeletable(l)
    ensures AllDeletable(Put(w, k, l))
    ensures |l.shared| + Total(Put(w, k, l).conns) == |w.shared| + Total(w.conns) - Size(View(w, k)) + Size(l)
  {
    hide ConnDeletable;
    TotalUpdate(w.conns, k, l.assoc);
  }

  lemma StepConserves(w: World, event: Event)
    requires AllDeletable(w)
    ensures AllDeletable(Step(w, event)) && Balance(Step(w, event)) == Balance(w) && UndeletableStay(w, Step(w, event))
  {
    hide Answer, Total;
    match event
    case Connect => TotalMore(w.conns, Some(map[]));
    case Disconnect(k) =>
      if IsOpen(w, k) {
        TotalUpdate(w.conns, k, None);
      }
    case RegisterDomain(_) =>
    case RegisterList(e) =>
      if MayRegister(w, e) {
        AddOne(w.shared, e.id, e);
      }
    case Ask(k, request) =>
      if IsOpen(w, k) {
        AnswerConserves(w, k, request);
      }
  }

  /**
   Over every run of a server, its requests on all connections interleaved with connects,
   disconnects and registrations: every list that came in is stored, was reported deleted,
   or went with its association; and no undeletable list that was ever registered is gone.
   */
  lemma {:induction false} RunConserves(w: World, events: seq<Event>)
    requires AllDeletable(w)
    ensures AllDeletable(Run(w, events)) && Balance(Run(w, events)) == Balance(w) && UndeletableStay(w, Run(w, events))
  {
    hide Step, Balance, AllDeletable;
    if events != [] {
      RunConserves(w, events[..|events| - 1]);
      StepConserves(Run(w, events[..|events| - 1]), events[|events| - 1]);
    }
  }

  /** A list the server registers as undeletable at any point of a run is there at its end. */
  lemma RegisteredStays(w: World, before: seq<Event>, e: Entry, after: seq<Event>)
    requires AllDeletable(w) && !e.deletable && MayRegister(Run(w, before), e)
    ensures var last := Run(Run(w, before + [RegisterList(e)]), after);
            e.id in last.shared && last.shared[e.id] == e
  {
    RunConserves(w, before + [RegisterList(e)]);
    assert (before + [RegisterList(e)])[..|before|] == before;
    RunConserves(Run(w, before + [RegisterList(e)]), after);
  }
}
