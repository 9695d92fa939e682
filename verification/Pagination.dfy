/**
 Listing names page by page: the server side of GetNameList (server.go:
 handleGetNameList), and the client's GetNameListAll (mms.go) running against
 a registry that changes between its pages. Listing and encoding one page is
 one step.
 */
module Pagination {
  import opened Bytes
  import opened Results
  import opened Names
  import opened FitList
  import W = NameListWire

  /** What the registry guarantees of an order slice at any time. */
  predicate Listing(s: seq<Name>) {
    Ascending(s) && [] !in s
  }

  /** A size the server can compute with. */
  const MAX_BUDGET := 0x7FFF_FFFF_FFFF_FFFF

  /** handleGetNameList: one page, shortened until its response fits. */
  function Respond(s: seq<Name>, token: Name, budget: int): (r: Result<seq<Byte>>)
  {
    var page := PageOf(s, token, 0);
    Fit(|page.names|, budget, PageEncoder(page))
  }

  function PageEncoder(page: Page): Encoder
  {
    (k: nat, truncated: bool) =>
      if k <= |page.names| then Ok(W.Marshal(Page(page.names[..k], truncated || page.more))) else Err
  }

  method HandleGetNameList(s: seq<Name>, token: Name, budget: int) returns (r: Result<seq<Byte>>)
    requires Ascending(s)
    ensures r == Respond(s, token, budget)
    ensures r.Ok? ==> |r.value| <= budget
  {
    var page := Paginate(s, token, 0);
    EncoderMonotone(page);
    r := SearchFit(|page.names|, budget, PageEncoder(page));
  }

  lemma EncoderMonotone(page: Page)
    ensures Monotone(|page.names|, PageEncoder(page))
  {
    var encode := PageEncoder(page);
    forall j, k | 0 <= j <= k <= |page.names|
      ensures |encode(j, true).value| <= |encode(k, true).value|
    {
      W.MarshalMonotone(page.names, j, k);
    }
  }

  /** The page a client decodes: a prefix of the names above the token, non-empty unless it is all of them. */
  ghost predicate PageOfRest(s: seq<Name>, token: Name, page: Page) {
    && page.names <= Above(s, token)
    && (if page.more then page.names != [] else page.names == Above(s, token))
  }

  /** What the client decodes, if it accepts the names, is a page of the rest; otherwise the request fails. */
  lemma ResponseIsPage(s: seq<Name>, token: Name, budget: int)
    requires Ascending(s) && budget <= MAX_BUDGET
    requires Respond(s, token, budget).Ok?
    ensures var r := W.Unmarshal(Respond(s, token, budget).value);
            && (r.Ok? ==> PageOfRest(s, token, r.value) && W.ShortNames(r.value.names))
            && (W.ShortNames(Above(s, token)) ==> r.Ok?)
  {
    hide Less, Above, W.Marshal, W.Unmarshal;
    var page := PageOf(s, token, 0);
    var n := |page.names|;
    var encode := PageEncoder(page);
    var full := encode(n, false);
    assert page.names[..n] == page.names;
    if |full.value| <= budget {
      SentPage(page, budget);
    } else {
      var k := LongestFit(Shorter(n), budget, encode).value;
      var cut := Page(page.names[..k], true);
      assert encode(k, true) == Ok(W.Marshal(cut));
      SentPage(cut, budget);
    }
  }

  /**
   A response is the whole page if that fits the budget, and otherwise the longest non-empty part of it that
   does, with more to follow; there is none exactly when not even one name of the page fits.
   */
  lemma ResponseIsLongest(s: seq<Name>, token: Name, budget: int)
    ensures var page, r := PageOf(s, token, 0), Respond(s, token, budget);
            var n := |page.names|;
            if |W.Marshal(page)| <= budget then r == Ok(W.Marshal(page))
            else if r.Err? then forall k :: 1 <= k < n ==> |W.Marshal(Page(page.names[..k], true))| > budget
            else exists k :: 1 <= k < n && r == Ok(W.Marshal(Page(page.names[..k], true))) && |r.value| <= budget
                             && forall j :: k < j < n ==> |W.Marshal(Page(page.names[..j], true))| > budget
  {
    hide W.Marshal, PageOf;
    var page := PageOf(s, token, 0);
    var n, encode := |page.names|, PageEncoder(page);
    assert page.names[..n] == page.names;
    assert encode(n, false) == Ok(W.Marshal(page));
    forall k | 1 <= k < n ensures Fits(k, budget, encode) <==> |W.Marshal(Page(page.names[..k], true))| <= budget {
    }
    if |W.Marshal(page)| > budget {
      var k := LongestFit(Shorter(n), budget, encode);
      if k.Some? {
        assert encode(k.value, true) == Ok(W.Marshal(Page(page.names[..k.value], true)));
      }
    }
  }

  lemma SentPage(page: Page, budget: int)
    requires |page.names| <= DEFAULT_PAGE && |W.Marshal(page)| <= budget <= MAX_BUDGET
    ensures W.Unmarshal(W.Marshal(page)) == if W.ShortNames(page.names) then Ok(page) else Err
  {
    hide W.Marshal, W.Unmarshal, W.Identifiers, W.ShortNames;
    W.MarshalLength(page);
    W.IdentifiersLength(page.names);
    Pow256Values();
    ByteCountLeast(|W.Identifiers(page.names)|, 8);
    W.NameListExact(page);
  }

  // ----- the client

  datatype ListResult =
    | Complete(names: seq<Name>, pages: nat)
    | Stalled
    | Failed
    | OutOfPages(names: seq<Name>)

  /** x lies above the token the run started with. */
  predicate Beyond(start: Name, x: Name) {
    start == [] || Less(start, x)
  }

  /** What a run has collected by the time it has read pages up to the token. */
  ghost predicate Collected(snaps: seq<seq<Name>>, start: Name, pages: nat, all: seq<Name>, token: Name)
    requires pages <= |snaps|
  {
    && Ascending(all)
    && (all == [] ==> token == start)
    && (all != [] ==> token == all[|all| - 1])
    && (forall x :: x in all ==> Beyond(start, x) && exists j :: 0 <= j < pages && x in snaps[j])
    && (forall x :: Beyond(start, x) && !Beyond(token, x) && (forall j :: 0 <= j < pages ==> x in snaps[j]) ==> x in all)
  }

  /** Every name that was there on all pages, and only names that were there on some page. */
  ghost predicate CompleteRun(snaps: seq<seq<Name>>, start: Name, pages: nat, all: seq<Name>)
    requires 1 <= pages <= |snaps|
  {
    && Ascending(all)
    && (forall x :: x in all ==> Beyond(start, x) && exists j :: 0 <= j < pages && x in snaps[j])
    && (forall x :: Beyond(start, x) && (forall j :: 0 <= j < pages ==> x in snaps[j]) ==> x in all)
  }

  lemma BeyondTransitive(a: Name, b: Name, c: Name)
    requires Beyond(a, b) && Beyond(b, c) && (b == [] ==> a == [])
    ensures Beyond(a, c)
  {
    if a != [] {
      LessTransitive(a, b, c);
    }
  }

  /** Names above the token are in the page or above its last name. */
  lemma PageCovers(s: seq<Name>, token: Name, page: Page, x: Name)
    requires Listing(s) && PageOfRest(s, token, page)
    requires x in s && Beyond(token, x)
    ensures x in page.names || (page.more && Beyond(page.names[|page.names| - 1], x))
  {
    hide Less, Above;
    var rest := Above(s, token);
    AboveMembers(s, token);
    AboveAscending(s, token);
    var i :| 0 <= i < |rest| && rest[i] == x;
    var n := |page.names|;
    if i < n {
      assert page.names[i] == x;
    } else {
      assert page.more && Less(rest[n - 1], rest[i]);
    }
  }

  lemma PageNames(s: seq<Name>, token: Name, page: Page)
    requires Listing(s) && PageOfRest(s, token, page)
    ensures Ascending(page.names)
    ensures forall x :: x in page.names ==> x in s && Beyond(token, x) && x != []
    ensures page.more ==> page.names != []
  {
    hide Less, Above;
    AboveMembers(s, token);
    AboveAscending(s, token);
    forall i | 0 <= i < |page.names| ensures page.names[i] in Above(s, token) {
      assert page.names[i] == Above(s, token)[i];
    }
  }

  /** Names read so far, all of them at most the token, followed by a page of names above it. */
  lemma AppendAscending(all: seq<Name>, more: seq<Name>, token: Name)
    requires Ascending(all) && Ascending(more)
    requires all != [] ==> token == all[|all| - 1] && token != []
    requires forall x :: x in more ==> Beyond(token, x)
    ensures Ascending(all + more)
  {
    hide Less;
    forall i, j | 0 <= i < |all| && 0 <= j < |more| ensures Less(all[i], more[j]) {
      assert more[j] in more;
      if i < |all| - 1 {
        LessTransitive(all[i], token, more[j]);
      }
    }
  }

  lemma CollectPage(snaps: seq<seq<Name>>, start: Name, i: nat, all: seq<Name>, token: Name, page: Page)
    requires i < |snaps| && Listing(snaps[i])
    requires Collected(snaps, start, i, all, token) && [] !in all
    requires PageOfRest(snaps[i], token, page)
    ensures [] !in all + page.names
    ensures page.names != [] ==>
              && Beyond(token, page.names[|page.names| - 1])
              && Collected(snaps, start, i + 1, all + page.names, page.names[|page.names| - 1])
    ensures !page.more ==> CompleteRun(snaps, start, i + 1, all + page.names)
  {
    hide Less, Above, PageOfRest;
    var now := all + page.names;
    PageNames(snaps[i], token, page);
    AppendAscending(all, page.names, token);
    forall x | x in now ensures Beyond(start, x) && exists j :: 0 <= j < i + 1 && x in snaps[j] {
      OnlySeen(snaps, start, i, all, token, page, x);
    }
    forall x | Beyond(start, x) && (forall j :: 0 <= j < i + 1 ==> x in snaps[j])
      ensures x in now || (page.more && Beyond(page.names[|page.names| - 1], x))
    {
      if Beyond(token, x) {
        PageCovers(snaps[i], token, page, x);
      }
    }
  }

  lemma OnlySeen(snaps: seq<seq<Name>>, start: Name, i: nat, all: seq<Name>, token: Name, page: Page, x: Name)
    requires i < |snaps| && Listing(snaps[i])
    requires Collected(snaps, start, i, all, token) && [] !in all
    requires PageOfRest(snaps[i], token, page)
    requires x in all + page.names
    ensures Beyond(start, x) && exists j :: 0 <= j < i + 1 && x in snaps[j]
  {
    hide Less, Above, PageOfRest;
    PageNames(snaps[i], token, page);
    if x !in all {
      if all != [] {
        assert token in all;
        BeyondTransitive(start, token, x);
      }
      assert x in snaps[i];
    }
  }

  /** One request and its decoded response. */
  method FetchPage(s: seq<Name>, token: Name, budget: int) returns (r: Result<Page>)
    requires Listing(s) && budget <= MAX_BUDGET
    ensures r.Ok? ==> PageOfRest(s, token, r.value) && W.ShortNames(r.value.names)
    ensures Respond(s, token, budget).Ok? && W.ShortNames(Above(s, token)) ==> r.Ok?
  {
    hide Respond, W.Unmarshal, PageOfRest, Less;
    var bytes := HandleGetNameList(s, token, budget);
    if bytes.Err? {
      return Err;
    }
    ResponseIsPage(s, token, budget);
    r := W.Unmarshal(bytes.value);
  }

  ghost predicate Static(snaps: seq<seq<Name>>, s: seq<Name>) {
    forall j :: 0 <= j < |snaps| ==> snaps[j] == s
  }

  /** Every single name fits a final page. */
  ghost predicate EachFits(s: seq<Name>, budget: int) {
    budget >= 5 && forall x :: x in s ==> |W.Marshal(Page([x], false))| <= budget
  }

  /**
   GetNameListAll against a registry that is snaps[j] when page j is listed.
   A run that returns is complete and exact for what was there throughout;
   the stall error never fires; and against an unchanging registry whose names
   fit a page, the run returns if and only if the client accepts all the names
   above the start token, and then it returns exactly those.
   */
  method GetNameListAll(snaps: seq<seq<Name>>, start: Name, budget: int) returns (r: ListResult)
    requires forall j :: 0 <= j < |snaps| ==> Listing(snaps[j])
    requires budget <= MAX_BUDGET
    ensures !r.Stalled?
    ensures r.Complete? ==> 1 <= r.pages <= |snaps| && CompleteRun(snaps, start, r.pages, r.names)
    ensures forall s :: Static(snaps, s) && r.Complete? ==> r.names == Above(s, start) && W.ShortNames(Above(s, start))
    ensures forall s :: Static(snaps, s) && EachFits(s, budget) && |snaps| > |s| && W.ShortNames(Above(s, start)) ==> r.Complete?
  {
    hide Less, Above, Listing, PageOfRest, CompleteRun, EachFits, Respond, W.ShortNames, Static, Collected;
    var all: seq<Name>, token := [], start;
    NothingCollected(snaps, start);
    for i := 0 to |snaps|
      invariant Collected(snaps, start, i, all, token) && [] !in all
      invariant |all| >= i && W.ShortNames(all)
      invariant forall s :: Static(snaps, s) ==> all + Above(s, token) == Above(s, start)
    {
      var result := FetchPage(snaps[i], token, budget);
      StaticPage(snaps, i, start, all, token, budget);
      if result.Err? {
        return Failed;
      }
      var page := result.value;
      PageNames(snaps[i], token, page);
      CollectPage(snaps, start, i, all, token, page);
      StaticRest(snaps, i, start, all, token, page);
      ShortParts(all, page.names);
      all := all + page.names;
      if !page.more || |page.names| == 0 {
        return Complete(all, i + 1);
      }
      var next := page.names[|page.names| - 1];
      LessIrreflexive(token);
      if next == token {
        return Stalled;
      }
      token := next;
    }
    StaticBound(snaps, start, all, token);
    r := OutOfPages(all);
  }

  lemma NothingCollected(snaps: seq<seq<Name>>, start: Name)
    ensures Collected(snaps, start, 0, [], start) && W.ShortNames([])
    ensures forall s :: [] + Above(s, start) == Above(s, start)
  {
    LessIrreflexive(start);
  }

  /** A page of an unchanging registry whose names fit and are accepted is never refused. */
  lemma StaticPage(snaps: seq<seq<Name>>, i: nat, start: Name, all: seq<Name>, token: Name, budget: int)
    requires i < |snaps| && Listing(snaps[i])
    requires forall s :: Static(snaps, s) ==> all + Above(s, token) == Above(s, start)
    ensures forall s :: Static(snaps, s) && EachFits(s, budget) && W.ShortNames(Above(s, start)) ==>
              Respond(snaps[i], token, budget).Ok? && W.ShortNames(Above(snaps[i], token))
  {
    hide Less, Respond, Above, EachFits;
    forall s | Static(snaps, s) && EachFits(s, budget) && W.ShortNames(Above(s, start))
      ensures Respond(snaps[i], token, budget).Ok? && W.ShortNames(Above(snaps[i], token))
    {
      RespondSucceeds(snaps[i], token, budget);
      ShortParts(all, Above(s, token));
    }
  }

  lemma ShortParts(a: seq<Name>, b: seq<Name>)
    ensures W.ShortNames(a + b) <==> W.ShortNames(a) && W.ShortNames(b)
  {
    if W.ShortNames(a + b) {
      assert forall i :: 0 <= i < |a| ==> a[i] == (a + b)[i];
      assert forall i :: 0 <= i < |b| ==> b[i] == (a + b)[|a| + i];
    }
  }

  lemma RespondSucceeds(s: seq<Name>, token: Name, budget: int)
    requires Listing(s) && EachFits(s, budget)
    ensures Respond(s, token, budget).Ok?
  {
    hide Less, Above, W.Marshal;
    var page := PageOf(s, token, 0);
    var encode := PageEncoder(page);
    var n := |page.names|;
    AboveMembers(s, token);
    assert page.names[..n] == page.names;
    if n == 0 {
      W.MarshalLength(page);
    } else {
      var x := page.names[0];
      assert x in Above(s, token);
      W.MarshalLength(Page([x], true));
      W.MarshalLength(Page([x], false));
      assert page.names[..1] == [x];
      assert encode(1, true) == Ok(W.Marshal(Page([x], true)));
      if n == 1 {
        assert encode(n, false) == Ok(W.Marshal(Page([x], page.more)));
      } else {
        assert Fits(1, budget, encode);
      }
    }
  }

  lemma StaticRest(snaps: seq<seq<Name>>, i: nat, start: Name, all: seq<Name>, token: Name, page: Page)
    requires i < |snaps| && Listing(snaps[i])
    requires PageOfRest(snaps[i], token, page)
    requires forall s :: Static(snaps, s) ==> all + Above(s, token) == Above(s, start)
    ensures !page.more ==> forall s :: Static(snaps, s) ==> all + page.names == Above(s, start)
    ensures page.names != [] ==>
              forall s :: Static(snaps, s) ==> all + page.names + Above(s, page.names[|page.names| - 1]) == Above(s, start)
  {
    hide Less, Above;
    if page.names != [] {
      forall s | Static(snaps, s)
        ensures all + page.names + Above(s, page.names[|page.names| - 1]) == Above(s, start)
      {
        assert s == snaps[i];
        var k := |page.names|;
        AboveRest(s, token, k);
        var rest := Above(s, token);
        assert rest == page.names + rest[k..];
        assert all + rest == all + page.names + rest[k..];
      }
    }
  }

  /** The names above the k-th name above a token are the rest of them. */
  lemma AboveRest(s: seq<Name>, token: Name, k: nat)
    requires Listing(s) && 1 <= k <= |Above(s, token)|
    ensures Above(s, Above(s, token)[k - 1]) == Above(s, token)[k..]
  {
    hide Less, Above;
    var rest := Above(s, token);
    var last := rest[k - 1];
    AboveMembers(s, token);
    AboveMembers(s, last);
    AboveAscending(s, token);
    AboveAscending(s, last);
    assert last in rest;
    forall x ensures x in Above(s, last) <==> x in rest[k..] {
      SplitAt(rest, k, x);
      if Less(last, x) && x in s {
        BeyondTransitive(token, last, x);
      }
    }
    AscendingUnique(Above(s, last), rest[k..]);
  }

  lemma SplitAt(rest: seq<Name>, k: nat, x: Name)
    requires Ascending(rest) && 1 <= k <= |rest|
    ensures x in rest[k..] <==> (x in rest && Less(rest[k - 1], x))
  {
    hide Less;
    if x in rest {
      var i :| 0 <= i < |rest| && rest[i] == x;
      if i < k - 1 {
        LessAsymmetric(rest[i], rest[k - 1]);
      } else if i == k - 1 {
        LessIrreflexive(x);
      } else {
        assert rest[k..][i - k] == x;
      }
    }
  }

  lemma StaticBound(snaps: seq<seq<Name>>, start: Name, all: seq<Name>, token: Name)
    requires forall s :: Static(snaps, s) ==> all + Above(s, token) == Above(s, start)
    requires |all| >= |snaps|
    ensures forall s :: Static(snaps, s) ==> |snaps| <= |s|
  {
    forall s | Static(snaps, s) ensures |snaps| <= |s| {
      assert |all + Above(s, token)| == |all| + |Above(s, token)|;
    }
  }
}
