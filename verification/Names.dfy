/**
 Names in ascending order: the order slices of the registry
 (internal/servermodel/order.go, internal/servermodel/registry.go).
 */
module Names {
  import opened Bytes

  type Name = seq<Byte>

  /** Go's string order: octet by octet, a prefix before its extensions. */
  predicate Less(a: Name, b: Name)
  {
    && b != []
    && (a == [] || a[0] < b[0] || (a[0] == b[0] && Less(a[1..], b[1..])))
  }

  predicate Ascending(s: seq<Name>) {
    forall i, j :: 0 <= i < j < |s| ==> Less(s[i], s[j])
  }

  /** a and b agree on k octets, and then a ends or has the smaller octet. */
  predicate Before(a: Name, b: Name, k: nat) {
    && k <= |a| && k < |b| && a[..k] == b[..k]
    && (k == |a| || a[k] < b[k])
  }

  /** In octet order: the first difference decides, and a prefix comes first. */
  ghost predicate Precedes(a: Name, b: Name) {
    exists k: nat :: Before(a, b, k)
  }

  lemma {:induction false} FirstDifference(a: Name, b: Name) returns (k: nat)
    requires Less(a, b)
    ensures Before(a, b, k)
  {
    if a == [] || a[0] < b[0] {
      k := 0;
    } else {
      var tail := FirstDifference(a[1..], b[1..]);
      BeforeTail(a, b, tail);
      k := tail + 1;
    }
  }

  lemma {:induction false} BeforeIsLess(a: Name, b: Name, k: nat)
    requires Before(a, b, k)
    ensures Less(a, b)
    decreases k
  {
    if k > 0 {
      assert a[..k][0] == b[..k][0];
      BeforeTail(a, b, k - 1);
      BeforeIsLess(a[1..], b[1..], k - 1);
    }
  }

  lemma BeforeTail(a: Name, b: Name, k: nat)
    requires a != [] && b != [] && a[0] == b[0]
    ensures Before(a[1..], b[1..], k) <==> Before(a, b, k + 1)
  {
    if k < |a| && k < |b| {
      assert a[..k + 1] == [a[0]] + a[1..][..k] && b[..k + 1] == [b[0]] + b[1..][..k];
      assert a[..k + 1][1..] == a[1..][..k] && b[..k + 1][1..] == b[1..][..k];
    }
  }

  /** The order of the registry is the octet order of Go strings. */
  lemma LessExactly(a: Name, b: Name)
    ensures Less(a, b) <==> Precedes(a, b)
  {
    if Less(a, b) {
      var k := FirstDifference(a, b);
    } else if Precedes(a, b) {
      var k: nat :| Before(a, b, k);
      BeforeIsLess(a, b, k);
    }
  }

  /** A list is ascending exactly when each name precedes the next one in octet order. */
  lemma AscendingExactly(s: seq<Name>)
    ensures Ascending(s) <==> forall i, j :: 0 <= i < j < |s| && j == i + 1 ==> Precedes(s[i], s[j])
  {
    hide Less, Precedes;
    forall i, j | 0 <= i < j < |s| && j == i + 1 ensures Less(s[i], s[j]) <==> Precedes(s[i], s[j]) {
      LessExactly(s[i], s[j]);
    }
    if forall i, j :: 0 <= i < j < |s| && j == i + 1 ==> Less(s[i], s[j]) {
      forall i, j | 0 <= i < j < |s| ensures Less(s[i], s[j]) {
        LessAlong(s, i, j);
      }
    }
  }

  lemma {:induction false} LessAlong(s: seq<Name>, i: nat, j: nat)
    requires forall k, l :: 0 <= k < l < |s| && l == k + 1 ==> Less(s[k], s[l])
    requires i < j < |s|
    ensures Less(s[i], s[j])
    decreases j
  {
    hide Less;
    if i + 1 < j {
      LessAlong(s, i, j - 1);
      LessTransitive(s[i], s[j - 1], s[j]);
    }
  }

  lemma {:induction false} LessTransitive(a: Name, b: Name, c: Name)
    requires Less(a, b) && Less(b, c)
    ensures Less(a, c)
  {
    if a != [] && a[0] == b[0] && b[0] == c[0] {
      LessTransitive(a[1..], b[1..], c[1..]);
    }
  }

  lemma {:induction false} LessIrreflexive(a: Name)
    ensures !Less(a, a)
  {
    if a != [] {
      LessIrreflexive(a[1..]);
    }
  }

  lemma LessAsymmetric(a: Name, b: Name)
    requires Less(a, b)
    ensures !Less(b, a) && a != b
  {
    LessIrreflexive(a);
    if Less(b, a) {
      LessTransitive(a, b, a);
    }
  }

  lemma {:induction false} LessTotal(a: Name, b: Name)
    ensures a == b || Less(a, b) || Less(b, a)
  {
    if a != [] && b != [] && a[0] == b[0] {
      LessTotal(a[1..], b[1..]);
      if a[1..] == b[1..] {
        assert a == [a[0]] + a[1..] && b == [b[0]] + b[1..];
      }
    }
  }

  /** An ascending list is determined by its elements. */
  lemma {:induction false} AscendingUnique(s: seq<Name>, t: seq<Name>)
    requires Ascending(s) && Ascending(t)
    requires forall x :: x in s <==> x in t
    ensures s == t
  {
    if s == [] {
      if t != [] {
        HeadIsMember(t);
      }
    } else {
      assert s[0] in t && t != [];
      assert t[0] in s;
      var i :| 0 <= i < |t| && t[i] == s[0];
      var j :| 0 <= j < |s| && s[j] == t[0];
      if i > 0 && j > 0 {
        LessAsymmetric(t[0], t[i]);
      }
      assert s[0] == t[0];
      forall x ensures x in s[1..] <==> x in t[1..] {
        HeadOnce(s, x);
        HeadOnce(t, x);
      }
      AscendingUnique(s[1..], t[1..]);
      assert s == [s[0]] + s[1..] && t == [t[0]] + t[1..];
    }
  }

  lemma HeadIsMember(s: seq<Name>)
    requires s != []
    ensures s[0] in s
  {
  }

  lemma HeadOnce(s: seq<Name>, x: Name)
    requires s != [] && Ascending(s)
    ensures x in s[1..] <==> (x in s && x != s[0])
  {
    if x in s[1..] {
      var k :| 0 <= k < |s[1..]| && s[1..][k] == x;
      LessAsymmetric(s[0], s[k + 1]);
    }
  }

  // ----- order.go

  /** slices.BinarySearch and sort.SearchStrings: the first position not below name. */
  method BinarySearch(s: seq<Name>, name: Name) returns (i: nat)
    requires Ascending(s)
    ensures i <= |s|
    ensures forall k :: 0 <= k < i ==> Less(s[k], name)
    ensures forall k :: i <= k < |s| ==> !Less(s[k], name)
  {
    i := 0;
    var j := |s|;
    while i < j
      invariant 0 <= i <= j <= |s|
      invariant forall k :: 0 <= k < i ==> Less(s[k], name)
      invariant forall k :: j <= k < |s| ==> !Less(s[k], name)
    {
      var h := (i + j) / 2;
      if Less(s[h], name) {
        forall k | 0 <= k < h ensures Less(s[k], name) {
          LessTransitive(s[k], s[h], name);
        }
        i := h + 1;
      } else {
        forall k | h < k < |s| ensures !Less(s[k], name) {
          if Less(s[k], name) {
            LessTransitive(s[h], s[k], name);
          }
        }
        j := h;
      }
    }
  }

  method InsertSorted(order: seq<Name>, name: Name) returns (r: seq<Name>)
    requires Ascending(order)
    requires name !in order
    ensures Ascending(r)
    ensures forall x :: x in r <==> x in order || x == name
    ensures |r| == |order| + 1
  {
    var i := BinarySearch(order, name);
    forall k | i <= k < |order| ensures Less(name, order[k]) {
      LessTotal(order[k], name);
    }
    r := order[..i] + [name] + order[i..];
    assert order == order[..i] + order[i..];
  }

  /** The search-and-shift loop of removeFromSorted. */
  method RemoveFromSorted(sorted: seq<Name>, name: Name) returns (r: seq<Name>)
    requires Ascending(sorted)
    ensures Ascending(r)
    ensures forall x :: x in r <==> x in sorted && x != name
  {
    for i := 0 to |sorted|
      invariant name !in sorted[..i]
    {
      if sorted[i] == name {
        r := sorted[..i] + sorted[i + 1..];
        Distinct(sorted, i);
        return;
      }
    }
    assert sorted[..|sorted|] == sorted;
    return sorted;
  }

  lemma Distinct(s: seq<Name>, i: nat)
    requires Ascending(s) && i < |s|
    ensures forall x :: x in s[..i] + s[i + 1..] <==> x in s && x != s[i]
  {
    var r := s[..i] + s[i + 1..];
    forall k | 0 <= k < |s| && k != i ensures s[k] != s[i] && s[k] in r {
      if k < i {
        LessAsymmetric(s[k], s[i]);
        assert r[k] == s[k];
      } else {
        LessAsymmetric(s[i], s[k]);
        assert r[k - 1] == s[k];
      }
    }
  }

  // ----- pages

  datatype Page = Page(names: seq<Name>, more: bool)

  const DEFAULT_PAGE := 100

  /** The names after the token; all of them for the empty token. */
  function Above(s: seq<Name>, token: Name): (r: seq<Name>)
    ensures |r| <= |s|
  {
    if s == [] then []
    else (if token == [] || Less(token, s[0]) then [s[0]] else []) + Above(s[1..], token)
  }

  /** paginate: exactly the names above the token, cut to the page size, whether or not the token is present. */
  function PageOf(s: seq<Name>, token: Name, max: int): Page
  {
    var size := if max <= 0 then DEFAULT_PAGE else max;
    var rest := Above(s, token);
    if |rest| <= size then Page(rest, false) else Page(rest[..size], true)
  }

  /** A page holds the first names above the token, 100 of them unless the caller says how many, and more follow exactly when some are left. */
  lemma PageExactly(s: seq<Name>, token: Name, max: int)
    ensures var page, rest := PageOf(s, token, max), Above(s, token);
            var size := if max > 0 then max else 100;
            && page.names <= rest
            && (|page.names| == size || page.names == rest) && |page.names| <= size
            && (page.more <==> |page.names| < |rest|)
  {
  }

  lemma {:induction false} AboveAll(s: seq<Name>, token: Name)
    requires token == [] || forall k :: 0 <= k < |s| ==> Less(token, s[k])
    ensures Above(s, token) == s
  {
    hide Less;
    if s != [] {
      assert forall k :: 0 <= k < |s| - 1 ==> s[1..][k] == s[k + 1];
      AboveAll(s[1..], token);
    }
  }

  /** In an ascending list the names above a token are a suffix. */
  lemma {:induction false} AboveIsSuffix(s: seq<Name>, token: Name, start: nat)
    requires start <= |s|
    requires token == [] ==> start == 0
    requires forall k :: 0 <= k < start ==> !Less(token, s[k])
    requires token == [] || forall k :: start <= k < |s| ==> Less(token, s[k])
    ensures Above(s, token) == s[start..]
  {
    hide Less;
    if start == 0 {
      AboveAll(s, token);
    } else {
      assert forall k :: 0 <= k < |s| - 1 ==> s[1..][k] == s[k + 1];
      AboveIsSuffix(s[1..], token, start - 1);
    }
  }

  lemma {:induction false} AboveMembers(s: seq<Name>, token: Name)
    ensures forall x :: x in Above(s, token) <==> x in s && (token == [] || Less(token, x))
  {
    if s != [] {
      AboveMembers(s[1..], token);
      assert s == [s[0]] + s[1..];
    }
  }

  lemma {:induction false} AboveAscending(s: seq<Name>, token: Name)
    requires Ascending(s)
    ensures Ascending(Above(s, token))
  {
    hide Less;
    if s != [] {
      AboveAscending(s[1..], token);
      AboveMembers(s[1..], token);
      forall i | 0 <= i < |Above(s[1..], token)| ensures Less(s[0], Above(s[1..], token)[i]) {
        assert Above(s[1..], token)[i] in s[1..];
      }
    }
  }

  /** paginate as written: a linear search for the token, a binary one when it is gone. */
  method Paginate(sorted: seq<Name>, continueAfter: Name, maxNames: int) returns (r: Page)
    requires Ascending(sorted)
    ensures r == PageOf(sorted, continueAfter, maxNames)
  {
    hide Less, Above;
    var size := if maxNames <= 0 then DEFAULT_PAGE else maxNames;
    var start := 0;
    if continueAfter != [] {
      start := FindAfter(sorted, continueAfter);
      if start == 0 {
        start := BinarySearch(sorted, continueAfter);
        forall k | start <= k < |sorted| ensures Less(continueAfter, sorted[k]) {
          LessTotal(continueAfter, sorted[k]);
        }
        forall k | 0 <= k < start ensures !Less(continueAfter, sorted[k]) {
          LessAsymmetric(sorted[k], continueAfter);
        }
      }
    }
    AboveIsSuffix(sorted, continueAfter, start);
    var remaining := sorted[start..];
    if |remaining| <= size {
      return Page(remaining, false);
    }
    return Page(remaining[..size], true);
  }

  /** One past the position of the token, or 0 when it is not there. */
  method FindAfter(sorted: seq<Name>, token: Name) returns (start: nat)
    requires Ascending(sorted)
    ensures start <= |sorted|
    ensures start == 0 <==> token !in sorted
    ensures start > 0 ==> forall k :: 0 <= k < start ==> !Less(token, sorted[k])
    ensures start > 0 ==> forall k :: start <= k < |sorted| ==> Less(token, sorted[k])
  {
    for i := 0 to |sorted|
      invariant token !in sorted[..i]
    {
      if sorted[i] == token {
        forall k | 0 <= k <= i ensures !Less(token, sorted[k]) {
          LessIrreflexive(token);
          if k < i {
            LessAsymmetric(sorted[k], sorted[i]);
          }
        }
        return i + 1;
      }
    }
    assert sorted[..|sorted|] == sorted;
    return 0;
  }
}
