/**
 Base-128 groups and OBJECT IDENTIFIER contents (X.690 sections 8.1.2.4 and
 8.19), internal/berutil/berutil.go and internal/asn1util/raw.go.
 */
module Oid {
  import opened Bytes
  import opened Results

  datatype Group = Group(value: nat, consumed: nat)

  /** 128 to the power k. */
  function Pow128(k: nat): (p: nat)
    ensures p >= 1
  {
    if k == 0 then 1 else 128 * Pow128(k - 1)
  }

  /** The groups of w, most significant first, every one with its continuation bit set. */
  function High(w: nat): (bs: seq<Byte>)
  {
    if w == 0 then [] else High(w / 128) + [w % 128 + 128]
  }

  /** The groups of v: only the last one has its continuation bit clear. */
  function EncodeBase128(v: nat): (bs: seq<Byte>)
    ensures bs != []
  {
    High(v / 128) + [v % 128]
  }

  /** Reads groups from the front of data, v and n being what was accumulated so far. */
  function Scan(data: seq<Byte>, v: nat, n: nat): (r: Result<Group>)
    ensures r.Ok? ==> n < r.value.consumed <= n + |data|
  {
    if data == [] then Err
    else if data[0] < 128 then Ok(Group(v * 128 + data[0], n + 1))
    else if n + 1 > 5 then Err
    else Scan(data[1..], v * 128 + data[0] % 128, n + 1)
  }

  function DecodeBase128(data: seq<Byte>): (r: Result<Group>)
    ensures r.Ok? ==> 1 <= r.value.consumed <= |data|
  {
    Scan(data, 0, 0)
  }

  predicate ValidOid(oid: seq<int>) {
    && |oid| >= 2
    && 0 <= oid[0] <= 2
    && 0 <= oid[1] && (oid[0] < 2 ==> oid[1] < 40)
    && forall i :: 2 <= i < |oid| ==> oid[i] >= 0
  }

  /** The subidentifiers of X.690 section 8.19.4: the first carries two arcs. */
  function SubIds(oid: seq<int>): (ids: seq<nat>)
    requires ValidOid(oid)
    ensures |ids| == |oid| - 1
  {
    [oid[0] * 40 + oid[1]] + seq(|oid| - 2, i requires 0 <= i < |oid| - 2 => oid[i + 2])
  }

  function EncodeArcs(ids: seq<nat>): (bs: seq<Byte>)
  {
    if ids == [] then [] else EncodeBase128(ids[0]) + EncodeArcs(ids[1..])
  }

  function EncodeOid(oid: seq<int>): (r: Result<seq<Byte>>)
  {
    if ValidOid(oid) then Ok(EncodeArcs(SubIds(oid))) else Err
  }

  function DecodeArcs(data: seq<Byte>): (r: Result<seq<nat>>)
  {
    if data == [] then Ok([])
    else
      var g :- DecodeBase128(data);
      var rest :- DecodeArcs(data[g.consumed..]);
      Ok([g.value] + rest)
  }

  /** The arcs a list of subidentifiers denotes. */
  function Arcs(ids: seq<nat>): (oid: seq<int>)
    requires ids != []
  {
    (if ids[0] < 40 then [0, ids[0]] else if ids[0] < 80 then [1, ids[0] - 40] else [2, ids[0] - 80]) + ids[1..]
  }

  function DecodeOid(data: seq<Byte>): (r: Result<seq<int>>)
  {
    if data == [] then Err
    else
      var ids :- DecodeArcs(data);
      if ids == [] then Err else Ok(Arcs(ids))
  }

  // ----- the loops of the source

  /** encodeTagNumber fills a ten-octet buffer from its end; 63-bit numbers never run out of it. */
  method EncodeTagNumber(v: nat) returns (bs: seq<Byte>)
    requires v < Pow128(10)
    ensures bs == EncodeBase128(v)
  {
    var groups := new Byte[10];
    var i := 9;
    groups[i] := v % 128;
    var n: nat := v / 128;
    while n > 0
      invariant 0 <= i <= 9
      invariant n < Pow128(i)
      invariant High(n) + groups[i..] == EncodeBase128(v)
      decreases n
    {
      HighUnfold(n, groups[i..]);
      i := i - 1;
      groups[i] := n % 128 + 128;
      assert groups[i..] == [groups[i]] + groups[i + 1..];
      n := n / 128;
    }
    return groups[i..];
  }

  /** appendBase128 is the same loop behind a one-octet shortcut. */
  method AppendBase128(buf: seq<Byte>, v: nat) returns (r: seq<Byte>)
    requires v < Pow128(10)
    ensures r == buf + EncodeBase128(v)
  {
    if v < 0x80 {
      return buf + [v];
    }
    var groups := EncodeTagNumber(v);
    return buf + groups;
  }

  /** The offset loop of decodeBase128. */
  method ScanBase128(data: seq<Byte>, offset: nat) returns (r: Result<Group>)
    requires offset <= |data|
    ensures r == DecodeBase128(data[offset..])
  {
    var v: nat, n: nat, i := 0, 0, offset;
    while i < |data|
      invariant offset <= i <= |data|
      invariant n <= 5
      invariant Scan(data[i..], v, n) == DecodeBase128(data[offset..])
    {
      assert data[i..][1..] == data[i + 1..];
      n := n + 1;
      v := v * 128 + data[i] % 128;
      if data[i] < 128 {
        return Ok(Group(v, n));
      }
      if n > 5 {
        return Err;
      }
      i := i + 1;
    }
    return Err;
  }

  /** The offset loop of DecodeObjectIdentifier collects one subidentifier per round. */
  method ScanArcs(data: seq<Byte>) returns (r: Result<seq<nat>>)
    ensures r == DecodeArcs(data)
  {
    var ids: seq<nat>, offset := [], 0;
    PrependEmpty([], DecodeArcs(data));
    assert data[0..] == data;
    while offset < |data|
      invariant 0 <= offset <= |data|
      invariant DecodeArcs(data) == Prepend(ids, DecodeArcs(data[offset..]))
    {
      var arc := ScanBase128(data, offset);
      if arc.Err? {
        return Err;
      }
      ArcsStep(ids, data[offset..]);
      assert data[offset..][arc.value.consumed..] == data[offset + arc.value.consumed..];
      offset := offset + arc.value.consumed;
      ids := ids + [arc.value.value];
    }
    PrependEmpty(ids, Ok([]));
    return Ok(ids);
  }

  lemma ArcsStep(done: seq<nat>, data: seq<Byte>)
    requires DecodeBase128(data).Ok?
    ensures Prepend(done, DecodeArcs(data))
         == Prepend(done + [DecodeBase128(data).value.value], DecodeArcs(data[DecodeBase128(data).value.consumed..]))
  {
    var g := DecodeBase128(data).value;
    var rest := DecodeArcs(data[g.consumed..]);
    if rest.Ok? {
      assert done + ([g.value] + rest.value) == done + [g.value] + rest.value;
    }
  }

  // ----- groups

  lemma HighUnfold(w: nat, tail: seq<Byte>)
    requires w > 0
    ensures High(w) + tail == High(w / 128) + ([w % 128 + 128] + tail)
  {
  }

  lemma {:induction false} HighLeast(w: nat, k: nat)
    ensures |High(w)| <= k <==> w < Pow128(k)
  {
    if w > 0 && k > 0 {
      HighLeast(w / 128, k - 1);
    }
  }

  lemma ScanStep(b: Byte, tail: seq<Byte>, v: nat, n: nat)
    requires b >= 128
    ensures Scan([b] + tail, v, n) == if n + 1 > 5 then Err else Scan(tail, v * 128 + b % 128, n + 1)
  {
    assert ([b] + tail)[1..] == tail;
  }

  /** Reading back continuation groups accumulates their number, up to five of them. */
  lemma {:induction false} ScanHigh(w: nat, tail: seq<Byte>)
    ensures Scan(High(w) + tail, 0, 0) == if |High(w)| <= 5 then Scan(tail, w, |High(w)|) else Err
  {
    if w == 0 {
      assert High(w) + tail == tail;
    } else {
      var g := w % 128 + 128;
      HighUnfold(w, tail);
      ScanHigh(w / 128, [g] + tail);
      ScanStep(g, tail, w / 128, |High(w / 128)|);
    }
  }

  /** A number decodes back exactly when it needs at most six groups, that is below 2^42. */
  lemma Base128RoundTrip(v: nat, rest: seq<Byte>)
    ensures DecodeBase128(EncodeBase128(v) + rest)
         == if v < Pow128(6) then Ok(Group(v, |EncodeBase128(v)|)) else Err
  {
    var w := v / 128;
    var tail := [v % 128] + rest;
    assert EncodeBase128(v) + rest == High(w) + tail;
    ScanHigh(w, tail);
    HighLeast(w, 5);
  }

  lemma {:induction false} ScanBound(data: seq<Byte>, v: nat, n: nat)
    requires v < Pow128(n) && n <= 5
    requires Scan(data, v, n).Ok?
    ensures Scan(data, v, n).value.consumed <= 6
    ensures Scan(data, v, n).value.value < Pow128(Scan(data, v, n).value.consumed)
  {
    if data[0] >= 128 {
      ScanBound(data[1..], v * 128 + data[0] % 128, n + 1);
    }
  }

  lemma {:induction false} Pow128Monotone(i: nat, j: nat)
    requires i <= j
    ensures Pow128(i) <= Pow128(j)
  {
    if i < j {
      Pow128Monotone(i, j - 1);
    }
  }

  /** A decoded number is below 2^42 and re-encodes in no more groups than were read. */
  lemma Base128Normalises(data: seq<Byte>)
    requires DecodeBase128(data).Ok?
    ensures DecodeBase128(data).value.value < Pow128(6)
    ensures |EncodeBase128(DecodeBase128(data).value.value)| <= DecodeBase128(data).value.consumed
  {
    ScanBound(data, 0, 0);
    var g := DecodeBase128(data).value;
    Pow128Monotone(g.consumed, 6);
    HighLeast(g.value / 128, g.consumed - 1);
  }

  // ----- identifiers

  predicate SmallIds(ids: seq<nat>) {
    forall i :: 0 <= i < |ids| ==> ids[i] < Pow128(6)
  }

  lemma {:induction false} ArcsRoundTrip(ids: seq<nat>)
    ensures DecodeArcs(EncodeArcs(ids)) == if SmallIds(ids) then Ok(ids) else Err
  {
    if ids != [] {
      var rest := EncodeArcs(ids[1..]);
      ArcsRoundTrip(ids[1..]);
      Base128RoundTrip(ids[0], rest);
      var data := EncodeBase128(ids[0]) + rest;
      assert data[|EncodeBase128(ids[0])|..] == rest;
      assert ids == [ids[0]] + ids[1..];
      assert SmallIds(ids) <==> ids[0] < Pow128(6) && SmallIds(ids[1..]);
    }
  }

  lemma {:induction false} ArcsNormalise(data: seq<Byte>)
    requires DecodeArcs(data).Ok?
    ensures SmallIds(DecodeArcs(data).value)
    ensures |EncodeArcs(DecodeArcs(data).value)| <= |data|
    ensures data != [] ==> DecodeArcs(data).value != []
  {
    if data != [] {
      var g := DecodeBase128(data).value;
      Base128Normalises(data);
      ArcsNormalise(data[g.consumed..]);
      assert ([g.value] + DecodeArcs(data[g.consumed..]).value)[1..] == DecodeArcs(data[g.consumed..]).value;
    }
  }

  lemma ArcsOfSubIds(oid: seq<int>)
    requires ValidOid(oid)
    ensures Arcs(SubIds(oid)) == oid
  {
  }

  lemma SubIdsOfArcs(ids: seq<nat>)
    requires ids != []
    ensures ValidOid(Arcs(ids))
    ensures SubIds(Arcs(ids)) == ids
  {
  }

  /** A valid identifier survives exactly when all its subidentifiers are below 2^42. */
  lemma OidRoundTrip(oid: seq<int>)
    requires ValidOid(oid)
    ensures EncodeOid(oid).Ok?
    ensures DecodeOid(EncodeOid(oid).value) == if SmallIds(SubIds(oid)) then Ok(oid) else Err
  {
    ArcsRoundTrip(SubIds(oid));
    ArcsOfSubIds(oid);
    assert EncodeOid(oid).value != [] by {
      assert |EncodeArcs(SubIds(oid))| >= |EncodeBase128(SubIds(oid)[0])|;
    }
  }

  /** Whatever decodes re-encodes, in no more octets, to what decodes to it again. */
  lemma OidNormalises(data: seq<Byte>)
    requires DecodeOid(data).Ok?
    ensures ValidOid(DecodeOid(data).value)
    ensures SmallIds(SubIds(DecodeOid(data).value))
    ensures |EncodeOid(DecodeOid(data).value).value| <= |data|
  {
    ArcsNormalise(data);
    SubIdsOfArcs(DecodeArcs(data).value);
  }
}
