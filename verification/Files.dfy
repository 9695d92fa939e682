/**
 File transfer: the server's table of open files (server_file.go), the
 FileRead response on the wire (internal/pdu/file.go) and the client's read
 loop (client_file.go). A provider handle is an object that serves its file
 in chunks of the provider's choosing and counts how often it was closed.
 */
module Files {
  import opened Bytes
  import opened Results
  import opened Ber
  import opened Integers

  type Int32 = x: int | -0x8000_0000 <= x < 0x8000_0000

  const SKIP_CHUNK := 65536

  datatype Chunk = Chunk(data: seq<Byte>, more: bool)

  // ----- FileRead responses

  function MarshalRead(c: Chunk): (bs: seq<Byte>)
  {
    EncodeTLV(0x80, c.data) + (if c.more then [] else EncodeTLV(0x81, [0]))
  }

  /** The fields in the order they come; later ones override, and moreFollows is true unless stated. */
  function ScanRead(data: seq<Byte>, acc: Chunk): (r: Result<Chunk>)
    decreases |data|
  {
    if data == [] then Ok(acc)
    else
      var tlv :- DecodeTLV(data);
      var rest := data[tlv.consumed..];
      match tlv.tag
      case 0x80 => ScanRead(rest, acc.(data := tlv.content))
      case 0x81 => ScanRead(rest, if tlv.content != [] then acc.(more := tlv.content[0] != 0) else acc)
      case _ => Err
  }

  function UnmarshalRead(data: seq<Byte>): Result<Chunk> {
    ScanRead(data, Chunk([], true))
  }

  method ScanReadResponse(data: seq<Byte>) returns (r: Result<Chunk>)
    ensures r == UnmarshalRead(data)
  {
    hide DecodeTLV;
    var acc := Chunk([], true);
    var offset := 0;
    while offset < |data|
      invariant offset <= |data|
      invariant ScanRead(data[offset..], acc) == UnmarshalRead(data)
    {
      DecodeAtSuffix(data, offset);
      var field := DecodeTLVAt(data, offset);
      if field.Err? {
        return Err;
      }
      var tlv := field.value;
      assert data[offset..][tlv.consumed..] == data[offset + tlv.consumed..];
      offset := offset + tlv.consumed;
      match tlv.tag {
        case 0x80 =>
          acc := acc.(data := tlv.content);
        case 0x81 =>
          if |tlv.content| > 0 {
            acc := acc.(more := tlv.content[0] != 0);
          }
        case _ =>
          return Err;
      }
    }
    return Ok(acc);
  }

  lemma ReadRoundTrip(c: Chunk)
    requires |c.data| < MAX_CONTENT
    ensures UnmarshalRead(MarshalRead(c)) == Ok(c)
  {
    hide DecodeTLV, EncodeTLV;
    var tail := if c.more then [] else EncodeTLV(0x81, [0]);
    TLVRoundTrip(0x80, c.data, tail);
    TLVLength(0x80, c.data);
    assert (EncodeTLV(0x80, c.data) + tail)[TLVSize(|c.data|)..] == tail;
    FlagRoundTrip(Chunk(c.data, true));
    assert ScanRead(MarshalRead(c), Chunk([], true)) == ScanRead(tail, Chunk(c.data, true));
  }

  lemma FlagRoundTrip(acc: Chunk)
    ensures ScanRead(EncodeTLV(0x81, [0]), acc) == Ok(acc.(more := false))
  {
    hide DecodeTLV, EncodeTLV;
    TLVRoundTrip(0x81, [0], []);
    TLVLength(0x81, [0]);
    LengthSizeValues(1);
    assert EncodeTLV(0x81, [0]) + [] == EncodeTLV(0x81, [0]);
  }

  /** The eight octets handleFileRead sets aside are enough, so the response stays within the budget. */
  lemma ReadFitsBudget(c: Chunk, budget: int)
    requires |c.data| <= budget - 8 && |c.data| < MAX_CONTENT
    ensures |MarshalRead(c)| <= budget
  {
    hide EncodeTLV;
    TLVLength(0x80, c.data);
    LengthSizeValues(|c.data|);
    TLVLength(0x81, [0]);
    LengthSizeValues(1);
  }

  // ----- handles

  class Handle {
    const contents: seq<Byte>
    /** How much the provider hands out at a position when asked for so much, and whether more follows; None is an error. */
    const serve: (nat, int) -> Option<(nat, bool)>
    var position: nat
    ghost var closes: nat

    constructor (contents: seq<Byte>, serve: (nat, int) -> Option<(nat, bool)>)
      ensures this.contents == contents && this.serve == serve && position == 0 && closes == 0
    {
      this.contents, this.serve := contents, serve;
      position, closes := 0, 0;
    }

    /** Every read succeeds. */
    ghost predicate NeverFails() {
      forall pos: nat, max: int {:trigger serve(pos, max)} :: pos <= |contents| && max > 0 ==> serve(pos, max).Some?
    }

    /**
     The provider contract for a read that succeeds: no more than asked for, never past the end,
     and moreFollows is false on the last chunk.
     */
    ghost predicate Abides() {
      forall pos: nat, max: int {:trigger serve(pos, max)} :: pos <= |contents| && max > 0 && serve(pos, max).Some? ==>
        && serve(pos, max).value.0 <= max
        && pos + serve(pos, max).value.0 <= |contents|
        && (serve(pos, max).value.1 ==> serve(pos, max).value.0 > 0)
        && (!serve(pos, max).value.1 ==> pos + serve(pos, max).value.0 == |contents|)
    }

    ghost predicate InRange()
      reads this`position
    {
      position <= |contents|
    }

    function Remaining(): seq<Byte>
      requires InRange()
      reads this`position
    {
      contents[position..]
    }

    method Read(max: int) returns (r: Result<Chunk>)
      requires InRange()
      modifies this`position
      ensures InRange() && position >= old(position)
      ensures r.Ok? ==> old(Remaining()) == r.value.data + Remaining()
      ensures r.Err? ==> position == old(position) && (max > 0 ==> !NeverFails())
      ensures r.Ok? && Abides() && max > 0 ==>
                && |r.value.data| <= max
                && (r.value.more ==> r.value.data != [])
                && (!r.value.more ==> Remaining() == [])
    {
      var offer := serve(position, max);
      if offer.None? {
        return Err;
      }
      var end := position + offer.value.0;
      if end > |contents| {
        end := |contents|;
      }
      r := Ok(Chunk(contents[position..end], offer.value.1));
      position := end;
    }

    method Close()
      modifies this`closes
      ensures closes == old(closes) + 1
    {
      closes := closes + 1;
    }
  }

  /** skipFileBytes: reads and discards, in chunks of at most 64 KiB. */
  method SkipFileBytes(h: Handle, n: int, size: int) returns (ok: bool)
    requires h.InRange()
    modifies h`position
    ensures h.InRange()
    ensures n > size ==> !ok
    ensures h.Abides() && 0 <= n && size == |h.contents| && old(h.position) == 0 ==>
              && (h.NeverFails() ==> (ok <==> n <= size))
              && (ok ==> h.Remaining() == h.contents[n..])
  {
    if n > size {
      return false;
    }
    var left := n;
    while left > 0
      invariant h.InRange()
      invariant h.Abides() && 0 <= n && size == |h.contents| && old(h.position) == 0 ==> left >= 0 && h.position == n - left
    {
      var chunk := if left < SKIP_CHUNK then left else SKIP_CHUNK;
      var r := h.Read(chunk);
      if r.Err? {
        return false;
      }
      left := left - |r.value.data|;
      if left > 0 && (!r.value.more || |r.value.data| == 0) {
        return false;
      }
    }
    return true;
  }

  // ----- the table of open files

  /** Conversion to a 32-bit signed integer. */
  function Wrap32(n: int): Int32 {
    (n + 0x8000_0000) % 0x1_0000_0000 - 0x8000_0000
  }

  lemma WrapStep(n: int)
    ensures Wrap32(Wrap32(n) + 1) == Wrap32(n + 1)
  {
  }

  /** Two counts wrap to the same ID exactly when they are a multiple of 2^32 apart. */
  lemma WrapSame(j: int, k: int)
    ensures Wrap32(j) == Wrap32(k) <==> (k - j) % 0x1_0000_0000 == 0
  {
  }

  lemma ValuesAdd(m: map<Int32, Handle>, id: Int32, h: Handle)
    requires id !in m
    ensures m[id := h].Values == m.Values + {h}
  {
    var more := m[id := h];
    forall g | g in m.Values
      ensures g in more.Values
    {
      var i :| i in m && m[i] == g;
      assert more[i] == g;
    }
    assert more[id] == h;
  }

  lemma ValuesOverwrite(m: map<Int32, Handle>, id: Int32, h: Handle)
    requires id in m && h !in m.Values
    requires forall i, j :: i in m && j in m && m[i] == m[j] ==> i == j
    ensures m[id] !in m[id := h].Values
  {
    assert m[id] in m.Values;
  }

  lemma ValuesRemove(m: map<Int32, Handle>, id: Int32)
    requires id in m
    requires forall i, j :: i in m && j in m && m[i] == m[j] ==> i == j
    ensures (m - {id}).Values == m.Values - {m[id]}
  {
    var less := m - {id};
    forall g | g in m.Values && g != m[id]
      ensures g in less.Values
    {
      var i :| i in m && m[i] == g;
      assert less[i] == g;
    }
  }

  /** The loop of closeAll. */
  method CloseEach(entries: map<Int32, Handle>)
    requires forall i, j :: i in entries && j in entries && entries[i] == entries[j] ==> i == j
    modifies entries.Values`closes
    ensures forall id :: id in entries ==> entries[id].closes == old(entries[id].closes) + 1
  {
    var todo := entries.Keys;
    while todo != {}
      invariant todo <= entries.Keys
      invariant forall id :: id in entries ==> entries[id].closes == old(entries[id].closes) + (if id in todo then 0 else 1)
    {
      var id :| id in todo;
      entries[id].Close();
      todo := todo - {id};
    }
  }

  class FrsmTable {
    var entries: map<Int32, Handle>
    var nextID: Int32
    /** Every handle the provider opened for this association. */
    ghost var handles: set<Handle>
    ghost var allocs: nat

    ghost predicate Issued(id: Int32)
      reads this`allocs
    {
      exists k: nat :: 1 <= k <= allocs && Wrap32(k) == id
    }

    /** Every handle is in the table under one ID, or was closed once. */
    ghost predicate Valid()
      reads this, handles
    {
      && nextID == Wrap32(allocs)
      && (forall id :: id in entries ==> entries[id] in handles && Issued(id))
      && (forall i, j :: i in entries && j in entries && entries[i] == entries[j] ==> i == j)
      && (forall h :: h in handles ==> h.InRange() && h.closes == (if h in entries.Values then 0 else 1))
    }

    constructor ()
      ensures Valid() && entries == map[] && handles == {} && allocs == 0
    {
      entries, nextID, handles, allocs := map[], 0, {}, 0;
    }

    /** Nothing is lost exactly when the next ID is free. */
    method Alloc(h: Handle) returns (id: Int32)
      requires Valid() && h !in handles && h.closes == 0 && h.InRange()
      modifies this
      ensures id == nextID == Wrap32(old(nextID) + 1) && entries == old(entries)[id := h]
      ensures handles == old(handles) + {h} && allocs == old(allocs) + 1
      ensures Valid() <==> id !in old(entries)
    {
      WrapStep(allocs);
      nextID := Wrap32(nextID + 1);
      id := nextID;
      if id in entries {
        ValuesOverwrite(entries, id, h);
        assert entries[id] in handles;
      } else {
        ValuesAdd(entries, id, h);
      }
      entries := entries[id := h];
      handles, allocs := handles + {h}, allocs + 1;
      assert Issued(id);
    }

    /** With fewer than 2^32 opens before it, an open gets an ID of its own. */
    lemma NextIsFree()
      requires Valid() && allocs < 0x1_0000_0000
      ensures Wrap32(nextID + 1) !in entries
    {
      hide Wrap32;
      WrapStep(allocs);
      var id := Wrap32(allocs + 1);
      if id in entries {
        assert Issued(id);
        var k: nat :| 1 <= k <= allocs && Wrap32(k) == id;
        WrapSame(k, allocs + 1);
      }
    }

    method Remove(id: Int32) returns (r: Option<Handle>)
      modifies this`entries
      ensures r == if id in old(entries) then Some(old(entries)[id]) else None
      ensures entries == old(entries) - {id}
    {
      if id in entries {
        r := Some(entries[id]);
        entries := entries - {id};
      } else {
        r := None;
      }
    }

    /** handleFileClose: the entry goes first, then the handle is closed. */
    method FileClose(id: Int32) returns (ok: bool)
      requires Valid()
      modifies this`entries, handles`closes
      ensures Valid() && handles == old(handles) && allocs == old(allocs)
      ensures ok <==> id in old(entries)
      ensures entries == old(entries) - {id}
      ensures ok ==> old(entries)[id].closes == 1
      ensures forall h :: h in handles && (ok ==> h != old(entries)[id]) ==> h.closes == old(h.closes)
    {
      if id in entries {
        ValuesRemove(entries, id);
      } else {
        assert entries - {id} == entries;
      }
      var r := Remove(id);
      if r.None? {
        return false;
      }
      r.value.Close();
      return true;
    }

    /**
     handleFileOpen, for a handle the provider has just opened. It ends up in the table under a
     new ID, or closed when its position cannot be reached. A size that has no encoding is
     reported as an error with the handle left in the table.
     */
    method FileOpen(h: Handle, size: int, position: int) returns (r: Result<Int32>)
      requires Valid() && allocs < 0x1_0000_0000
      requires h !in handles && h.closes == 0 && h.position == 0
      modifies this, h
      ensures Valid() && handles == old(handles) + {h} && allocs == old(allocs) + (if h.closes == 0 then 1 else 0)
      ensures r.Ok? <==> h.closes == 0 && 0 <= size <= MAX_UINT32
      ensures r.Ok? ==> r.value == nextID
      ensures h.closes == 0 ==> nextID !in old(entries) && entries == old(entries)[nextID := h]
      ensures h.closes == 1 ==> entries == old(entries) && position > 0
      ensures h.Abides() && size == |h.contents| && h.closes == 0 ==>
                position <= size && h.Remaining() == h.contents[if position > 0 then position else 0..]
      ensures h.Abides() && size == |h.contents| && h.NeverFails() ==> (h.closes == 0 <==> position <= size)
    {
      if position > 0 {
        var ok := SkipFileBytes(h, position, size);
        if !ok {
          h.Close();
          assert h !in entries.Values;
          handles := handles + {h};
          return Err;
        }
      }
      NextIsFree();
      var id := Alloc(h);
      if size < 0 || size > MAX_UINT32 {
        return Err;
      }
      return Ok(id);
    }

    /** handleFileRead: one chunk of the file behind an ID, encoded within the budget. */
    method FileRead(id: Int32, budget: int) returns (r: Result<seq<Byte>>)
      requires Valid()
      modifies handles`position
      ensures Valid()
      ensures id !in entries ==> r.Err?
      ensures forall h :: h in handles && (id in entries ==> h != entries[id]) ==> h.position == old(h.position)
      ensures id in entries && r.Err? ==> entries[id].position == old(entries[id].position)
      ensures id in entries && entries[id].NeverFails() && 8 < budget ==> r.Ok?
      ensures id in entries && entries[id].Abides() && 8 < budget < MAX_CONTENT && r.Ok? ==>
                && |r.value| <= budget && UnmarshalRead(r.value).Ok?
                && ChunkOf(UnmarshalRead(r.value).value, old(entries[id].Remaining()), entries[id].Remaining())
    {
      if id !in entries {
        return Err;
      }
      var h := entries[id];
      var c := h.Read(budget - 8);
      if c.Err? {
        return Err;
      }
      if h.Abides() && 8 < budget < MAX_CONTENT {
        ReadRoundTrip(c.value);
        ReadFitsBudget(c.value, budget);
      }
      return Ok(MarshalRead(c.value));
    }

    /** closeAll: whatever is still open is closed, once. */
    method CloseAll()
      requires Valid()
      modifies this`entries, handles`closes
      ensures Valid() && handles == old(handles) && entries == map[]
      ensures forall h :: h in handles ==> h.closes == 1
    {
      CloseEach(entries);
      entries := map[];
      assert entries.Values == {};
    }
  }

  /** A chunk a provider may serve: what it holds and what remains make up what there was. */
  ghost predicate ChunkOf(c: Chunk, before: seq<Byte>, after: seq<Byte>) {
    && before == c.data + after
    && (c.more ==> c.data != [])
    && (!c.more ==> after == [])
  }

  // ----- the client's loop

  /**
   FileReadAll returns everything from where the file stands, in chunks of whatever sizes, or the
   error of a read that failed.
   */
  method FileReadAll(t: FrsmTable, id: Int32, budget: int) returns (r: Result<seq<Byte>>)
    requires t.Valid() && (id in t.entries ==> t.entries[id].Abides()) && 8 < budget < MAX_CONTENT
    modifies t.handles`position
    ensures t.Valid()
    ensures id !in t.entries ==> r == Err
    ensures id in t.entries && r.Ok? ==> r.value == old(t.entries[id].Remaining())
    ensures id in t.entries && r.Err? ==> !t.entries[id].NeverFails()
  {
    if id !in t.entries {
      var failed := t.FileRead(id, budget);
      return Err;
    }
    var h := t.entries[id];
    var buf: seq<Byte> := [];
    while true
      invariant t.Valid() && buf + h.Remaining() == old(t.entries[id].Remaining())
      decreases |h.Remaining()|
    {
      ghost var before := h.Remaining();
      var payload := t.FileRead(id, budget);
      if payload.Err? {
        return Err;
      }
      var chunk := ScanReadResponse(payload.value);
      Regrouped(buf, chunk.value.data, h.Remaining(), before);
      buf := buf + chunk.value.data;
      if !chunk.value.more {
        return Ok(buf);
      }
    }
  }

  lemma Regrouped(buf: seq<Byte>, data: seq<Byte>, after: seq<Byte>, before: seq<Byte>)
    requires before == data + after
    ensures buf + before == buf + data + after
    ensures after == [] ==> buf + before == buf + data
  {
  }

  /**
   DownloadFile: the whole file or an error, and the handle is closed again either way. Only a
   file whose size has no encoding is refused with its handle left open.
   */
  method DownloadFile(t: FrsmTable, h: Handle, budget: int) returns (r: Result<seq<Byte>>)
    requires t.Valid() && t.allocs < 0x1_0000_0000 && h.Abides() && 8 < budget < MAX_CONTENT
    requires h !in t.handles && h.closes == 0 && h.position == 0
    modifies t, h, t.handles`position, t.handles`closes
    ensures t.Valid() && t.handles == old(t.handles) + {h}
    ensures r.Ok? ==> r.value == h.contents
    ensures h.NeverFails() ==> (r.Ok? <==> |h.contents| <= MAX_UINT32)
    ensures |h.contents| <= MAX_UINT32 ==> t.entries == old(t.entries) && h.closes == 1
    ensures |h.contents| > MAX_UINT32 ==> r == Err && h.closes == 0
  {
    hide FrsmTable.Valid, Handle.Abides, Handle.NeverFails;
    var id := t.FileOpen(h, |h.contents|, 0);
    if id.Err? {
      return Err;
    }
    r := FileReadAll(t, id.value, budget);
    var ok := t.FileClose(id.value);
  }

  /**
   FileOpen at a position, then FileReadAll: exactly the contents from there on. A negative
   position counts as the start, one past the end closes the handle again.
   */
  method ReadFrom(t: FrsmTable, h: Handle, position: int, budget: int) returns (r: Result<seq<Byte>>)
    requires t.Valid() && t.allocs < 0x1_0000_0000 && h.Abides() && 8 < budget < MAX_CONTENT
    requires h !in t.handles && h.closes == 0 && h.position == 0
    modifies t, h, t.handles`position
    ensures t.Valid() && t.handles == old(t.handles) + {h}
    ensures r.Ok? ==> position <= |h.contents| && r.value == h.contents[if position > 0 then position else 0..]
    ensures h.NeverFails() ==> (r.Ok? <==> position <= |h.contents| <= MAX_UINT32)
    ensures h.NeverFails() ==> h.closes == if position <= |h.contents| then 0 else 1
    ensures t.entries == if h.closes == 0 then old(t.entries)[t.nextID := h] else old(t.entries)
  {
    hide FrsmTable.Valid, Handle.Abides, Handle.NeverFails;
    var id := t.FileOpen(h, |h.contents|, position);
    if id.Err? {
      return Err;
    }
    r := FileReadAll(t, id.value, budget);
  }

  // ----- an association from start to end

  datatype Request =
    | Open(contents: seq<Byte>, serve: (nat, int) -> Option<(nat, bool)>, size: int, position: int)
    | Read(id: Int32, budget: int)
    | Close(id: Int32)

  function CountOpens(requests: seq<Request>): nat {
    if requests == [] then 0
    else CountOpens(requests[..|requests| - 1]) + (if requests[|requests| - 1].Open? then 1 else 0)
  }

  lemma NoOpens()
    ensures CountOpens([]) == 0
  {
  }

  lemma CountStep(requests: seq<Request>, i: nat)
    requires i < |requests|
    ensures CountOpens(requests[..i + 1]) == CountOpens(requests[..i]) + (if requests[i].Open? then 1 else 0)
  {
    assert requests[..i + 1][..i] == requests[..i];
  }

  lemma {:induction false} CountPrefix(requests: seq<Request>, i: nat)
    requires i <= |requests|
    ensures CountOpens(requests[..i]) <= CountOpens(requests)
    decreases |requests| - i
  {
    if i < |requests| {
      CountStep(requests, i);
      CountPrefix(requests, i + 1);
    } else {
      assert requests[..i] == requests;
    }
  }

  /** Whatever the client asks for, when the association ends every handle has been closed exactly once. */
  method ServeFiles(requests: seq<Request>) returns (t: FrsmTable)
    requires CountOpens(requests) <= 0x1_0000_0000
    ensures t.Valid() && t.entries == map[]
    ensures |t.handles| == CountOpens(requests)
    ensures forall h :: h in t.handles ==> h.closes == 1
  {
    hide FrsmTable.Valid, Handle.Abides, Handle.NeverFails, CountOpens;
    t := new FrsmTable();
    NoOpens();
    for i := 0 to |requests|
      invariant t.Valid() && t.allocs <= CountOpens(requests[..i]) && fresh(t) && fresh(t.handles)
      invariant |t.handles| == CountOpens(requests[..i])
    {
      CountStep(requests, i);
      CountPrefix(requests, i + 1);
      match requests[i] {
        case Open(contents, serve, size, position) =>
          var h := new Handle(contents, serve);
          var r := t.FileOpen(h, size, position);
        case Read(id, budget) =>
          var r := t.FileRead(id, budget);
        case Close(id) =>
          var ok := t.FileClose(id);
      }
    }
    assert requests[..|requests|] == requests;
    t.CloseAll();
  }
}
