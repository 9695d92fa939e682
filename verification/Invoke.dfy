/**
 Invoke IDs and outstanding requests (internal/invoke/tracker.go): the ID
 counter, and the table from invoke ID to the one-slot channel its caller
 waits on. The methods are one goroutine's view; Correlation.dfy interleaves
 them, split where they release the lock.
 */
module Invoke {
  import opened Bytes
  import opened Integers
  import opened Results

  datatype Reason = AssociationClosed | ReaderStopped | ContextDone | SendFailed

  datatype Body = Data(kind: int, bytes: seq<Byte>) | Failure(reason: Reason)

  datatype Response = Response(id: Uint32, body: Body)

  // ----- invoke IDs

  /** How many IDs there are: all 32-bit values but zero. */
  const ID_COUNT := 0xFFFF_FFFF

  /** The counter after one more call of NextID: 32-bit wrap-around, skipping zero. */
  function Successor(id: Uint32): (r: Uint32)
    ensures r != 0
  {
    var next := (id + 1) % 0x1_0000_0000;
    if next == 0 then 1 else next
  }

  /** The ID the k-th call (from zero) returns. */
  function IdAt(k: nat): (id: Uint32)
    ensures id != 0
  {
    k % ID_COUNT + 1
  }

  lemma NextAfter(k: nat)
    ensures Successor(IdAt(k)) == IdAt(k + 1)
    ensures Successor(0) == IdAt(0)
  {
    var q, m := k / ID_COUNT, k % ID_COUNT;
    if m + 1 < ID_COUNT {
      assert (k + 1) / ID_COUNT == q && (k + 1) % ID_COUNT == m + 1;
    } else {
      assert k + 1 == ID_COUNT * (q + 1);
      assert (k + 1) % ID_COUNT == 0;
    }
  }

  /** Two calls share an ID exactly when a whole cycle of IDs lies between them. */
  lemma SameIdExactly(j: nat, k: nat)
    requires j <= k
    ensures IdAt(j) == IdAt(k) <==> (k - j) % ID_COUNT == 0
  {
    var a, b := j / ID_COUNT, j % ID_COUNT;
    var c, d := k / ID_COUNT, k % ID_COUNT;
    assert k - j == ID_COUNT * (c - a) + (d - b);
    if b == d {
      MultipleHasNoRest(c - a);
    }
  }

  lemma MultipleHasNoRest(n: int)
    ensures (ID_COUNT * n) % ID_COUNT == 0
  {
  }

  // ----- the table

  /** A one-slot response channel. sent counts the sends it ever took. */
  class Channel {
    var slot: Option<Response>
    ghost var sent: nat

    constructor ()
      ensures slot == None && sent == 0
    {
      slot, sent := None, 0;
    }

    /** ch <- r: would block on a full slot, so a caller must know the slot is empty. */
    method Send(r: Response)
      requires slot == None
      modifies this
      ensures slot == Some(r) && sent == old(sent) + 1
    {
      slot, sent := Some(r), sent + 1;
    }
  }

  /** The loop of CancelAll over the table it swapped out. */
  method FailEach(swapped: map<Uint32, Channel>, reason: Reason)
    requires forall id :: id in swapped ==> swapped[id].slot == None && swapped[id].sent == 0
    requires forall i, j :: i in swapped && j in swapped && swapped[i] == swapped[j] ==> i == j
    modifies swapped.Values
    ensures forall id :: id in swapped ==>
              swapped[id].slot == Some(Response(id, Failure(reason))) && swapped[id].sent == 1
  {
    var todo := swapped.Keys;
    while todo != {}
      invariant todo <= swapped.Keys
      invariant forall id :: id in todo ==> swapped[id].slot == None && swapped[id].sent == 0
      invariant forall id :: id in swapped && id !in todo ==>
                  swapped[id].slot == Some(Response(id, Failure(reason))) && swapped[id].sent == 1
    {
      var id :| id in todo;
      swapped[id].Send(Response(id, Failure(reason)));
      todo := todo - {id};
    }
  }

  class Tracker {
    var nextID: Uint32
    var pending: map<Uint32, Channel>
    const maxPending: nat

    /** Each outstanding request has a channel of its own that nothing was sent to yet. */
    ghost predicate Valid()
      reads this, pending.Values
    {
      && (forall id :: id in pending ==> pending[id].slot == None && pending[id].sent == 0)
      && (forall i, j :: i in pending && j in pending && pending[i] == pending[j] ==> i == j)
    }

    constructor (maxPending: nat)
      ensures Valid() && nextID == 0 && pending == map[] && this.maxPending == maxPending
    {
      nextID, pending := 0, map[];
      this.maxPending := maxPending;
    }

    method NextID() returns (id: Uint32)
      modifies this`nextID
      ensures id == nextID == Successor(old(nextID))
    {
      nextID := (nextID + 1) % 0x1_0000_0000;
      if nextID == 0 {
        nextID := 1;
      }
      return nextID;
    }

    /** Registers an ID, unless it is outstanding already or the limit is reached. */
    method AllocateWithID(id: Uint32) returns (r: Result<Channel>)
      requires Valid()
      modifies this`pending
      ensures Valid()
      ensures r.Ok? <==> (maxPending > 0 ==> |old(pending)| < maxPending) && id !in old(pending)
      ensures r.Ok? ==> fresh(r.value) && pending == old(pending)[id := r.value] && r.value.slot == None && r.value.sent == 0
      ensures r.Err? ==> pending == old(pending)
    {
      if maxPending > 0 && |pending| >= maxPending {
        return Err;
      }
      if id in pending {
        return Err;
      }
      var ch := new Channel();
      pending := pending[id := ch];
      return Ok(ch);
    }

    /** Delivers once: the entry goes first, and a second delivery for the ID finds none. */
    method Complete(id: Uint32, resp: Response) returns (ok: bool)
      requires Valid()
      modifies this`pending, pending.Values
      ensures Valid()
      ensures ok <==> id in old(pending)
      ensures pending == old(pending) - {id}
      ensures ok ==> old(pending)[id].slot == Some(resp.(id := id)) && old(pending)[id].sent == 1
      ensures forall i :: i in pending ==> unchanged(old(pending)[i])
    {
      if id !in pending {
        return false;
      }
      var ch := pending[id];
      assert forall i :: i in pending && i != id ==> pending[i] != ch;
      pending := pending - {id};
      ch.Send(resp.(id := id));
      return true;
    }

    method Cancel(id: Uint32, reason: Reason) returns (ok: bool)
      requires Valid()
      modifies this`pending, pending.Values
      ensures Valid()
      ensures ok <==> id in old(pending)
      ensures pending == old(pending) - {id}
      ensures ok ==> old(pending)[id].slot == Some(Response(id, Failure(reason))) && old(pending)[id].sent == 1
      ensures forall i :: i in pending ==> unchanged(old(pending)[i])
    {
      ok := Complete(id, Response(0, Failure(reason)));
    }

    /** Swaps the table out, then fails every request that was in it, each once and with its own ID. */
    method CancelAll(reason: Reason)
      requires Valid()
      modifies this`pending, pending.Values
      ensures Valid() && pending == map[]
      ensures forall id :: id in old(pending) ==>
                old(pending)[id].slot == Some(Response(id, Failure(reason))) && old(pending)[id].sent == 1
    {
      var swapped := pending;
      pending := map[];
      FailEach(swapped, reason);
    }
  }
}
