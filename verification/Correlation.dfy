/**
 Request/response correlation on the client (mms.go: doConfirmed, readerLoop,
 stopReader, Close and Abort, over internal/invoke/tracker.go) as interleaved
 steps of the calls, the reader and the closer. A step is what one goroutine
 does between two points where another can intervene: Complete and CancelAll
 are split where they release the lock, and select picks any ready branch.
 */
module Correlation {
  import opened Bytes
  import opened Integers
  import opened Results
  import opened Invoke

  datatype Outcome = Got(response: Response) | ContextEnded | SendError | ReaderGone | Refused | IdBusy

  /** Where a call of doConfirmed is. */
  datatype Pc =
    | Entered
    | Open
    | Sending
    | Waiting
    | Draining
    | Cancelling(out: Outcome, reason: Reason)
    | Finishing(out: Outcome)
    | Returned(out: Outcome)

  /**
   One call and its response channel. The last four fields are history: whether the send
   failed, whether the ID was ever registered, how often the channel was sent to, and what
   the reader took for this call from the peer.
   */
  datatype Call = Call(
    id: Uint32, ended: bool, pc: Pc, slot: Option<Response>,
    failed: bool, enrolled: bool, sent: nat, completed: Option<Response>)

  datatype Agent = Reader | Closer | Caller(call: nat)

  /** A send that has left the table and is on its way to the channel of a call. */
  datatype Send = Send(agent: Agent, call: nat, response: Response)

  datatype ReaderPc = Reading | Stopping | Leaving | Gone

  datatype CloserPc = Idle | Marked | Cleared

  datatype State = State(
    nextId: Uint32, pending: map<Uint32, nat>, calls: seq<Call>, flight: multiset<Send>,
    closed: bool, reader: ReaderPc, closer: CloserPc)

  datatype Step =
    | Begin
    | EndContext(c: nat)
    | CheckClosed(c: nat)
    | Allocate(c: nat)
    | SendOk(c: nat)
    | SendFailed(c: nat)
    | Receive(c: nat)
    | SeeContextEnd(c: nat)
    | SeeReaderDone(c: nat)
    | FindNothing(c: nat)
    | CancelOwn(c: nat)
    | Return(c: nat)
    | Deliver(send: Send)
    | Dispatch(id: Uint32, kind: int, bytes: seq<Byte>)
    | StopReading
    | ReaderCancelAll
    | Conclude
    | ReaderExit
    | StartClose
    | CloserCancelAll

  function Init(): State {
    State(0, map[], [], multiset{}, false, Reading, Idle)
  }

  /** Whether a goroutine has no send left to do before its next statement. */
  predicate Quiet(s: State, a: Agent) {
    forall x :: x in s.flight ==> x.agent != a
  }

  predicate At(s: State, c: nat, pc: Pc) {
    c < |s.calls| && s.calls[c].pc == pc
  }

  function SetPc(s: State, c: nat, pc: Pc): State
    requires c < |s.calls|
  {
    s.(calls := s.calls[c := s.calls[c].(pc := pc)])
  }

  /** AllocateWithID when the ID is free. */
  function Enrolled(s: State, c: nat): State
    requires c < |s.calls|
  {
    s.(pending := s.pending[s.calls[c].id := c], calls := s.calls[c := s.calls[c].(pc := Sending, enrolled := true)])
  }

  function Delivered(s: State, x: Send): State
    requires x.call < |s.calls|
  {
    var call := s.calls[x.call].(slot := Some(x.response), sent := s.calls[x.call].sent + 1);
    s.(flight := s.flight - multiset{x}, calls := s.calls[x.call := call])
  }

  /** Complete up to its unlock: the entry leaves the table, its send is on its way. */
  function Take(s: State, agent: Agent, id: Uint32, body: Body): (t: State)
    ensures t.calls == s.calls
  {
    if id in s.pending then
      s.(pending := s.pending - {id}, flight := s.flight + multiset{Send(agent, s.pending[id], Response(id, body))})
    else s
  }

  function Flushes(agent: Agent, pending: map<Uint32, nat>, reason: Reason): set<Send> {
    set id | id in pending :: Send(agent, pending[id], Response(id, Failure(reason)))
  }

  /** CancelAll up to its unlock. */
  function TakeAll(s: State, agent: Agent, reason: Reason): (t: State)
    ensures t.calls == s.calls
  {
    s.(pending := map[], flight := s.flight + multiset(Flushes(agent, s.pending, reason)))
  }

  /** What the reader takes for a call is remembered there. */
  function Record(s: State, id: Uint32, r: Response): State
  {
    if id in s.pending && s.pending[id] < |s.calls| then
      var c := s.pending[id];
      s.(calls := s.calls[c := s.calls[c].(completed := Some(r))])
    else s
  }

  /** The effect of a step, None where it is not enabled. */
  function Next(s: State, step: Step): Option<State>
  {
    match step
    case Begin =>
      var id := Successor(s.nextId);
      Some(s.(nextId := id, calls := s.calls + [Call(id, false, Entered, None, false, false, 0, None)]))
    case EndContext(c) =>
      if c < |s.calls| then Some(s.(calls := s.calls[c := s.calls[c].(ended := true)])) else None
    case CheckClosed(c) =>
      if At(s, c, Entered) then Some(SetPc(s, c, if s.closed then Returned(Refused) else Open)) else None
    case Allocate(c) =>
      if !At(s, c, Open) then None
      else if s.calls[c].ended then Some(SetPc(s, c, Returned(ContextEnded)))
      else if s.calls[c].id in s.pending then Some(SetPc(s, c, Returned(IdBusy)))
      else Some(Enrolled(s, c))
    case SendOk(c) =>
      if At(s, c, Sending) then Some(SetPc(s, c, Waiting)) else None
    case SendFailed(c) =>
      if At(s, c, Sending) then
        Some(s.(calls := s.calls[c := s.calls[c].(pc := Cancelling(SendError, Reason.SendFailed), failed := true)]))
      else None
    case Receive(c) =>
      if (At(s, c, Waiting) || At(s, c, Draining)) && s.calls[c].slot.Some? then
        Some(s.(calls := s.calls[c := s.calls[c].(pc := Returned(Got(s.calls[c].slot.value)), slot := None)]))
      else None
    case SeeContextEnd(c) =>
      if At(s, c, Waiting) && s.calls[c].ended then Some(SetPc(s, c, Cancelling(ContextEnded, ContextDone))) else None
    case SeeReaderDone(c) =>
      if At(s, c, Waiting) && s.reader.Gone? then Some(SetPc(s, c, Draining)) else None
    case FindNothing(c) =>
      if At(s, c, Draining) && s.calls[c].slot.None? then Some(SetPc(s, c, Cancelling(ReaderGone, ReaderStopped))) else None
    case CancelOwn(c) =>
      if c < |s.calls| && s.calls[c].pc.Cancelling? then
        var call := s.calls[c];
        Some(SetPc(Take(s, Caller(c), call.id, Failure(call.pc.reason)), c, Finishing(call.pc.out)))
      else None
    case Return(c) =>
      if c < |s.calls| && s.calls[c].pc.Finishing? && Quiet(s, Caller(c)) then
        var out := s.calls[c].pc.out;
        Some(SetPc(s, c, Returned(if out.SendError? && s.calls[c].ended then ContextEnded else out)))
      else None
    case Deliver(x) =>
      // A send on a full slot blocks: the step is not enabled.
      if x in s.flight && x.call < |s.calls| && s.calls[x.call].slot.None? then
        Some(Delivered(s, x))
      else None
    case Dispatch(id, kind, bytes) =>
      if s.reader.Reading? && Quiet(s, Reader) then
        Some(Take(Record(s, id, Response(id, Data(kind, bytes))), Reader, id, Data(kind, bytes)))
      else None
    case StopReading =>
      if s.reader.Reading? && Quiet(s, Reader) then Some(s.(reader := Stopping)) else None
    case ReaderCancelAll =>
      if s.reader.Stopping? then Some(TakeAll(s, Reader, ReaderStopped).(reader := Leaving)) else None
    case Conclude =>
      if s.reader.Reading? && Quiet(s, Reader) then Some(s.(reader := Leaving)) else None
    case ReaderExit =>
      if s.reader.Leaving? && Quiet(s, Reader) then Some(s.(reader := Gone)) else None
    case StartClose =>
      if s.closed then Some(s) else Some(s.(closed := true, closer := Marked))
    case CloserCancelAll =>
      if s.closer.Marked? then Some(TakeAll(s, Closer, AssociationClosed).(closer := Cleared)) else None
  }

  /** The state after a run, None when some step of it is not enabled. */
  function Run(s: State, steps: seq<Step>): Option<State>
    decreases |steps|
  {
    if steps == [] then Some(s)
    else
      var t := Next(s, steps[0]);
      if t.None? then None else Run(t.value, steps[1..])
  }

  // ----- what every step keeps

  ghost predicate Registered(s: State, c: nat)
    requires c < |s.calls|
  {
    s.calls[c].id in s.pending && s.pending[s.calls[c].id] == c
  }

  ghost predicate InFlight(s: State, c: nat) {
    exists x :: x in s.flight && x.call == c
  }

  predicate MayBeRegistered(pc: Pc) {
    pc.Sending? || pc.Waiting? || pc.Draining? || pc.Cancelling?
  }

  /** A table entry is that of the call the ID was given to. */
  ghost predicate TableOk(s: State) {
    forall id :: id in s.pending ==> s.pending[id] < |s.calls| && s.calls[s.pending[id]].id == id
  }

  /** Each send under way is the only one to its channel, and carries that call's ID. */
  ghost predicate FlightOk(s: State) {
    && (forall x :: x in s.flight ==>
          && s.flight[x] == 1
          && x.call < |s.calls|
          && x.response.id == s.calls[x.call].id
          && (x.agent.Reader? ==> !s.reader.Gone?)
          && (x.agent.Caller? ==> x.agent.call < |s.calls| && s.calls[x.agent.call].pc.Finishing?)
          && (x.response.body.Data? ==> s.calls[x.call].completed == Some(x.response)))
    && (forall x, y :: x in s.flight && y in s.flight && x.call == y.call ==> x == y)
    && (forall x, y :: x in s.flight && y in s.flight && x.agent.Caller? && x.agent == y.agent ==> x == y)
  }

  /** Once allocated, a channel is in the table, or about to be sent to, or was sent to: always exactly one of them. */
  ghost predicate Accounted(s: State, c: nat)
    requires c < |s.calls|
  {
    var call := s.calls[c];
    && call.sent <= 1
    && (Registered(s, c) ==> MayBeRegistered(call.pc) && !InFlight(s, c) && call.sent == 0)
    && (InFlight(s, c) ==> call.sent == 0)
    && (call.enrolled <==> Registered(s, c) || InFlight(s, c) || call.sent == 1)
  }

  predicate HasGot(call: Call) {
    call.pc.Returned? && call.pc.out.Got?
  }

  /** What was sent is in the slot until the call receives it, and is what the call returns. */
  predicate SlotOk(call: Call) {
    && (call.sent == 0 ==> call.slot.None? && !HasGot(call))
    && (call.sent == 1 ==> call.slot.Some? || HasGot(call))
    && (call.slot.Some? ==> !HasGot(call) && OwnResponse(call, call.slot.value))
    && (HasGot(call) ==> OwnResponse(call, call.pc.out.response))
  }

  /** A response with the call's own ID; one with data is what the reader took for this call. */
  predicate OwnResponse(call: Call, r: Response) {
    r.id == call.id && (r.body.Data? ==> call.completed == Some(r))
  }

  predicate PcOk(call: Call, reader: ReaderPc) {
    && (MayBeRegistered(call.pc) || call.pc.Finishing? ==> call.enrolled)
    && (call.pc in {Entered, Open, Returned(Refused), Returned(IdBusy)} ==> !call.enrolled)
    && (call.pc.Cancelling? || call.pc.Finishing? ==> Excused(call.pc.out) || (call.pc.out.ReaderGone? && reader.Gone?))
    && (call.pc.Draining? ==> reader.Gone?)
    && (call.pc.Cancelling? || call.pc.Finishing? || call.pc.Returned? ==>
          (call.pc.out.ContextEnded? ==> call.ended) && (call.pc.out.SendError? ==> call.failed))
  }

  /** The outcomes of a call whose context ended or whose send failed. */
  predicate Excused(out: Outcome) {
    out.ContextEnded? || out.SendError?
  }

  /** What the reader took for a call is not lost on the way, and the call returns nothing else instead. */
  ghost predicate CompletedOk(s: State, c: nat)
    requires c < |s.calls|
  {
    var call := s.calls[c];
    call.completed.Some? ==>
      var r := call.completed.value;
      && call.enrolled && !Registered(s, c) && r.body.Data?
      && (Send(Reader, c, r) in s.flight || call.slot == Some(r) || call.pc == Returned(Got(r)))
      && (call.pc.Cancelling? || call.pc.Finishing? || call.pc.Returned? ==> Excused(call.pc.out) || call.pc.out == Got(r))
  }

  ghost predicate CallOk(s: State, c: nat)
    requires c < |s.calls|
  {
    Accounted(s, c) && SlotOk(s.calls[c]) && PcOk(s.calls[c], s.reader) && CompletedOk(s, c) && s.calls[c].id == IdAt(c)
  }

  ghost predicate Inv(s: State) {
    && TableOk(s)
    && FlightOk(s)
    && (forall c :: 0 <= c < |s.calls| ==> CallOk(s, c))
    && s.nextId == (if s.calls == [] then 0 else IdAt(|s.calls| - 1))
  }

  /** A call that a step leaves alone stays in order. */
  lemma Untouched(s: State, t: State, d: nat)
    requires d < |s.calls| <= |t.calls| && t.calls[d] == s.calls[d] && CallOk(s, d)
    requires t.flight == s.flight && t.reader == s.reader
    requires Registered(t, d) <==> Registered(s, d)
    ensures CallOk(t, d)
  {
    hide IdAt, SlotOk, PcOk;
  }

  lemma BeginKeeps(s: State, t: State)
    requires Inv(s) && Next(s, Begin) == Some(t)
    ensures Inv(t)
  {
    hide IdAt, Successor, CallOk;
    NextAfter(if s.calls == [] then 0 else |s.calls| - 1);
    assert TableOk(t);
    forall c | 0 <= c < |t.calls|
      ensures CallOk(t, c)
    {
      if c < |s.calls| {
        Untouched(s, t, c);
      } else {
        NewCall(t, c);
      }
    }
  }

  lemma NewCall(t: State, c: nat)
    requires c < |t.calls| && t.calls[c] == Call(IdAt(c), false, Entered, None, false, false, 0, None)
    requires !InFlight(t, c) && !Registered(t, c)
    ensures CallOk(t, c)
  {
    hide IdAt;
  }

  /** What a step may change in a call without touching the table or the sends under way. */
  ghost predicate MayBecome(s: State, c: nat, call: Call)
    requires c < |s.calls|
  {
    var was := s.calls[c];
    && call.id == was.id && call.enrolled == was.enrolled && call.sent == was.sent && call.completed == was.completed
    && SlotOk(call) && PcOk(call, s.reader)
    && (Registered(s, c) ==> MayBeRegistered(call.pc))
    && (was.pc.Finishing? ==> call.pc.Finishing? || Quiet(s, Caller(c)))
    && (call.completed.Some? ==>
          var r := call.completed.value;
          && (call.slot == was.slot || call.pc == Returned(Got(r)))
          && (was.pc != Returned(Got(r)) || call.pc == was.pc)
          && (call.pc.Cancelling? || call.pc.Finishing? || call.pc.Returned? ==> Excused(call.pc.out) || call.pc.out == Got(r)))
  }

  lemma UpdateKeeps(s: State, c: nat, call: Call, t: State)
    requires Inv(s) && c < |s.calls| && MayBecome(s, c, call)
    requires t == s.(calls := s.calls[c := call])
    ensures Inv(t)
  {
    hide IdAt, SlotOk, PcOk, CallOk;
    assert CallOk(s, c);
    forall d | 0 <= d < |t.calls|
      ensures CallOk(t, d)
    {
      if d != c {
        Untouched(s, t, d);
      } else {
        UpdatedCall(s, c, call, t);
      }
    }
  }

  lemma UpdatedCall(s: State, c: nat, call: Call, t: State)
    requires c < |s.calls| && CallOk(s, c) && MayBecome(s, c, call)
    requires t == s.(calls := s.calls[c := call])
    ensures CallOk(t, c)
  {
    hide IdAt, SlotOk, PcOk;
    assert Registered(t, c) == Registered(s, c);
    assert InFlight(t, c) == InFlight(s, c);
  }

  /** The steps of a call that move it from one place to the next. */
  lemma MoveKeeps(s: State, step: Step, t: State)
    requires step.EndContext? || step.CheckClosed? || step.SendOk?
    requires Inv(s) && Next(s, step) == Some(t)
    ensures Inv(t)
  {
    hide IdAt, Successor, Inv, FlightOk, TableOk;
    CallIsOk(s, step.c);
    UpdateKeeps(s, step.c, t.calls[step.c], t);
  }

  /** The steps with which a call stops waiting for a response. */
  lemma TurnKeeps(s: State, step: Step, t: State)
    requires step.SendFailed? || step.SeeContextEnd? || step.SeeReaderDone?
    requires Inv(s) && Next(s, step) == Some(t)
    ensures Inv(t)
  {
    hide IdAt, Successor, Inv, FlightOk, TableOk;
    CallIsOk(s, step.c);
    UpdateKeeps(s, step.c, t.calls[step.c], t);
  }

  /** The steps with which a call makes up its mind what to return. */
  lemma SettleKeeps(s: State, step: Step, t: State)
    requires step.Receive? || step.FindNothing? || step.Return?
    requires Inv(s) && Next(s, step) == Some(t)
    ensures Inv(t)
  {
    hide IdAt, Successor, Inv, FlightOk, TableOk;
    CallIsOk(s, step.c);
    if step.FindNothing? {
      NothingTaken(s, step.c);
    } else if step.Receive? && s.calls[step.c].completed.Some? {
      SlotIsTaken(s, step.c);
    }
    UpdateKeeps(s, step.c, t.calls[step.c], t);
  }

  /** When the reader took something for a call, that is what its slot holds. */
  lemma SlotIsTaken(s: State, c: nat)
    requires c < |s.calls| && CallOk(s, c) && s.calls[c].slot.Some? && s.calls[c].completed.Some?
    ensures s.calls[c].completed == s.calls[c].slot
  {
    hide IdAt;
    assert !InFlight(s, c);
  }

  lemma CallIsOk(s: State, c: nat)
    requires Inv(s) && c < |s.calls|
    ensures CallOk(s, c)
  {
  }

  /** When the reader has gone and the slot is empty, the reader took nothing for this call. */
  lemma NothingTaken(s: State, c: nat)
    requires Inv(s) && At(s, c, Draining) && s.calls[c].slot.None?
    ensures s.calls[c].completed.None?
  {
    assert CallOk(s, c);
  }

  lemma EnrolKeeps(s: State, c: nat, t: State)
    requires Inv(s) && At(s, c, Open) && s.calls[c].id !in s.pending
    requires t == Enrolled(s, c)
    ensures Inv(t)
  {
    hide IdAt, CallOk, FlightOk;
    EnrolFlight(s, c, t);
    assert TableOk(t);
    forall d | 0 <= d < |t.calls|
      ensures CallOk(t, d)
    {
      CallIsOk(s, d);
      if d != c {
        Untouched(s, t, d);
      } else {
        EnrolledCall(s, c, t);
      }
    }
  }

  lemma EnrolFlight(s: State, c: nat, t: State)
    requires FlightOk(s) && At(s, c, Open) && t == Enrolled(s, c)
    ensures FlightOk(t)
  {
  }

  lemma EnrolledCall(s: State, c: nat, t: State)
    requires c < |s.calls| && CallOk(s, c) && s.calls[c].pc == Open
    requires c < |t.calls| && t.calls[c] == s.calls[c].(pc := Sending, enrolled := true) && t.flight == s.flight
    requires Registered(t, c)
    ensures CallOk(t, c)
  {
    hide IdAt;
    assert InFlight(t, c) == InFlight(s, c);
  }

  lemma AllocateKeeps(s: State, c: nat, t: State)
    requires Inv(s) && Next(s, Allocate(c)) == Some(t)
    ensures Inv(t)
  {
    hide IdAt, Successor, Inv, FlightOk, TableOk;
    CallIsOk(s, c);
    if s.calls[c].ended || s.calls[c].id in s.pending {
      UpdateKeeps(s, c, t.calls[c], t);
    } else {
      EnrolKeeps(s, c, t);
    }
  }

  // ----- sends

  lemma DeliverKeeps(s: State, x: Send, t: State)
    requires Inv(s) && x in s.flight && x.call < |s.calls| && t == Delivered(s, x)
    ensures Inv(t)
  {
    hide IdAt, CallOk, FlightOk;
    DeliverFlight(s, x, t);
    forall d | 0 <= d < |t.calls|
      ensures CallOk(t, d)
    {
      CallIsOk(s, d);
      if d == x.call {
        DeliveredCall(s, x, t);
      } else {
        SameSends(s, t, d);
      }
    }
  }

  lemma DeliverFlight(s: State, x: Send, t: State)
    requires FlightOk(s) && x in s.flight && x.call < |s.calls| && t == Delivered(s, x)
    ensures FlightOk(t) && x !in t.flight
    ensures forall y :: y in t.flight <==> y in s.flight && y != x
  {
    assert s.flight[x] == 1;
    assert forall y :: y in t.flight <==> y in s.flight && y != x;
  }

  /** A call is in order as long as its own entry and the sends to it are the same. */
  lemma SameSends(s: State, t: State, d: nat)
    requires d < |s.calls| <= |t.calls| && t.calls[d] == s.calls[d] && CallOk(s, d)
    requires t.reader.Gone? == s.reader.Gone?
    requires Registered(t, d) <==> Registered(s, d)
    requires forall y :: y in t.flight && y.call == d <==> y in s.flight && y.call == d
    ensures CallOk(t, d)
  {
    hide IdAt, SlotOk;
    assert InFlight(t, d) == InFlight(s, d);
  }

  lemma DeliveredCall(s: State, x: Send, t: State)
    requires Inv(s) && x in s.flight && x.call < |s.calls| && t == Delivered(s, x)
    ensures CallOk(t, x.call)
  {
    hide IdAt;
    var c := x.call;
    assert CallOk(s, c);
    assert InFlight(s, c);
    assert !InFlight(t, c);
  }

  /** What Take does to one call: the one it hits, the one that takes, or both. */
  predicate TakenFrom(was: Call, now: Call, hit: bool, own: bool, r: Response) {
    && (own ==> was.pc.Cancelling?)
    && now == was.(
          pc := if own then Finishing(was.pc.out) else was.pc,
          completed := if hit && r.body.Data? then Some(r) else was.completed)
  }

  ghost predicate Takes(s: State, agent: Agent, c: nat, r: Response, t: State) {
    && |t.calls| == |s.calls|
    && r.id in s.pending && s.pending[r.id] == c
    && t.pending == s.pending - {r.id}
    && t.flight == s.flight + multiset{Send(agent, c, r)}
    && t.reader == s.reader && t.nextId == s.nextId
    && (forall d :: 0 <= d < |s.calls| ==> TakenFrom(s.calls[d], t.calls[d], d == c, agent == Caller(d), r))
    && (agent.Reader? ==> !s.reader.Gone?)
    && (agent.Caller? ==> agent.call < |s.calls| && s.calls[agent.call].id == r.id)
    && (r.body.Data? ==> agent.Reader?)
  }

  lemma TakeKeeps(s: State, agent: Agent, c: nat, r: Response, t: State)
    requires Inv(s) && Takes(s, agent, c, r, t)
    ensures Inv(t)
  {
    hide IdAt, CallOk;
    assert c < |s.calls| && s.calls[c].id == r.id;
    CallIsOk(s, c);
    TakeFlight(s, agent, c, r, t);
    forall d | 0 <= d < |t.calls|
      ensures CallOk(t, d)
    {
      CallIsOk(s, d);
      if d == c {
        HitCall(s, agent, c, r, t);
      } else {
        MissedCall(s, agent, c, r, t, d);
      }
    }
  }

  lemma TakeFlight(s: State, agent: Agent, c: nat, r: Response, t: State)
    requires Inv(s) && Takes(s, agent, c, r, t)
    ensures TableOk(t) && FlightOk(t)
  {
    hide IdAt, CallOk, FlightOk;
    var x := Send(agent, c, r);
    CallIsOk(s, c);
    NotYetInFlight(s, c);
    if agent.Caller? {
      NoOwnSends(s, agent.call);
    }
    OneMoreSend(s, x, t);
  }

  lemma NotYetInFlight(s: State, c: nat)
    requires c < |s.calls| && CallOk(s, c) && Registered(s, c)
    ensures !InFlight(s, c)
  {
  }

  /** A send to a channel nothing else is on its way to, by somebody who has no other as a caller. */
  lemma OneMoreSend(s: State, x: Send, t: State)
    requires FlightOk(s) && Takes(s, x.agent, x.call, x.response, t) && x.call < |s.calls|
    requires s.calls[x.call].id == x.response.id && !InFlight(s, x.call)
    requires x.agent.Caller? ==> Quiet(s, x.agent)
    ensures FlightOk(t)
  {
    assert x !in s.flight;
    assert forall y :: y in t.flight <==> y in s.flight || y == x;
    assert forall y :: y in s.flight ==> t.flight[y] == s.flight[y];
  }

  lemma HitCall(s: State, agent: Agent, c: nat, r: Response, t: State)
    requires Takes(s, agent, c, r, t) && c < |s.calls| && s.calls[c].id == r.id && CallOk(s, c)
    ensures CallOk(t, c)
  {
    hide IdAt;
    var x := Send(agent, c, r);
    assert x in t.flight;
    assert InFlight(t, c);
  }

  lemma MissedCall(s: State, agent: Agent, c: nat, r: Response, t: State, d: nat)
    requires Takes(s, agent, c, r, t)
    requires d < |s.calls| && d != c && CallOk(s, d)
    ensures CallOk(t, d)
  {
    hide IdAt;
    assert TakenFrom(s.calls[d], t.calls[d], false, agent == Caller(d), r);
    assert Registered(t, d) == Registered(s, d);
    assert InFlight(t, d) == InFlight(s, d);
  }

  lemma CancelOwnKeeps(s: State, c: nat, t: State)
    requires Inv(s) && Next(s, CancelOwn(c)) == Some(t)
    ensures Inv(t)
  {
    hide IdAt, Successor, Inv, FlightOk, TableOk;
    CallIsOk(s, c);
    var call := s.calls[c];
    if call.id in s.pending {
      TakeKeeps(s, Caller(c), s.pending[call.id], Response(call.id, Failure(call.pc.reason)), t);
    } else {
      UpdateKeeps(s, c, t.calls[c], t);
    }
  }

  lemma DispatchKeeps(s: State, id: Uint32, kind: int, bytes: seq<Byte>, t: State)
    requires Inv(s) && Next(s, Dispatch(id, kind, bytes)) == Some(t)
    ensures Inv(t)
  {
    hide IdAt, Successor, CallOk, FlightOk;
    if id in s.pending {
      TakeKeeps(s, Reader, s.pending[id], Response(id, Data(kind, bytes)), t);
    }
  }

  // ----- cancelling everything

  ghost predicate Flushed(s: State, agent: Agent, reason: Reason, t: State) {
    && t.pending == map[] && t.calls == s.calls && t.nextId == s.nextId
    && t.flight == s.flight + multiset(Flushes(agent, s.pending, reason))
    && t.reader.Gone? == s.reader.Gone?
    && !agent.Caller? && (agent.Reader? ==> !s.reader.Gone?)
  }

  lemma FlushKeeps(s: State, agent: Agent, reason: Reason, t: State)
    requires Inv(s) && Flushed(s, agent, reason, t)
    ensures Inv(t)
  {
    hide IdAt, CallOk, FlightOk;
    FlushFlight(s, agent, reason, t);
    forall d | 0 <= d < |t.calls|
      ensures CallOk(t, d)
    {
      CallIsOk(s, d);
      FlushedCall(s, agent, reason, t, d);
    }
  }

  lemma FlushSend(s: State, agent: Agent, reason: Reason, x: Send)
    requires Inv(s) && x in Flushes(agent, s.pending, reason)
    ensures x.call < |s.calls| && x !in s.flight && !InFlight(s, x.call)
    ensures x == Send(agent, x.call, Response(s.calls[x.call].id, Failure(reason)))
  {
    hide IdAt, FlightOk;
    CallIsOk(s, x.call);
  }

  lemma FlushFlight(s: State, agent: Agent, reason: Reason, t: State)
    requires Inv(s) && Flushed(s, agent, reason, t)
    ensures FlightOk(t)
  {
    hide IdAt, CallOk, Flushes;
    var news := Flushes(agent, s.pending, reason);
    forall x | x in news
      ensures x.call < |s.calls| && x !in s.flight && !InFlight(s, x.call)
      ensures x == Send(agent, x.call, Response(s.calls[x.call].id, Failure(reason)))
    {
      FlushSend(s, agent, reason, x);
    }
    assert forall x :: x in t.flight <==> x in s.flight || x in news;
  }

  lemma FlushedCall(s: State, agent: Agent, reason: Reason, t: State, d: nat)
    requires TableOk(s) && Flushed(s, agent, reason, t)
    requires d < |s.calls| && CallOk(s, d)
    ensures CallOk(t, d)
  {
    hide IdAt, SlotOk;
    var news := Flushes(agent, s.pending, reason);
    assert forall x :: x in t.flight <==> x in s.flight || x in news;
    if Registered(s, d) {
      var x := Send(agent, d, Response(s.calls[d].id, Failure(reason)));
      assert x in news && x in t.flight;
      assert InFlight(t, d);
    } else {
      assert InFlight(t, d) == InFlight(s, d);
    }
  }

  // ----- the reader's own progress

  lemma ReaderMoveKeeps(s: State, r: ReaderPc, t: State)
    requires Inv(s) && !s.reader.Gone? && t == s.(reader := r)
    requires r.Gone? ==> Quiet(s, Reader)
    ensures Inv(t)
  {
    hide IdAt, CallOk;
    forall d | 0 <= d < |t.calls|
      ensures CallOk(t, d)
    {
      CallIsOk(s, d);
      ReaderMoveCall(s, t, d);
    }
  }

  lemma ReaderMoveCall(s: State, t: State, d: nat)
    requires d < |s.calls| && CallOk(s, d) && !s.reader.Gone? && t == s.(reader := t.reader)
    ensures CallOk(t, d)
  {
    hide IdAt, SlotOk;
    assert InFlight(t, d) == InFlight(s, d);
  }

  /** Every step keeps the invariant. */
  lemma StepKeeps(s: State, step: Step, t: State)
    requires Inv(s) && Next(s, step) == Some(t)
    ensures Inv(t)
  {
    hide Inv;
    match step
    case Begin => BeginKeeps(s, t);
    case Allocate(c) => AllocateKeeps(s, c, t);
    case CancelOwn(c) => CancelOwnKeeps(s, c, t);
    case Deliver(x) => DeliverKeeps(s, x, t);
    case Dispatch(id, kind, bytes) => DispatchKeeps(s, id, kind, bytes, t);
    case ReaderCancelAll => FlushKeeps(s, Reader, ReaderStopped, t);
    case CloserCancelAll => FlushKeeps(s, Closer, AssociationClosed, t);
    case StopReading => ReaderMoveKeeps(s, Stopping, t);
    case Conclude => ReaderMoveKeeps(s, Leaving, t);
    case ReaderExit => ReaderMoveKeeps(s, Gone, t);
    case StartClose => CloseKeeps(s, t);
    case Receive(_) => SettleKeeps(s, step, t);
    case FindNothing(_) => SettleKeeps(s, step, t);
    case Return(_) => SettleKeeps(s, step, t);
    case SendFailed(_) => TurnKeeps(s, step, t);
    case SeeContextEnd(_) => TurnKeeps(s, step, t);
    case SeeReaderDone(_) => TurnKeeps(s, step, t);
    case _ => MoveKeeps(s, step, t);
  }

  lemma CloseKeeps(s: State, t: State)
    requires Inv(s) && Next(s, StartClose) == Some(t)
    ensures Inv(t)
  {
    hide IdAt, CallOk;
    forall d | 0 <= d < |t.calls|
      ensures CallOk(t, d)
    {
      CallIsOk(s, d);
      Untouched(s, t, d);
    }
  }

  lemma {:induction false} RunKeeps(s: State, steps: seq<Step>, t: State)
    requires Inv(s) && Run(s, steps) == Some(t)
    ensures Inv(t)
    decreases |steps|
  {
    hide Inv, Next;
    if steps != [] {
      StepKeeps(s, steps[0], Next(s, steps[0]).value);
      RunKeeps(Next(s, steps[0]).value, steps[1..], t);
    }
  }

  ghost predicate Reachable(s: State) {
    exists steps :: Run(Init(), steps) == Some(s)
  }

  lemma ReachableIsOk(s: State)
    requires Reachable(s)
    ensures Inv(s)
  {
    hide Inv;
    var steps :| Run(Init(), steps) == Some(s);
    InitIsOk();
    RunKeeps(Init(), steps, s);
  }

  lemma InitIsOk()
    ensures Inv(Init())
  {
  }

  // ----- safety in every reachable state

  /** No send ever blocks: its channel is empty when the send is due. */
  lemma NeverBlocks(s: State, x: Send)
    requires Reachable(s) && x in s.flight
    ensures Next(s, Deliver(x)).Some?
  {
    ReachableIsOk(s);
    assert CallOk(s, x.call);
    assert InFlight(s, x.call);
  }

  /** A channel is sent to at most once, and until then exactly one party still holds it. */
  lemma SentAtMostOnce(s: State, c: nat)
    requires Reachable(s) && c < |s.calls|
    ensures s.calls[c].sent <= 1
    ensures s.calls[c].enrolled ==>
              || (Registered(s, c) && !InFlight(s, c) && s.calls[c].sent == 0)
              || (!Registered(s, c) && InFlight(s, c) && s.calls[c].sent == 0)
              || (!Registered(s, c) && !InFlight(s, c) && s.calls[c].sent == 1)
    ensures forall x, y :: x in s.flight && y in s.flight && x.call == y.call == c ==> x == y && s.flight[x] == 1
  {
    ReachableIsOk(s);
    assert CallOk(s, c);
  }

  /** Until the counter has gone through all IDs, no two calls share one and none is zero. */
  lemma IdsAreDistinct(s: State, c: nat, d: nat)
    requires Reachable(s) && |s.calls| <= ID_COUNT && c < |s.calls| && d < |s.calls|
    ensures s.calls[c].id != 0
    ensures s.calls[c].id == s.calls[d].id <==> c == d
  {
    hide SlotOk, PcOk, CompletedOk, Accounted;
    ReachableIsOk(s);
    assert CallOk(s, c) && CallOk(s, d);
  }

  /** A call that has returned has left nothing in the table; its ID is free as long as IDs are distinct. */
  lemma ReturnedIsNotPending(s: State, c: nat)
    requires Reachable(s) && c < |s.calls| && s.calls[c].pc.Returned?
    ensures forall id :: id in s.pending ==> s.pending[id] != c
    ensures |s.calls| <= ID_COUNT ==> s.calls[c].id !in s.pending
  {
    hide IdAt;
    ReachableIsOk(s);
    assert CallOk(s, c);
    if |s.calls| <= ID_COUNT && s.calls[c].id in s.pending {
      IdsAreDistinct(s, c, s.pending[s.calls[c].id]);
    }
  }

  /** With distinct IDs, registering one never fails. */
  lemma IdIsFree(s: State, c: nat)
    requires Reachable(s) && |s.calls| <= ID_COUNT && At(s, c, Open)
    ensures s.calls[c].id !in s.pending
  {
    hide IdAt;
    ReachableIsOk(s);
    assert CallOk(s, c);
    if s.calls[c].id in s.pending {
      IdsAreDistinct(s, c, s.pending[s.calls[c].id]);
    }
  }

  /** What a call returns carries its own ID, and data is what the reader took for this very call. */
  lemma NoMisdelivery(s: State, c: nat, r: Response)
    requires Reachable(s) && At(s, c, Returned(Got(r)))
    ensures r.id == s.calls[c].id
    ensures r.body.Data? ==> s.calls[c].completed == Some(r)
    ensures |s.calls| <= ID_COUNT ==> forall d :: 0 <= d < |s.calls| && s.calls[d].id == r.id ==> d == c
  {
    hide IdAt;
    ReachableIsOk(s);
    assert CallOk(s, c);
    if |s.calls| <= ID_COUNT {
      forall d | 0 <= d < |s.calls| && s.calls[d].id == r.id
        ensures d == c
      {
        IdsAreDistinct(s, c, d);
      }
    }
  }

  /** If the reader took a response for a call, the call returns it, unless its context ended or its send failed. */
  lemma NoLostResponse(s: State, c: nat)
    requires Reachable(s) && c < |s.calls| && s.calls[c].pc.Returned? && s.calls[c].completed.Some?
    ensures var call := s.calls[c];
            || call.pc.out == Got(call.completed.value)
            || (call.pc.out.ContextEnded? && call.ended)
            || (call.pc.out.SendError? && call.failed)
  {
    ReachableIsOk(s);
    assert CallOk(s, c);
  }

  // ----- where the data comes from

  predicate IsMove(step: Step) {
    || step.EndContext? || step.CheckClosed? || step.SendOk? || step.SendFailed? || step.SeeContextEnd?
    || step.SeeReaderDone? || step.Receive? || step.FindNothing? || step.Return?
  }

  /** Only a dispatch records anything as taken for a call. */
  lemma MovesTakeNothing(s: State, step: Step, t: State, c: nat)
    requires IsMove(step) && Next(s, step) == Some(t)
    requires c < |t.calls|
    ensures c < |s.calls| && t.calls[c].completed == s.calls[c].completed
  {
    hide Quiet;
  }

  lemma OthersTakeNothing(s: State, step: Step, t: State, c: nat)
    requires !IsMove(step) && !step.Dispatch? && !step.Begin? && Next(s, step) == Some(t)
    requires c < |t.calls|
    ensures c < |s.calls| && t.calls[c].completed == s.calls[c].completed
  {
    hide Quiet, Take, TakeAll;
  }

  lemma StepProvenance(s: State, step: Step, t: State, c: nat, r: Response)
    requires Next(s, step) == Some(t) && c < |t.calls| && t.calls[c].completed == Some(r)
    ensures (c < |s.calls| && s.calls[c].completed == Some(r)) || (r.body.Data? && step == Dispatch(r.id, r.body.kind, r.body.bytes))
  {
    hide Quiet, Flushes, Successor;
    if IsMove(step) {
      MovesTakeNothing(s, step, t, c);
    } else if !step.Dispatch? && !step.Begin? {
      OthersTakeNothing(s, step, t, c);
    }
  }

  /** Data a call returns came in a PDU with the call's invoke ID. */
  lemma {:induction false} RunProvenance(s: State, steps: seq<Step>, t: State, c: nat, r: Response)
    requires Run(s, steps) == Some(t) && c < |t.calls| && t.calls[c].completed == Some(r)
    ensures (c < |s.calls| && s.calls[c].completed == Some(r)) || (r.body.Data? && Dispatch(r.id, r.body.kind, r.body.bytes) in steps)
    decreases |steps|
  {
    hide Next;
    if steps != [] {
      var u := Next(s, steps[0]).value;
      RunProvenance(u, steps[1..], t, c, r);
      if c < |u.calls| && u.calls[c].completed == Some(r) {
        StepProvenance(s, steps[0], u, c, r);
      }
    }
  }

  lemma DataWasReceived(steps: seq<Step>, s: State, c: nat, r: Response)
    requires Run(Init(), steps) == Some(s) && At(s, c, Returned(Got(r))) && r.body.Data?
    ensures Dispatch(s.calls[c].id, r.body.kind, r.body.bytes) in steps
  {
    hide Run, Inv;
    assert Reachable(s);
    NoMisdelivery(s, c, r);
    RunProvenance(Init(), steps, s, c, r);
  }

  // ----- after the reader has gone

  predicate OwnStep(step: Step, c: nat) {
    || step in {Receive(c), SeeContextEnd(c), SeeReaderDone(c), FindNothing(c), CancelOwn(c), Return(c)}
    || (step.Deliver? && step.send.agent == Caller(c))
  }

  /** A call that has sent its request and not yet returned. */
  predicate InProgress(s: State, c: nat) {
    c < |s.calls| && (var pc := s.calls[c].pc; pc.Waiting? || pc.Draining? || pc.Cancelling? || pc.Finishing?)
  }

  ghost function OwnSends(s: State, c: nat): set<Send> {
    set x | x in s.flight && x.agent == Caller(c)
  }

  /** How many of its own steps a call may still need. */
  ghost function Rank(s: State, c: nat): nat
    requires c < |s.calls|
  {
    match s.calls[c].pc
    case Waiting => 5
    case Draining => 4
    case Cancelling(_, _) => 3
    case Finishing(_) => 1 + |OwnSends(s, c)|
    case _ => 0
  }

  lemma OwnSendsAfter(s: State, t: State, c: nat, x: Send)
    requires forall y :: y in t.flight && y.agent == Caller(c) ==> y in s.flight || y == x
    ensures |OwnSends(t, c)| <= |OwnSends(s, c)| + 1
    ensures (x in s.flight || x !in t.flight || x.agent != Caller(c)) ==> |OwnSends(t, c)| <= |OwnSends(s, c)|
  {
    SubsetSize(OwnSends(t, c), OwnSends(s, c) + {x});
    if x in s.flight || x !in t.flight || x.agent != Caller(c) {
      SubsetSize(OwnSends(t, c), OwnSends(s, c));
    }
  }

  lemma SubsetSize<T>(a: set<T>, b: set<T>)
    requires a <= b
    ensures |a| <= |b|
  {
    assert b == a + (b - a);
  }

  /** A send that is delivered is gone. */
  lemma OwnSendDone(s: State, x: Send, t: State, c: nat)
    requires Inv(s) && x in s.flight && x.agent == Caller(c) && x.call < |s.calls| && t == Delivered(s, x)
    ensures |OwnSends(t, c)| < |OwnSends(s, c)|
  {
    hide CallOk;
    DeliverFlight(s, x, t);
    assert OwnSends(t, c) == OwnSends(s, c) - {x};
    assert x in OwnSends(s, c);
  }

  lemma NoOwnSends(s: State, c: nat)
    requires Inv(s) && c < |s.calls| && !s.calls[c].pc.Finishing?
    ensures OwnSends(s, c) == {} && Quiet(s, Caller(c))
  {
  }

  /** A step of the call itself lowers its rank; what others do in between cannot raise it. */
  lemma StepRank(s: State, step: Step, t: State, c: nat)
    requires Inv(s) && InProgress(s, c) && Next(s, step) == Some(t)
    ensures c < |t.calls| && (OwnStep(step, c) ==> Rank(t, c) < Rank(s, c)) && Rank(t, c) <= Rank(s, c)
    ensures InProgress(t, c) || t.calls[c].pc.Returned?
  {
    hide Inv;
    if OwnStep(step, c) {
      OwnStepRank(s, step, t, c);
    } else {
      OtherStepRank(s, step, t, c);
    }
  }

  lemma OwnStepRank(s: State, step: Step, t: State, c: nat)
    requires Inv(s) && InProgress(s, c) && Next(s, step) == Some(t) && OwnStep(step, c)
    ensures c < |t.calls| && Rank(t, c) < Rank(s, c)
    ensures InProgress(t, c) || t.calls[c].pc.Returned?
  {
    hide Inv, FlightOk, CallOk, OwnSends, Take;
    if step.Deliver? {
      DeliverIsFinishing(s, step.send, c);
      OwnSendDone(s, step.send, t, c);
    } else if step.CancelOwn? {
      CancelOwnRank(s, t, c);
    }
  }

  lemma CancelOwnRank(s: State, t: State, c: nat)
    requires Inv(s) && Next(s, CancelOwn(c)) == Some(t)
    ensures c < |t.calls| && t.calls[c].pc.Finishing? && |OwnSends(t, c)| <= 1
  {
    hide Inv, OwnSends;
    var call := s.calls[c];
    NoOwnSends(s, c);
    var x := Send(Caller(c), if call.id in s.pending then s.pending[call.id] else 0, Response(call.id, Failure(call.pc.reason)));
    OwnSendsAfter(s, t, c, x);
  }

  lemma DeliverIsFinishing(s: State, x: Send, c: nat)
    requires Inv(s) && x in s.flight && x.agent == Caller(c)
    ensures c < |s.calls| && s.calls[c].pc.Finishing?
  {
  }

  lemma OtherStepRank(s: State, step: Step, t: State, c: nat)
    requires InProgress(s, c) && Next(s, step) == Some(t) && !OwnStep(step, c)
    ensures c < |t.calls| && t.calls[c].pc == s.calls[c].pc && Rank(t, c) <= Rank(s, c)
  {
    hide Next, OwnSends;
    OtherStepPc(s, step, t, c);
    OtherStepSends(s, step, t, c);
    SubsetSize(OwnSends(t, c), OwnSends(s, c));
  }

  lemma OtherStepPc(s: State, step: Step, t: State, c: nat)
    requires InProgress(s, c) && Next(s, step) == Some(t) && !OwnStep(step, c)
    ensures c < |t.calls| && t.calls[c].pc == s.calls[c].pc
  {
    hide Quiet, Take, TakeAll, Successor;
    if !IsMove(step) {
      OtherMovePc(s, step, t, c);
    }
  }

  lemma OtherMovePc(s: State, step: Step, t: State, c: nat)
    requires InProgress(s, c) && Next(s, step) == Some(t) && !OwnStep(step, c) && !IsMove(step)
    ensures c < |t.calls| && t.calls[c].pc == s.calls[c].pc
  {
    hide Quiet, Take, TakeAll, Successor;
  }

  lemma MovesSendNothing(s: State, step: Step, t: State)
    requires IsMove(step) && Next(s, step) == Some(t)
    ensures t.flight == s.flight
  {
    hide Quiet;
  }

  /** Only the call itself starts sends of its own. */
  lemma OtherStepSends(s: State, step: Step, t: State, c: nat)
    requires Next(s, step) == Some(t) && step != CancelOwn(c)
    ensures OwnSends(t, c) <= OwnSends(s, c)
  {
    hide Quiet, Successor, At, Take;
    if IsMove(step) {
      MovesSendNothing(s, step, t);
    } else {
      forall x | x in t.flight && x.agent == Caller(c)
        ensures x in s.flight
      {
        match step
        case CancelOwn(d) => TakeAdds(s, Caller(d), s.calls[d].id, Failure(s.calls[d].pc.reason), x);
        case Dispatch(id, kind, bytes) => TakeAdds(Record(s, id, Response(id, Data(kind, bytes))), Reader, id, Data(kind, bytes), x);
        case _ =>
      }
    }
  }

  lemma TakeAdds(s: State, agent: Agent, id: Uint32, body: Body, x: Send)
    requires x in Take(s, agent, id, body).flight && x.agent != agent
    ensures x in s.flight
  {
  }

  /** In whatever state the others have left it, a call in progress has a step of its own to take. */
  lemma OwnStepEnabled(s: State, c: nat) returns (step: Step)
    requires Inv(s) && InProgress(s, c) && s.reader.Gone?
    ensures OwnStep(step, c) && Next(s, step).Some?
  {
    hide Inv;
    match s.calls[c].pc
    case Waiting => step := SeeReaderDone(c);
    case Draining => step := if s.calls[c].slot.Some? then Receive(c) else FindNothing(c);
    case Cancelling(_, _) => step := CancelOwn(c);
    case Finishing(_) =>
      if Quiet(s, Caller(c)) {
        step := Return(c);
      } else {
        var x :| x in s.flight && x.agent == Caller(c);
        SlotIsEmpty(s, x);
        step := Deliver(x);
      }
  }

  lemma SlotIsEmpty(s: State, x: Send)
    requires Inv(s) && x in s.flight
    ensures x.call < |s.calls| && s.calls[x.call].slot.None?
  {
    CallIsOk(s, x.call);
    assert InFlight(s, x.call);
  }

  function OwnCount(steps: seq<Step>, c: nat): nat
  {
    if steps == [] then 0 else (if OwnStep(steps[0], c) then 1 else 0) + OwnCount(steps[1..], c)
  }

  lemma ReaderStaysGone(s: State, step: Step, t: State)
    requires Next(s, step) == Some(t) && s.reader.Gone?
    ensures t.reader.Gone?
  {
    hide Quiet, Successor;
  }

  /**
   After the reader has gone, in every run whatever: as long as a call has not returned it is in
   progress with a step of its own enabled, and it takes at most as many of these as its rank says.
   */
  lemma {:induction false} RunRank(s: State, steps: seq<Step>, t: State, c: nat)
    requires Inv(s) && InProgress(s, c) && s.reader.Gone? && Run(s, steps) == Some(t)
    ensures Inv(t) && t.reader.Gone? && c < |t.calls|
    ensures InProgress(t, c) || t.calls[c].pc.Returned?
    ensures InProgress(t, c) ==> Rank(t, c) + OwnCount(steps, c) <= Rank(s, c)
    decreases |steps|
  {
    hide Inv, Next, OwnStep, Rank;
    if steps != [] {
      var u := Next(s, steps[0]).value;
      StepKeeps(s, steps[0], u);
      StepRank(s, steps[0], u, c);
      ReaderStaysGone(s, steps[0], u);
      if InProgress(u, c) {
        RunRank(u, steps[1..], t, c);
      } else {
        RunKeeps(u, steps[1..], t);
        ReturnedStays(u, steps[1..], t, c);
      }
    }
  }

  lemma {:induction false} ReturnedStays(s: State, steps: seq<Step>, t: State, c: nat)
    requires Run(s, steps) == Some(t) && c < |s.calls| && s.calls[c].pc.Returned? && s.reader.Gone?
    ensures c < |t.calls| && t.calls[c].pc.Returned? && t.reader.Gone?
    decreases |steps|
  {
    hide Next;
    if steps != [] {
      var u := Next(s, steps[0]).value;
      ReturnedStep(s, steps[0], u, c);
      ReaderStaysGone(s, steps[0], u);
      ReturnedStays(u, steps[1..], t, c);
    }
  }

  lemma ReturnedStep(s: State, step: Step, t: State, c: nat)
    requires Next(s, step) == Some(t) && c < |s.calls| && s.calls[c].pc.Returned?
    ensures c < |t.calls| && t.calls[c].pc.Returned?
  {
    hide Quiet, Take, TakeAll, Successor;
    if !IsMove(step) {
      ReturnedMove(s, step, t, c);
    }
  }

  lemma ReturnedMove(s: State, step: Step, t: State, c: nat)
    requires Next(s, step) == Some(t) && c < |s.calls| && s.calls[c].pc.Returned? && !IsMove(step)
    ensures c < |t.calls| && t.calls[c].pc.Returned?
  {
    hide Quiet, Take, TakeAll, Successor;
  }

  /** Waiting calls return: however the others interleave, five steps of its own take a call there, and one is always enabled. */
  lemma CanReturn(s: State, steps: seq<Step>, t: State, c: nat)
    requires Reachable(s) && InProgress(s, c) && s.reader.Gone? && Run(s, steps) == Some(t)
    ensures c < |t.calls|
    ensures t.calls[c].pc.Returned? || (OwnCount(steps, c) < 5 && exists step :: OwnStep(step, c) && Next(t, step).Some?)
  {
    hide Inv, Next, OwnStep, Run;
    ReachableIsOk(s);
    RunRank(s, steps, t, c);
    RankBounds(s, c);
    if InProgress(t, c) {
      var step := OwnStepEnabled(t, c);
      RankBounds(t, c);
    }
  }

  lemma RankBounds(s: State, c: nat)
    requires Inv(s) && InProgress(s, c)
    ensures 1 <= Rank(s, c) <= 5
  {
    hide CallOk;
    if OwnSends(s, c) != {} {
      var x :| x in OwnSends(s, c);
      assert OwnSends(s, c) == {x};
    }
  }
}
