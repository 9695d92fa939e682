/**
 How a call of doConfirmed ends (mms.go, internal/invoke/tracker.go): from every
 reachable state, the run that brings a waiting call its answer, the
 cancellation of its association or the end of its context is enabled, and this
 is what the call returns.
 */
module Exchange {
  import opened Bytes
  import opened Integers
  import opened Results
  import opened Invoke
  import opened Correlation

  // ----- runs, step by step

  lemma RunCons(s: State, step: Step, rest: seq<Step>)
    requires Next(s, step).Some?
    ensures Run(s, [step] + rest) == Run(Next(s, step).value, rest)
  {
    assert ([step] + rest)[1..] == rest;
  }

  lemma RunOne(s: State, step: Step)
    requires Next(s, step).Some?
    ensures Run(s, [step]) == Next(s, step)
  {
    RunCons(s, step, []);
    assert [step] + [] == [step];
  }

  lemma {:induction false} RunAppend(s: State, first: seq<Step>, second: seq<Step>)
    requires Run(s, first).Some?
    ensures Run(s, first + second) == Run(Run(s, first).value, second)
    decreases |first|
  {
    hide Next;
    if first == [] {
      assert first + second == second;
    } else {
      RunAppend(Next(s, first[0]).value, first[1..], second);
      assert (first + second)[1..] == first[1..] + second;
    }
  }

  /** The calls of t are those of s except that call c has taken what came for it and returned. */
  predicate OnlyReturned(s: State, t: State, c: nat, out: Outcome) {
    && c < |s.calls| && |t.calls| == |s.calls|
    && t.calls[c].pc == Returned(out) && t.calls[c].slot.None?
    && forall d :: 0 <= d < |s.calls| && d != c ==> t.calls[d] == s.calls[d]
  }

  /** What is on its way to a waiting call is delivered and returned. */
  lemma DeliverReceive(s: State, x: Send)
    requires Inv(s) && x in s.flight && x.call < |s.calls| && s.calls[x.call].pc.Waiting?
    ensures Run(s, [Deliver(x), Receive(x.call)]).Some?
    ensures var t := Run(s, [Deliver(x), Receive(x.call)]).value;
            && OnlyReturned(s, t, x.call, Got(x.response))
            && t.pending == s.pending && t.flight == s.flight - multiset{x} && t.closed == s.closed
            && t.reader == s.reader
  {
    hide Inv;
    SlotIsEmpty(s, x);
    var d := Next(s, Deliver(x)).value;
    RunOne(d, Receive(x.call));
    RunCons(s, Deliver(x), [Receive(x.call)]);
    assert [Deliver(x)] + [Receive(x.call)] == [Deliver(x), Receive(x.call)];
  }

  // ----- the answer of the peer

  /** A response for a registered call leaves the table at once and is on its way to that call. */
  lemma DispatchTakes(s: State, c: nat, kind: int, bytes: seq<Byte>)
    requires Inv(s) && s.reader.Reading? && Quiet(s, Reader)
    requires c < |s.calls| && Registered(s, c)
    ensures var i := s.calls[c].id;
            var r := Response(i, Data(kind, bytes));
            && Next(s, Dispatch(i, kind, bytes)).Some?
            && var t := Next(s, Dispatch(i, kind, bytes)).value;
            && t.pending == s.pending - {i} && t.flight == s.flight + multiset{Send(Reader, c, r)}
            && t.calls == s.calls[c := s.calls[c].(completed := Some(r))] && t.reader == s.reader && t.closed == s.closed
  {
  }

  /**
   In every reachable state, a response the reader gets for a waiting call is delivered to it
   and returned by it, whatever its kind and octets, and its ID is not pending any more.
   */
  lemma AnswerReturns(s: State, c: nat, kind: int, bytes: seq<Byte>)
    requires Reachable(s) && s.reader.Reading? && Quiet(s, Reader)
    requires At(s, c, Waiting) && Registered(s, c)
    ensures var i := s.calls[c].id;
            var r := Response(i, Data(kind, bytes));
            var run := [Dispatch(i, kind, bytes), Deliver(Send(Reader, c, r)), Receive(c)];
            && Run(s, run).Some?
            && OnlyReturned(s, Run(s, run).value, c, Got(r))
            && Run(s, run).value.pending == s.pending - {i}
            && Run(s, run).value.flight == s.flight
  {
    hide Inv, Next, Run;
    ReachableIsOk(s);
    var i := s.calls[c].id;
    var x := Send(Reader, c, Response(i, Data(kind, bytes)));
    DispatchTakes(s, c, kind, bytes);
    var t := Next(s, Dispatch(i, kind, bytes)).value;
    StepKeeps(s, Dispatch(i, kind, bytes), t);
    DeliverReceive(t, x);
    RunCons(s, Dispatch(i, kind, bytes), [Deliver(x), Receive(c)]);
    assert [Dispatch(i, kind, bytes)] + [Deliver(x), Receive(c)] == [Dispatch(i, kind, bytes), Deliver(x), Receive(c)];
  }

  /** A response nobody waits for changes no call, sends nothing and leaves the table alone. */
  lemma UnknownIsIgnored(s: State, id: Uint32, kind: int, bytes: seq<Byte>)
    requires s.reader.Reading? && Quiet(s, Reader) && id !in s.pending
    ensures Next(s, Dispatch(id, kind, bytes)).Some?
    ensures var t := Next(s, Dispatch(id, kind, bytes)).value;
            t.calls == s.calls && t.flight == s.flight && t.pending == s.pending && t.reader == s.reader
  {
  }

  // ----- a whole exchange

  function Starting(c: nat): seq<Step> {
    [Begin, CheckClosed(c), Allocate(c), SendOk(c)]
  }

  /** On an open association a new call gets its ID into the table and waits for its answer. */
  lemma CallStarts(s: State)
    requires Reachable(s) && !s.closed && |s.calls| < ID_COUNT
    ensures var c := |s.calls|;
            && Run(s, Starting(c)).Some?
            && var t := Run(s, Starting(c)).value;
            && At(t, c, Waiting) && Registered(t, c) && t.calls[c].id == IdAt(c) && t.calls[..c] == s.calls
            && t.pending == s.pending[IdAt(c) := c] && IdAt(c) !in s.pending
            && t.flight == s.flight && t.reader == s.reader && t.closed == s.closed
  {
    hide IdAt, Inv, Successor;
    var c := |s.calls|;
    var a := Next(s, Begin).value;
    var b := Next(a, CheckClosed(c)).value;
    RunOne(a, CheckClosed(c));
    RunCons(s, Begin, [CheckClosed(c)]);
    assert [Begin] + [CheckClosed(c)] == [Begin, CheckClosed(c)];
    ReachableRun(s, [Begin, CheckClosed(c)], b);
    IdIsFree(b, c);
    CallIdIs(b, c);
    var d := Next(b, Allocate(c)).value;
    RunOne(d, SendOk(c));
    RunCons(b, Allocate(c), [SendOk(c)]);
    assert [Allocate(c)] + [SendOk(c)] == [Allocate(c), SendOk(c)];
    RunAppend(s, [Begin, CheckClosed(c)], [Allocate(c), SendOk(c)]);
    assert [Begin, CheckClosed(c)] + [Allocate(c), SendOk(c)] == Starting(c);
  }

  lemma CallIdIs(s: State, c: nat)
    requires Reachable(s) && c < |s.calls|
    ensures s.calls[c].id == IdAt(c)
  {
    hide IdAt, SlotOk, PcOk, CompletedOk, Accounted;
    ReachableIsOk(s);
    assert CallOk(s, c);
  }

  lemma ReachableRun(s: State, steps: seq<Step>, t: State)
    requires Reachable(s) && Run(s, steps) == Some(t)
    ensures Reachable(t)
  {
    hide Next, Run;
    var before :| Run(Init(), before) == Some(s);
    RunAppend(Init(), before, steps);
  }

  /** Call, request and answer: on an open association every exchange comes to its end. */
  lemma ExchangeCompletes(s: State, kind: int, bytes: seq<Byte>)
    requires Reachable(s) && !s.closed && |s.calls| < ID_COUNT && s.reader.Reading? && Quiet(s, Reader)
    ensures var c, i := |s.calls|, IdAt(|s.calls|);
            var r := Response(i, Data(kind, bytes));
            var run := Starting(c) + [Dispatch(i, kind, bytes), Deliver(Send(Reader, c, r)), Receive(c)];
            && Run(s, run).Some?
            && At(Run(s, run).value, c, Returned(Got(r)))
            && Run(s, run).value.calls[..c] == s.calls
            && Run(s, run).value.pending == s.pending && Run(s, run).value.flight == s.flight
  {
    hide IdAt, Inv, Next, Run, Starting;
    var c, i := |s.calls|, IdAt(|s.calls|);
    CallStarts(s);
    var t := Run(s, Starting(c)).value;
    ReachableRun(s, Starting(c), t);
    AnswerReturns(t, c, kind, bytes);
    RunAppend(s, Starting(c), [Dispatch(i, kind, bytes), Deliver(Send(Reader, c, Response(i, Data(kind, bytes)))), Receive(c)]);
    assert t.pending - {i} == s.pending;
  }

  /** An answer that overtakes the return of send is kept for the call. */
  lemma EarlyAnswerReturns(s: State, c: nat, kind: int, bytes: seq<Byte>)
    requires Reachable(s) && s.reader.Reading? && Quiet(s, Reader)
    requires At(s, c, Sending) && Registered(s, c)
    ensures var i := s.calls[c].id;
            var r := Response(i, Data(kind, bytes));
            var run := [Dispatch(i, kind, bytes), SendOk(c), Deliver(Send(Reader, c, r)), Receive(c)];
            && Run(s, run).Some?
            && OnlyReturned(s, Run(s, run).value, c, Got(r))
            && Run(s, run).value.pending == s.pending - {i}
  {
    hide Inv, Run, Take;
    ReachableIsOk(s);
    var i := s.calls[c].id;
    var x := Send(Reader, c, Response(i, Data(kind, bytes)));
    DispatchTakes(s, c, kind, bytes);
    var t := Next(s, Dispatch(i, kind, bytes)).value;
    StepKeeps(s, Dispatch(i, kind, bytes), t);
    var u := Next(t, SendOk(c)).value;
    StepKeeps(t, SendOk(c), u);
    DeliverReceive(u, x);
    RunCons(t, SendOk(c), [Deliver(x), Receive(c)]);
    RunCons(s, Dispatch(i, kind, bytes), [SendOk(c)] + [Deliver(x), Receive(c)]);
    assert [Dispatch(i, kind, bytes)] + ([SendOk(c)] + [Deliver(x), Receive(c)])
        == [Dispatch(i, kind, bytes), SendOk(c), Deliver(x), Receive(c)];
  }

  // ----- everything cancelled

  lemma TakeAllTakes(s: State, agent: Agent, reason: Reason, c: nat)
    requires c < |s.calls| && Registered(s, c)
    ensures Send(agent, c, Response(s.calls[c].id, Failure(reason))) in TakeAll(s, agent, reason).flight
    ensures TakeAll(s, agent, reason).pending == map[]
  {
    assert Send(agent, s.pending[s.calls[c].id], Response(s.calls[c].id, Failure(reason))) in Flushes(agent, s.pending, reason);
  }

  /** Closing the association empties the table and ends every waiting call with that error under its own ID. */
  lemma CloseReturns(s: State, c: nat)
    requires Reachable(s) && !s.closed && At(s, c, Waiting) && Registered(s, c)
    ensures var r := Response(s.calls[c].id, Failure(AssociationClosed));
            var run := [StartClose, CloserCancelAll, Deliver(Send(Closer, c, r)), Receive(c)];
            && Run(s, run).Some?
            && OnlyReturned(s, Run(s, run).value, c, Got(r))
            && Run(s, run).value.pending == map[] && Run(s, run).value.closed
  {
    hide Inv, Run, TakeAll;
    ReachableIsOk(s);
    var x := Send(Closer, c, Response(s.calls[c].id, Failure(AssociationClosed)));
    var t := Next(s, StartClose).value;
    StepKeeps(s, StartClose, t);
    TakeAllTakes(t, Closer, AssociationClosed, c);
    var u := Next(t, CloserCancelAll).value;
    StepKeeps(t, CloserCancelAll, u);
    DeliverReceive(u, x);
    KeepsClosed(t);
    RunCons(t, CloserCancelAll, [Deliver(x), Receive(c)]);
    RunCons(s, StartClose, [CloserCancelAll] + [Deliver(x), Receive(c)]);
    assert [StartClose] + ([CloserCancelAll] + [Deliver(x), Receive(c)]) == [StartClose, CloserCancelAll, Deliver(x), Receive(c)];
  }

  lemma KeepsClosed(s: State)
    ensures TakeAll(s, Closer, AssociationClosed).closed == s.closed
  {
  }

  /** When the transport fails the reader empties the table and ends every waiting call with that error. */
  lemma StopReturns(s: State, c: nat)
    requires Reachable(s) && s.reader.Reading? && Quiet(s, Reader) && At(s, c, Waiting) && Registered(s, c)
    ensures var r := Response(s.calls[c].id, Failure(ReaderStopped));
            var run := [StopReading, ReaderCancelAll, Deliver(Send(Reader, c, r)), Receive(c)];
            && Run(s, run).Some?
            && OnlyReturned(s, Run(s, run).value, c, Got(r))
            && Run(s, run).value.pending == map[] && Run(s, run).value.reader == Leaving
  {
    hide Inv, Run, TakeAll;
    ReachableIsOk(s);
    var x := Send(Reader, c, Response(s.calls[c].id, Failure(ReaderStopped)));
    var t := Next(s, StopReading).value;
    StepKeeps(s, StopReading, t);
    TakeAllTakes(t, Reader, ReaderStopped, c);
    var u := Next(t, ReaderCancelAll).value;
    StepKeeps(t, ReaderCancelAll, u);
    DeliverReceive(u, x);
    RunCons(t, ReaderCancelAll, [Deliver(x), Receive(c)]);
    RunCons(s, StopReading, [ReaderCancelAll] + [Deliver(x), Receive(c)]);
    assert [StopReading] + ([ReaderCancelAll] + [Deliver(x), Receive(c)]) == [StopReading, ReaderCancelAll, Deliver(x), Receive(c)];
  }

  // ----- the reader leaves

  lemma DeliverShrinks(s: State, x: Send)
    requires Inv(s) && x in s.flight && s.reader.Leaving?
    ensures Next(s, Deliver(x)).Some?
    ensures var t := Next(s, Deliver(x)).value;
            |t.flight| < |s.flight| && t.reader == s.reader && t.pending == s.pending
  {
    hide Inv;
    SlotIsEmpty(s, x);
    assert s.flight == (s.flight - multiset{x}) + multiset{x};
  }

  /** A reader on its way out gets rid of what it still has to deliver and is gone; no send of its own can hold it up. */
  lemma {:induction false} ReaderLeaves(s: State) returns (steps: seq<Step>, t: State)
    requires Inv(s) && s.reader.Leaving?
    ensures Run(s, steps) == Some(t) && t.reader == Gone && t.pending == s.pending
    decreases |s.flight|
  {
    hide Inv, Run;
    if Quiet(s, Reader) {
      t := Next(s, ReaderExit).value;
      steps := [ReaderExit];
      RunOne(s, ReaderExit);
    } else {
      hide Next;
      var x :| x in s.flight && x.agent == Reader;
      DeliverShrinks(s, x);
      var u := Next(s, Deliver(x)).value;
      StepKeeps(s, Deliver(x), u);
      var rest;
      rest, t := ReaderLeaves(u);
      steps := [Deliver(x)] + rest;
      RunCons(s, Deliver(x), rest);
    }
  }

  /** When the peer concludes, the reader leaves without cancelling anybody: the table is as it was. */
  lemma ConcludeEndsReader(s: State)
    requires s.reader.Reading? && Quiet(s, Reader)
    ensures Run(s, [Conclude, ReaderExit]) == Some(s.(reader := Gone))
  {
    hide Run;
    var t := Next(s, Conclude).value;
    RunOne(t, ReaderExit);
    RunCons(s, Conclude, [ReaderExit]);
    assert [Conclude] + [ReaderExit] == [Conclude, ReaderExit];
  }

  // ----- a call that gives up

  function Final(out: Outcome, ended: bool): Outcome {
    if out.SendError? && ended then ContextEnded else out
  }

  /** Cancelling takes the call's own ID out of the table, sends itself the reason and returns. */
  lemma CancelReturns(s: State, c: nat, out: Outcome, reason: Reason)
    requires Inv(s) && At(s, c, Cancelling(out, reason)) && Registered(s, c)
    ensures var i := s.calls[c].id;
            var run := [CancelOwn(c), Deliver(Send(Caller(c), c, Response(i, Failure(reason)))), Return(c)];
            && Run(s, run).Some?
            && At(Run(s, run).value, c, Returned(Final(out, s.calls[c].ended)))
            && Run(s, run).value.pending == s.pending - {i} && Run(s, run).value.flight == s.flight
            && |Run(s, run).value.calls| == |s.calls|
            && forall d :: 0 <= d < |s.calls| && d != c ==> Run(s, run).value.calls[d] == s.calls[d]
  {
    hide Inv, Run;
    var x := Send(Caller(c), c, Response(s.calls[c].id, Failure(reason)));
    var t := Next(s, CancelOwn(c)).value;
    StepKeeps(s, CancelOwn(c), t);
    SlotIsEmpty(t, x);
    NoOwnSends(s, c);
    var u := Next(t, Deliver(x)).value;
    assert u.flight == s.flight;
    RunOne(u, Return(c));
    RunCons(t, Deliver(x), [Return(c)]);
    RunCons(s, CancelOwn(c), [Deliver(x)] + [Return(c)]);
    assert [CancelOwn(c)] + ([Deliver(x)] + [Return(c)]) == [CancelOwn(c), Deliver(x), Return(c)];
  }

  /** When the context of a waiting call ends the call can give up, and then says so and has left the table. */
  lemma ContextReturns(s: State, c: nat)
    requires Reachable(s) && At(s, c, Waiting) && Registered(s, c)
    ensures var i := s.calls[c].id;
            var run := [EndContext(c), SeeContextEnd(c)]
                     + [CancelOwn(c), Deliver(Send(Caller(c), c, Response(i, Failure(ContextDone)))), Return(c)];
            && Run(s, run).Some?
            && At(Run(s, run).value, c, Returned(ContextEnded)) && Run(s, run).value.pending == s.pending - {i}
  {
    hide Inv, Run;
    ReachableIsOk(s);
    var x := Send(Caller(c), c, Response(s.calls[c].id, Failure(ContextDone)));
    var t := Next(s, EndContext(c)).value;
    StepKeeps(s, EndContext(c), t);
    var u := Next(t, SeeContextEnd(c)).value;
    StepKeeps(t, SeeContextEnd(c), u);
    CancelReturns(u, c, ContextEnded, ContextDone);
    RunOne(t, SeeContextEnd(c));
    RunCons(s, EndContext(c), [SeeContextEnd(c)]);
    assert [EndContext(c)] + [SeeContextEnd(c)] == [EndContext(c), SeeContextEnd(c)];
    RunAppend(s, [EndContext(c), SeeContextEnd(c)], [CancelOwn(c), Deliver(x), Return(c)]);
  }

  /** A call whose context ends before it has registered returns that, and never gets into the table. */
  lemma EndedNeverStarts(s: State, c: nat)
    requires At(s, c, Open)
    ensures var run := [EndContext(c), Allocate(c)];
            && Run(s, run).Some?
            && At(Run(s, run).value, c, Returned(ContextEnded)) && Run(s, run).value.pending == s.pending
  {
    hide Run;
    var t := Next(s, EndContext(c)).value;
    RunOne(t, Allocate(c));
    RunCons(s, EndContext(c), [Allocate(c)]);
    assert [EndContext(c)] + [Allocate(c)] == [EndContext(c), Allocate(c)];
  }

  /** A call whose send failed returns that error, or the end of its context if that is why. */
  lemma SendErrorReturns(s: State, c: nat)
    requires Reachable(s) && At(s, c, Sending) && Registered(s, c)
    ensures var i := s.calls[c].id;
            var run := [Step.SendFailed(c), CancelOwn(c), Deliver(Send(Caller(c), c, Response(i, Failure(Reason.SendFailed)))), Return(c)];
            && Run(s, run).Some?
            && At(Run(s, run).value, c, Returned(if s.calls[c].ended then ContextEnded else SendError))
            && Run(s, run).value.pending == s.pending - {i}
  {
    hide Inv, Run;
    ReachableIsOk(s);
    var x := Send(Caller(c), c, Response(s.calls[c].id, Failure(Reason.SendFailed)));
    var t := Next(s, Step.SendFailed(c)).value;
    StepKeeps(s, Step.SendFailed(c), t);
    CancelReturns(t, c, SendError, Reason.SendFailed);
    RunCons(s, Step.SendFailed(c), [CancelOwn(c), Deliver(x), Return(c)]);
    assert [Step.SendFailed(c)] + [CancelOwn(c), Deliver(x), Return(c)] == [Step.SendFailed(c), CancelOwn(c), Deliver(x), Return(c)];
  }

  /** A call the peer's conclusion has left in the table finds the reader gone and says so. */
  lemma GoneReturns(s: State, c: nat)
    requires Reachable(s) && s.reader.Gone? && At(s, c, Waiting) && Registered(s, c)
    ensures var i := s.calls[c].id;
            var run := [SeeReaderDone(c), FindNothing(c)]
                     + [CancelOwn(c), Deliver(Send(Caller(c), c, Response(i, Failure(ReaderStopped)))), Return(c)];
            && Run(s, run).Some?
            && At(Run(s, run).value, c, Returned(ReaderGone)) && Run(s, run).value.pending == s.pending - {i}
  {
    hide Inv, Run;
    ReachableIsOk(s);
    RegisteredSlot(s, c);
    var x := Send(Caller(c), c, Response(s.calls[c].id, Failure(ReaderStopped)));
    var t := Next(s, SeeReaderDone(c)).value;
    StepKeeps(s, SeeReaderDone(c), t);
    var u := Next(t, FindNothing(c)).value;
    StepKeeps(t, FindNothing(c), u);
    CancelReturns(u, c, ReaderGone, ReaderStopped);
    RunOne(t, FindNothing(c));
    RunCons(s, SeeReaderDone(c), [FindNothing(c)]);
    assert [SeeReaderDone(c)] + [FindNothing(c)] == [SeeReaderDone(c), FindNothing(c)];
    RunAppend(s, [SeeReaderDone(c), FindNothing(c)], [CancelOwn(c), Deliver(x), Return(c)]);
  }

  lemma RegisteredSlot(s: State, c: nat)
    requires Inv(s) && c < |s.calls| && Registered(s, c)
    ensures s.calls[c].slot.None?
  {
    CallIsOk(s, c);
  }

  // ----- calls that never start

  /** After a close every new call is refused, and without one none is. */
  lemma RefusedWhenClosed(s: State, c: nat)
    requires At(s, c, Entered)
    ensures Next(s, CheckClosed(c)).Some?
    ensures At(Next(s, CheckClosed(c)).value, c, Returned(Refused)) <==> s.closed
  {
  }

  ghost predicate RefusalsOk(s: State) {
    (exists c :: At(s, c, Returned(Refused))) ==> s.closed
  }

  lemma RefusalStep(s: State, step: Step, t: State)
    requires Inv(s) && RefusalsOk(s) && Next(s, step) == Some(t)
    ensures RefusalsOk(t)
  {
    hide Inv, Next;
    forall c | At(t, c, Returned(Refused)) ensures t.closed {
      if At(s, c, Returned(Refused)) {
        ClosedStays(s, step, t);
      } else {
        RefusedBy(s, step, t, c);
      }
    }
  }

  lemma ClosedStays(s: State, step: Step, t: State)
    requires s.closed && Next(s, step) == Some(t)
    ensures t.closed
  {
    hide Quiet, Successor, Flushes;
  }

  lemma RefusedBy(s: State, step: Step, t: State, c: nat)
    requires Inv(s) && Next(s, step) == Some(t) && At(t, c, Returned(Refused)) && !At(s, c, Returned(Refused))
    ensures t.closed
  {
    hide Inv, Quiet, Take, TakeAll, Successor, Next;
    if IsMove(step) {
      if step.Return? && step.c < |s.calls| && s.calls[step.c].pc.Finishing? {
        FinishingIsNotRefused(s, step.c);
      }
      RefusedByMove(s, step, t, c);
    } else {
      RefusedByOther(s, step, t, c);
    }
  }

  lemma RefusedByMove(s: State, step: Step, t: State, c: nat)
    requires Next(s, step) == Some(t) && At(t, c, Returned(Refused)) && !At(s, c, Returned(Refused)) && IsMove(step)
    requires step.Return? && step.c < |s.calls| && s.calls[step.c].pc.Finishing? ==> !s.calls[step.c].pc.out.Refused?
    ensures t.closed
  {
    hide Quiet;
  }

  lemma RefusedByOther(s: State, step: Step, t: State, c: nat)
    requires Next(s, step) == Some(t) && At(t, c, Returned(Refused)) && !IsMove(step)
    ensures At(s, c, Returned(Refused)) || t.closed
  {
    hide Next;
    match step
    case Begin => RefusedBeforeBegin(s, t, c);
    case Allocate(d) => RefusedBeforeAllocate(s, d, t, c);
    case CancelOwn(d) => RefusedBeforeCancel(s, d, t, c);
    case Deliver(x) => RefusedBeforeDeliver(s, x, t, c);
    case Dispatch(_, _, _) => RefusedBeforeDispatch(s, step, t, c);
    case _ => SameCalls(s, step, t);
  }

  lemma RefusedBeforeBegin(s: State, t: State, c: nat)
    requires Next(s, Begin) == Some(t) && At(t, c, Returned(Refused))
    ensures At(s, c, Returned(Refused))
  {
    hide Successor;
  }

  lemma RefusedBeforeAllocate(s: State, d: nat, t: State, c: nat)
    requires Next(s, Allocate(d)) == Some(t) && At(t, c, Returned(Refused))
    ensures At(s, c, Returned(Refused))
  {
  }

  lemma RefusedBeforeCancel(s: State, d: nat, t: State, c: nat)
    requires Next(s, CancelOwn(d)) == Some(t) && At(t, c, Returned(Refused))
    ensures At(s, c, Returned(Refused))
  {
    hide Take;
  }

  lemma RefusedBeforeDeliver(s: State, x: Send, t: State, c: nat)
    requires Next(s, Deliver(x)) == Some(t) && At(t, c, Returned(Refused))
    ensures At(s, c, Returned(Refused))
  {
  }

  lemma RefusedBeforeDispatch(s: State, step: Step, t: State, c: nat)
    requires step.Dispatch? && Next(s, step) == Some(t) && At(t, c, Returned(Refused))
    ensures At(s, c, Returned(Refused))
  {
    hide Take, Quiet;
  }

  lemma SameCalls(s: State, step: Step, t: State)
    requires step.StopReading? || step.ReaderCancelAll? || step.Conclude? || step.ReaderExit? || step.StartClose? || step.CloserCancelAll?
    requires Next(s, step) == Some(t)
    ensures t.calls == s.calls
  {
    hide TakeAll, Quiet;
  }

  lemma FinishingIsNotRefused(s: State, c: nat)
    requires Inv(s) && c < |s.calls| && s.calls[c].pc.Finishing?
    ensures !s.calls[c].pc.out.Refused?
  {
    hide IdAt;
    CallIsOk(s, c);
  }

  lemma {:induction false} RunRefusals(s: State, steps: seq<Step>, t: State)
    requires Inv(s) && RefusalsOk(s) && Run(s, steps) == Some(t)
    ensures RefusalsOk(t)
    decreases |steps|
  {
    hide Inv, Next, RefusalsOk;
    if steps != [] {
      var u := Next(s, steps[0]).value;
      StepKeeps(s, steps[0], u);
      RefusalStep(s, steps[0], u);
      RunRefusals(u, steps[1..], t);
    }
  }

  /** In every reachable state, a refused call means that the association was closed. */
  lemma RefusedMeansClosed(s: State, c: nat)
    requires Reachable(s) && At(s, c, Returned(Refused))
    ensures s.closed
  {
    hide Inv, Next, Run;
    var steps :| Run(Init(), steps) == Some(s);
    InitIsOk();
    RunRefusals(Init(), steps, s);
  }
}
