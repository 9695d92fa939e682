/**
 The write side of the client (mms.go: send, conclude, Abort): each request is
 written by a goroutine of its own, under one mutex, unless its caller gave up
 before the write started; conclude and abort PDUs are written under the same
 mutex by their callers. The steps of all of them interleave, and the transport
 may be closed at any time; a write puts its octets on the stream one by one.
 */
module SendGate {
  import opened Bytes
  import opened Results

  /** The atomic state word shared by the caller and its goroutine. */
  datatype Word = Pending | Writing | Abandoned

  datatype WriterPc = Unlocked | Locked | Committed(written: nat) | Posted | Finished

  datatype CallerPc = Selecting | Succeeded | Failed | GaveUp

  /**
   One write: its PDU, whether it is a conclude or abort PDU, the state word, the outcome channel,
   the writer and the caller. Conclude and Abort wait for their own write, so they never give up.
   */
  datatype Job = Job(pdu: seq<Byte>, raw: bool, word: Word, done: Option<bool>, writer: WriterPc, caller: CallerPc, ended: bool)

  /** Where the write stopped that was under way when the transport went down. */
  datatype Cut = Cut(job: nat, written: nat)

  /**
   down: the transport is closed. broken: the PDU it cut off, if any. stream: what the transport
   carried. whole: the jobs whose PDUs are complete on the stream, in order (history).
   */
  datatype State = State(
    jobs: seq<Job>, holder: Option<nat>, down: bool, broken: Option<Cut>, stream: seq<Byte>, whole: seq<nat>)

  datatype Step =
    | Start(pdu: seq<Byte>, raw: bool)
    | EndContext(j: nat)
    | Lock(j: nat)
    | CompareAndSwap(j: nat)
    | WriteOctet(j: nat)
    | FinishWrite(j: nat)
    | FailWrite(j: nat)
    | Unlock(j: nat)
    | ReadDone(j: nat)
    | GiveUp(j: nat)
    | CloseTransport

  function Init(): State {
    State([], None, false, None, [], [])
  }

  function Put(s: State, j: nat, job: Job): State
    requires j < |s.jobs|
  {
    s.(jobs := s.jobs[j := job])
  }

  predicate WriterAt(s: State, j: nat, pc: WriterPc) {
    j < |s.jobs| && s.jobs[j].writer == pc
  }

  predicate Committing(s: State, j: nat) {
    j < |s.jobs| && s.jobs[j].writer.Committed?
  }

  /** The effect of a step, None where it is not enabled. */
  function Next(s: State, step: Step): Option<State>
  {
    match step
    case Start(pdu, raw) =>
      Some(s.(jobs := s.jobs + [Job(pdu, raw, Pending, None, Unlocked, Selecting, false)]))
    case EndContext(j) =>
      if j < |s.jobs| then Some(Put(s, j, s.jobs[j].(ended := true))) else None
    case Lock(j) =>
      if WriterAt(s, j, Unlocked) && s.holder.None? then
        Some(Put(s, j, s.jobs[j].(writer := Locked)).(holder := Some(j)))
      else None
    case CompareAndSwap(j) =>
      if !WriterAt(s, j, Locked) then None
      else if s.jobs[j].word.Pending? then Some(Put(s, j, s.jobs[j].(word := Writing, writer := Committed(0))))
      else if s.jobs[j].done.None? then Some(Put(s, j, s.jobs[j].(done := Some(true), writer := Posted)))
      else None
    case WriteOctet(j) =>
      if Committing(s, j) && !s.down && s.jobs[j].writer.written < |s.jobs[j].pdu| then
        var n := s.jobs[j].writer.written;
        Some(Put(s, j, s.jobs[j].(writer := Committed(n + 1))).(stream := s.stream + [s.jobs[j].pdu[n]]))
      else None
    case FinishWrite(j) =>
      if Committing(s, j) && !s.down && s.jobs[j].writer.written == |s.jobs[j].pdu| && s.jobs[j].done.None? then
        Some(Put(s, j, s.jobs[j].(done := Some(true), writer := Posted)).(whole := s.whole + [j]))
      else None
    case FailWrite(j) =>
      // A request that fails closes the transport; so does any PDU that stops half-way.
      if Committing(s, j) && s.jobs[j].done.None? then
        var t := if s.down || (s.jobs[j].raw && s.jobs[j].writer.written == 0) then s else TakeDown(s);
        Some(Put(t, j, s.jobs[j].(done := Some(false), writer := Posted)))
      else None
    case Unlock(j) =>
      if WriterAt(s, j, Posted) && s.holder == Some(j) then
        Some(Put(s, j, s.jobs[j].(writer := Finished)).(holder := None))
      else None
    case ReadDone(j) =>
      if j < |s.jobs| && s.jobs[j].caller.Selecting? && s.jobs[j].done.Some? then
        Some(Put(s, j, s.jobs[j].(done := None, caller := if s.jobs[j].done.value then Succeeded else Failed)))
      else None
    case GiveUp(j) =>
      if j < |s.jobs| && s.jobs[j].caller.Selecting? && s.jobs[j].ended && !s.jobs[j].raw then
        var job := s.jobs[j];
        Some(Put(s, j, job.(word := if job.word.Pending? then Abandoned else job.word, caller := GaveUp)))
      else None
    case CloseTransport =>
      if s.down then Some(s) else Some(TakeDown(s))
  }

  /** The transport is closed, cutting off the write under way. */
  function TakeDown(s: State): State
  {
    var cut := if s.holder.Some? && Committing(s, s.holder.value)
               then Some(Cut(s.holder.value, s.jobs[s.holder.value].writer.written)) else None;
    s.(down := true, broken := cut)
  }

  function Run(s: State, steps: seq<Step>): Option<State>
    decreases |steps|
  {
    if steps == [] then Some(s)
    else
      var t := Next(s, steps[0]);
      if t.None? then None else Run(t.value, steps[1..])
  }

  // ----- what every step keeps

  /** The PDUs of some jobs, one after the other. */
  function Concat(jobs: seq<Job>, order: seq<nat>): seq<Byte>
    requires forall k :: 0 <= k < |order| ==> order[k] < |jobs|
  {
    if order == [] then [] else Concat(jobs, order[..|order| - 1]) + jobs[order[|order| - 1]].pdu
  }

  predicate InsideLock(pc: WriterPc) {
    pc.Locked? || pc.Committed? || pc.Posted?
  }

  ghost predicate JobOk(s: State, j: nat)
    requires j < |s.jobs|
  {
    var job := s.jobs[j];
    && (InsideLock(job.writer) <==> s.holder == Some(j))
    && (job.writer.Committed? ==> job.word.Writing? && job.writer.written <= |job.pdu|)
    && (job.writer.Unlocked? || job.writer.Locked? ==> !job.word.Writing?)
    && (job.writer.Unlocked? || job.writer.Locked? || job.writer.Committed? ==>
          job.done.None? && (job.caller.Selecting? || job.caller.GaveUp?))
    && (job.word.Abandoned? ==> job.caller.GaveUp?)
    && (job.caller.GaveUp? ==> job.ended && !job.raw)
    && (j in s.whole ==> job.word.Writing? && (job.writer.Posted? || job.writer.Finished?))
    && (job.done == Some(true) ==> job.word.Abandoned? || j in s.whole)
    && (job.caller.Succeeded? ==> j in s.whole)
  }

  /** What has been written of a PDU that is not complete on the stream: by the lock's holder, or until the transport went down. */
  function Partial(s: State): seq<Byte>
  {
    if s.down then
      if s.broken.None? then []
      else
        var cut := s.broken.value;
        if cut.job < |s.jobs| && cut.written <= |s.jobs[cut.job].pdu| then s.jobs[cut.job].pdu[..cut.written] else []
    else if s.holder.Some? && Committing(s, s.holder.value) then
      var job := s.jobs[s.holder.value];
      if job.writer.written <= |job.pdu| then job.pdu[..job.writer.written] else []
    else []
  }

  predicate Settled(pc: WriterPc) {
    pc.Committed? || pc.Posted? || pc.Finished?
  }

  ghost predicate WholeOk(s: State) {
    && (forall k :: 0 <= k < |s.whole| ==> s.whole[k] < |s.jobs|)
    && (forall i, k :: 0 <= i < k < |s.whole| ==> s.whole[i] != s.whole[k])
    && (s.broken.Some? ==>
          var cut := s.broken.value;
          && s.down && cut.job < |s.jobs| && cut.written <= |s.jobs[cut.job].pdu|
          && s.jobs[cut.job].word.Writing? && Settled(s.jobs[cut.job].writer) && cut.job !in s.whole)
  }

  /** The stream is the completed PDUs, each once, then what one writer has got out so far. */
  ghost predicate StreamOk(s: State) {
    WholeOk(s) && s.stream == Concat(s.jobs, s.whole) + Partial(s)
  }

  ghost predicate Inv(s: State) {
    && (forall j :: 0 <= j < |s.jobs| ==> JobOk(s, j))
    && (s.holder.Some? ==> s.holder.value < |s.jobs|)
    && StreamOk(s)
  }

  lemma {:induction false} ConcatSame(jobs: seq<Job>, more: seq<Job>, order: seq<nat>)
    requires |jobs| <= |more| && forall j :: 0 <= j < |jobs| ==> more[j].pdu == jobs[j].pdu
    requires forall k :: 0 <= k < |order| ==> order[k] < |jobs|
    ensures Concat(more, order) == Concat(jobs, order)
  {
    if order != [] {
      ConcatSame(jobs, more, order[..|order| - 1]);
    }
  }

  lemma ConcatSnoc(jobs: seq<Job>, order: seq<nat>, j: nat)
    requires j < |jobs| && forall k :: 0 <= k < |order| ==> order[k] < |jobs|
    ensures Concat(jobs, order + [j]) == Concat(jobs, order) + jobs[j].pdu
  {
    assert (order + [j])[..|order|] == order;
  }

  lemma JobIsOk(s: State, j: nat)
    requires Inv(s) && j < |s.jobs|
    ensures JobOk(s, j)
  {
  }

  /** A step that changes one job and not what it has on the stream. */
  lemma QuietKeeps(s: State, j: nat, job: Job, t: State)
    requires Inv(s) && j < |s.jobs| && job.pdu == s.jobs[j].pdu
    requires t == s.(jobs := s.jobs[j := job], holder := t.holder)
    requires t.holder == s.holder || (s.holder == None && t.holder == Some(j)) || (s.holder == Some(j) && t.holder == None)
    requires JobOk(t, j)
    requires s.jobs[j].writer.Committed? ==> job.writer == s.jobs[j].writer
    requires job.writer.Committed? ==> s.jobs[j].writer == job.writer || job.writer.written == 0
    requires s.broken.Some? && s.broken.value.job == j ==> job.word.Writing? && Settled(job.writer)
    ensures Inv(t)
  {
    hide JobOk;
    forall d | 0 <= d < |t.jobs|
      ensures JobOk(t, d)
    {
      JobIsOk(s, d);
      if d != j {
        OtherJob(s, t, d);
      }
    }
    JobIsOk(s, j);
    ConcatSame(s.jobs, t.jobs, s.whole);
    SamePartial(s, j, job, t);
  }

  lemma SamePartial(s: State, j: nat, job: Job, t: State)
    requires Inv(s) && j < |s.jobs| && job.pdu == s.jobs[j].pdu
    requires t == s.(jobs := s.jobs[j := job], holder := t.holder)
    requires t.holder == s.holder || (s.holder == None && t.holder == Some(j)) || (s.holder == Some(j) && t.holder == None)
    requires JobOk(t, j)
    requires s.jobs[j].writer.Committed? ==> job.writer == s.jobs[j].writer
    requires job.writer.Committed? ==> s.jobs[j].writer == job.writer || job.writer.written == 0
    ensures Partial(t) == Partial(s)
  {
    hide StreamOk;
    JobIsOk(s, j);
    if s.holder.Some? {
      JobIsOk(s, s.holder.value);
    }
  }

  lemma OtherJob(s: State, t: State, d: nat)
    requires d < |s.jobs| <= |t.jobs| && t.jobs[d] == s.jobs[d] && JobOk(s, d)
    requires t.holder == Some(d) <==> s.holder == Some(d)
    requires d in t.whole <==> d in s.whole
    ensures JobOk(t, d)
  {
  }

  lemma QuietStepKeeps(s: State, step: Step, t: State)
    requires step.EndContext? || step.Lock? || step.CompareAndSwap? || step.Unlock? || step.ReadDone? || step.GiveUp?
    requires Inv(s) && Next(s, step) == Some(t)
    ensures Inv(t)
  {
    hide Inv, Partial, Concat;
    JobIsOk(s, step.j);
    CutIsSettled(s, step.j);
    QuietKeeps(s, step.j, t.jobs[step.j], t);
  }

  lemma CutIsSettled(s: State, j: nat)
    requires Inv(s) && j < |s.jobs|
    ensures s.broken.Some? && s.broken.value.job == j ==> s.jobs[j].word.Writing? && Settled(s.jobs[j].writer)
  {
  }

  lemma StartKeeps(s: State, pdu: seq<Byte>, raw: bool, t: State)
    requires Inv(s) && Next(s, Start(pdu, raw)) == Some(t)
    ensures Inv(t)
  {
    hide JobOk;
    forall d | 0 <= d < |t.jobs|
      ensures JobOk(t, d)
    {
      if d < |s.jobs| {
        JobIsOk(s, d);
        OtherJob(s, t, d);
      } else {
        NewJob(t, d, pdu, raw);
      }
    }
    ConcatSame(s.jobs, t.jobs, s.whole);
  }

  lemma NewJob(t: State, d: nat, pdu: seq<Byte>, raw: bool)
    requires d < |t.jobs| && t.jobs[d] == Job(pdu, raw, Pending, None, Unlocked, Selecting, false)
    requires d !in t.whole && t.holder != Some(d)
    ensures JobOk(t, d)
  {
  }

  /** The three steps of a write: only the holder of the lock takes them. */
  lemma WritesUnderLock(s: State, j: nat)
    requires Inv(s) && Committing(s, j)
    ensures s.holder == Some(j) && j !in s.whole && s.jobs[j].word.Writing?
    ensures s.jobs[j].writer.written <= |s.jobs[j].pdu|
    ensures !s.down ==> Partial(s) == s.jobs[j].pdu[..s.jobs[j].writer.written]
  {
    JobIsOk(s, j);
  }

  lemma OthersOk(s: State, j: nat, t: State)
    requires Inv(s) && j < |s.jobs| == |t.jobs| && t.holder == s.holder
    requires t.whole == s.whole || t.whole == s.whole + [j]
    requires JobOk(t, j) && forall d :: 0 <= d < |s.jobs| && d != j ==> t.jobs[d] == s.jobs[d]
    ensures forall d :: 0 <= d < |t.jobs| ==> JobOk(t, d)
  {
    hide JobOk;
    forall d | 0 <= d < |t.jobs|
      ensures JobOk(t, d)
    {
      JobIsOk(s, d);
      if d != j {
        OtherJob(s, t, d);
      }
    }
  }

  lemma WriteOctetKeeps(s: State, j: nat, t: State)
    requires Inv(s) && Next(s, WriteOctet(j)) == Some(t)
    ensures Inv(t)
  {
    hide Concat, JobOk;
    JobIsOk(s, j);
    WritesUnderLock(s, j);
    assert JobOk(t, j) by {
      WrittenJob(s, j, t);
    }
    OthersOk(s, j, t);
    ConcatSame(s.jobs, t.jobs, s.whole);
    var job, n := s.jobs[j], s.jobs[j].writer.written;
    assert job.pdu[..n] + [job.pdu[n]] == job.pdu[..n + 1];
    assert Partial(t) == job.pdu[..n + 1];
    assert t.stream == Concat(s.jobs, s.whole) + (job.pdu[..n] + [job.pdu[n]]);
  }

  lemma WrittenJob(s: State, j: nat, t: State)
    requires j < |s.jobs| && JobOk(s, j) && Next(s, WriteOctet(j)) == Some(t)
    ensures JobOk(t, j)
  {
  }

  lemma FinishWriteKeeps(s: State, j: nat, t: State)
    requires Inv(s) && Next(s, FinishWrite(j)) == Some(t)
    ensures Inv(t)
  {
    hide Concat;
    JobIsOk(s, j);
    WritesUnderLock(s, j);
    OthersOk(s, j, t);
    ConcatSame(s.jobs, t.jobs, s.whole);
    ConcatSnoc(t.jobs, s.whole, j);
    assert s.jobs[j].pdu[..|s.jobs[j].pdu|] == s.jobs[j].pdu;
    assert Partial(t) == [];
    assert Concat(t.jobs, t.whole) + [] == Concat(t.jobs, t.whole);
  }

  lemma DownKeeps(s: State, t: State)
    requires Inv(s) && !s.down && t == TakeDown(s)
    ensures Inv(t) && Partial(t) == Partial(s)
  {
    hide Concat, JobOk;
    if s.holder.Some? && Committing(s, s.holder.value) {
      WritesUnderLock(s, s.holder.value);
    }
    forall d | 0 <= d < |t.jobs|
      ensures JobOk(t, d)
    {
      JobIsOk(s, d);
      OtherJob(s, t, d);
    }
  }

  /** A writer that was cut off, or never got an octet out, reports its failure. */
  lemma PostFailureKeeps(s: State, j: nat, t: State)
    requires Inv(s) && Committing(s, j) && s.jobs[j].done.None? && (s.down || s.jobs[j].writer.written == 0)
    requires t == Put(s, j, s.jobs[j].(done := Some(false), writer := Posted))
    ensures Inv(t)
  {
    hide Concat;
    JobIsOk(s, j);
    CutIsSettled(s, j);
    WritesUnderLock(s, j);
    OthersOk(s, j, t);
    ConcatSame(s.jobs, t.jobs, s.whole);
    assert Partial(t) == Partial(s);
  }

  lemma FailWriteKeeps(s: State, j: nat, t: State)
    requires Inv(s) && Next(s, FailWrite(j)) == Some(t)
    ensures Inv(t)
  {
    hide Inv, Partial;
    if s.down || (s.jobs[j].raw && s.jobs[j].writer.written == 0) {
      PostFailureKeeps(s, j, t);
    } else {
      DownKeeps(s, TakeDown(s));
      PostFailureKeeps(TakeDown(s), j, t);
    }
  }

  lemma StepKeeps(s: State, step: Step, t: State)
    requires Inv(s) && Next(s, step) == Some(t)
    ensures Inv(t)
  {
    hide Inv, Next;
    match step
    case Start(pdu, raw) => StartKeeps(s, pdu, raw, t);
    case WriteOctet(j) => WriteOctetKeeps(s, j, t);
    case FinishWrite(j) => FinishWriteKeeps(s, j, t);
    case FailWrite(j) => FailWriteKeeps(s, j, t);
    case CloseTransport => CloseKeeps(s, t);
    case _ => QuietStepKeeps(s, step, t);
  }

  lemma CloseKeeps(s: State, t: State)
    requires Inv(s) && Next(s, CloseTransport) == Some(t)
    ensures Inv(t)
  {
    hide Inv, Partial;
    if !s.down {
      DownKeeps(s, t);
    }
  }

  lemma {:induction false} RunKeeps(s: State, steps: seq<Step>, t: State)
    requires Inv(s) && Run(s, steps) == Some(t)
    ensures Inv(t)
    decreases |steps|
  {
    hide Inv, Next;
    if steps != [] {
      StepKeeps(s, steps[0], Next(s, steps[0]).value);
      RunKeeps(Next(s, steps[0]).value, steps[1..], t);
    }
  }

  ghost predicate Reachable(s: State) {
    exists steps :: Run(Init(), steps) == Some(s)
  }

  lemma ReachableIsOk(s: State)
    requires Reachable(s)
    ensures Inv(s)
  {
    var steps :| Run(Init(), steps) == Some(s);
    RunKeeps(Init(), steps, s);
  }

  // ----- what holds in every interleaving

  /** The stream is a sequence of whole PDUs, none of them twice, and at most one unfinished PDU at its end. */
  lemma StreamIsWhole(s: State)
    requires Reachable(s)
    ensures forall k :: 0 <= k < |s.whole| ==> s.whole[k] < |s.jobs|
    ensures forall i, k :: 0 <= i < k < |s.whole| ==> s.whole[i] != s.whole[k]
    ensures s.stream == Concat(s.jobs, s.whole) + Partial(s)
    ensures forall i, j :: Committing(s, i) && Committing(s, j) ==> i == j
  {
    ReachableIsOk(s);
    forall i, j | Committing(s, i) && Committing(s, j)
      ensures i == j
    {
      assert JobOk(s, i) && JobOk(s, j);
    }
  }

  /** A request given up before its write started is never written, nor begun. */
  lemma AbandonedIsNotWritten(s: State, j: nat)
    requires Reachable(s) && j < |s.jobs| && s.jobs[j].word.Abandoned?
    ensures j !in s.whole && !Committing(s, j) && (s.broken.Some? ==> s.broken.value.job != j)
    ensures s.jobs[j].ended
  {
    ReachableIsOk(s);
    assert JobOk(s, j);
  }

  /** A send that reports success has its PDU on the stream, whole. */
  lemma SuccessIsWritten(s: State, j: nat)
    requires Reachable(s) && j < |s.jobs| && s.jobs[j].caller.Succeeded?
    ensures j in s.whole
  {
    ReachableIsOk(s);
    assert JobOk(s, j);
  }

  /** Posting the outcome never blocks: the one-slot done channel is empty until then. */
  lemma DoneNeverBlocks(s: State, j: nat)
    requires Reachable(s) && j < |s.jobs|
    ensures s.jobs[j].writer.Locked? ==> Next(s, CompareAndSwap(j)).Some?
    ensures s.jobs[j].writer.Committed? ==> Next(s, FailWrite(j)).Some?
    ensures s.jobs[j].writer.Committed? && !s.down ==> Next(s, WriteOctet(j)).Some? || Next(s, FinishWrite(j)).Some?
    ensures s.jobs[j].writer.Posted? ==> Next(s, Unlock(j)).Some?
  {
    ReachableIsOk(s);
    assert JobOk(s, j);
  }
}
