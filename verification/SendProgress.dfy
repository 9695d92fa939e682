/**
 How a send ends (mms.go: send): on a transport that is up, whoever gets the
 mutex writes its whole PDU and reports success; a request given up in time is
 never written; a transport that is down is reported as a failure.
 */
module SendProgress {
  import opened Bytes
  import opened Results
  import opened SendGate

  lemma {:induction false} RunAppend(s: State, first: seq<Step>, second: seq<Step>)
    requires Run(s, first).Some?
    ensures Run(s, first + second) == Run(Run(s, first).value, second)
    decreases |first|
  {
    hide Next;
    if first == [] {
      assert first + second == second;
    } else {
      RunAppend(Next(s, first[0]).value, first[1..], second);
      assert (first + second)[1..] == first[1..] + second;
    }
  }

  lemma RunOne(s: State, step: Step)
    requires Next(s, step).Some?
    ensures Run(s, [step]) == Next(s, step)
  {
    assert [step][1..] == [];
  }

  /** One more step at the end of a run. */
  lemma RunSnoc(s: State, steps: seq<Step>, t: State, step: Step)
    requires Run(s, steps) == Some(t) && Next(t, step).Some?
    ensures Run(s, steps + [step]) == Next(t, step)
  {
    hide Next;
    RunAppend(s, steps, [step]);
    RunOne(t, step);
  }

  /** The jobs but one, and what they have to do with the transport, are as they were. */
  predicate OnlyJob(s: State, j: nat, t: State) {
    && j < |s.jobs| && |t.jobs| == |s.jobs|
    && (forall i :: 0 <= i < |s.jobs| && i != j ==> t.jobs[i] == s.jobs[i])
    && t.jobs[j].pdu == s.jobs[j].pdu && t.jobs[j].raw == s.jobs[j].raw && t.jobs[j].ended == s.jobs[j].ended
    && t.down == s.down && t.broken == s.broken
  }

  lemma WriteOne(s: State, j: nat) returns (t: State)
    requires Committing(s, j) && !s.down && s.jobs[j].writer.written < |s.jobs[j].pdu|
    ensures Next(s, WriteOctet(j)) == Some(t) && OnlyJob(s, j, t)
    ensures t.jobs[j] == s.jobs[j].(writer := Committed(s.jobs[j].writer.written + 1))
    ensures t.stream == s.stream + [s.jobs[j].pdu[s.jobs[j].writer.written]]
    ensures t.holder == s.holder && t.whole == s.whole
  {
    t := Next(s, WriteOctet(j)).value;
  }

  /** A writer under way gets the rest of its PDU onto the stream. */
  lemma {:induction false} WriteRest(s: State, j: nat) returns (steps: seq<Step>, t: State)
    requires Committing(s, j) && !s.down && s.jobs[j].writer.written <= |s.jobs[j].pdu|
    ensures Run(s, steps) == Some(t) && OnlyJob(s, j, t)
    ensures t.jobs[j] == s.jobs[j].(writer := Committed(|s.jobs[j].pdu|))
    ensures t.stream == s.stream + s.jobs[j].pdu[s.jobs[j].writer.written..]
    ensures t.holder == s.holder && t.whole == s.whole
    decreases |s.jobs[j].pdu| - s.jobs[j].writer.written
  {
    hide Next;
    var pdu, n := s.jobs[j].pdu, s.jobs[j].writer.written;
    if n == |pdu| {
      steps, t := [], s;
    } else {
      var u := WriteOne(s, j);
      var rest;
      rest, t := WriteRest(u, j);
      steps := [WriteOctet(j)] + rest;
      RunOne(s, WriteOctet(j));
      RunAppend(s, [WriteOctet(j)], rest);
      assert pdu[n..] == [pdu[n]] + pdu[n + 1..];
    }
  }

  lemma Commit(s: State, j: nat) returns (t: State)
    requires WriterAt(s, j, Unlocked) && s.holder.None? && s.jobs[j].word.Pending?
    ensures Run(s, [Lock(j), CompareAndSwap(j)]) == Some(t) && OnlyJob(s, j, t)
    ensures t.jobs[j] == s.jobs[j].(word := Writing, writer := Committed(0))
    ensures t.holder == Some(j) && t.stream == s.stream && t.whole == s.whole
  {
    var u := Next(s, Lock(j)).value;
    t := Next(u, CompareAndSwap(j)).value;
    RunOne(s, Lock(j));
    RunSnoc(s, [Lock(j)], u, CompareAndSwap(j));
    assert [Lock(j)] + [CompareAndSwap(j)] == [Lock(j), CompareAndSwap(j)];
  }

  /** Posting success, releasing the mutex and reading the outcome. */
  lemma Settle(s: State, j: nat) returns (t: State)
    requires Committing(s, j) && !s.down && s.jobs[j].writer.written == |s.jobs[j].pdu|
    requires s.jobs[j].done.None? && s.holder == Some(j) && s.jobs[j].caller.Selecting?
    ensures Run(s, [FinishWrite(j), Unlock(j), ReadDone(j)]) == Some(t) && OnlyJob(s, j, t)
    ensures t.jobs[j].caller == Succeeded && t.jobs[j].writer == Finished
    ensures t.holder == None && t.stream == s.stream && t.whole == s.whole + [j]
  {
    var u := Next(s, FinishWrite(j)).value;
    var v := Next(u, Unlock(j)).value;
    t := Next(v, ReadDone(j)).value;
    RunOne(s, FinishWrite(j));
    RunSnoc(s, [FinishWrite(j)], u, Unlock(j));
    assert [FinishWrite(j)] + [Unlock(j)] == [FinishWrite(j), Unlock(j)];
    RunSnoc(s, [FinishWrite(j), Unlock(j)], v, ReadDone(j));
    assert [FinishWrite(j), Unlock(j)] + [ReadDone(j)] == [FinishWrite(j), Unlock(j), ReadDone(j)];
  }

  /**
   In every reachable state with the transport up and the mutex free, a send that is waiting for it has a
   run that puts exactly its PDU at the end of the stream and returns success.
   */
  lemma SendCompletes(s: State, j: nat) returns (steps: seq<Step>, t: State)
    requires Reachable(s) && !s.down && s.holder.None?
    requires WriterAt(s, j, Unlocked) && s.jobs[j].word.Pending? && s.jobs[j].caller.Selecting?
    ensures Run(s, steps) == Some(t) && OnlyJob(s, j, t)
    ensures t.jobs[j].caller == Succeeded && t.holder == None
    ensures t.stream == s.stream + s.jobs[j].pdu && t.whole == s.whole + [j]
  {
    hide Next, Run, Inv;
    ReachableIsOk(s);
    JobIsOk(s, j);
    var u := Commit(s, j);
    var rest, v := WriteRest(u, j);
    t := Settle(v, j);
    steps := [Lock(j), CompareAndSwap(j)] + rest + [FinishWrite(j), Unlock(j), ReadDone(j)];
    RunAppend(s, [Lock(j), CompareAndSwap(j)], rest);
    RunAppend(s, [Lock(j), CompareAndSwap(j)] + rest, [FinishWrite(j), Unlock(j), ReadDone(j)]);
    assert u.jobs[j].pdu[0..] == s.jobs[j].pdu;
  }

  /** A request whose context ends before its write starts can be given up. */
  lemma CanGiveUp(s: State, j: nat) returns (t: State)
    requires j < |s.jobs| && s.jobs[j].word.Pending? && s.jobs[j].caller.Selecting? && !s.jobs[j].raw
    ensures Run(s, [EndContext(j), GiveUp(j)]) == Some(t)
    ensures t == s.(jobs := s.jobs[j := s.jobs[j].(ended := true, word := Abandoned, caller := GaveUp)])
  {
    var a := Next(s, EndContext(j)).value;
    t := Next(a, GiveUp(j)).value;
    RunOne(s, EndContext(j));
    RunSnoc(s, [EndContext(j)], a, GiveUp(j));
    assert [EndContext(j)] + [GiveUp(j)] == [EndContext(j), GiveUp(j)];
  }

  /** A goroutine that finds its request given up writes nothing. */
  lemma AbandonedIsSkipped(s: State, j: nat) returns (t: State)
    requires WriterAt(s, j, Unlocked) && s.holder.None? && s.jobs[j].word.Abandoned? && s.jobs[j].done.None?
    ensures Run(s, [Lock(j), CompareAndSwap(j), Unlock(j)]) == Some(t) && OnlyJob(s, j, t)
    ensures t.jobs[j].caller == s.jobs[j].caller && t.jobs[j].word == Abandoned && t.jobs[j].writer == Finished
    ensures t.stream == s.stream && t.whole == s.whole && t.holder == None
  {
    var b := Next(s, Lock(j)).value;
    var c := Next(b, CompareAndSwap(j)).value;
    t := Next(c, Unlock(j)).value;
    RunOne(s, Lock(j));
    RunSnoc(s, [Lock(j)], b, CompareAndSwap(j));
    assert [Lock(j)] + [CompareAndSwap(j)] == [Lock(j), CompareAndSwap(j)];
    RunSnoc(s, [Lock(j), CompareAndSwap(j)], c, Unlock(j));
    assert [Lock(j), CompareAndSwap(j)] + [Unlock(j)] == [Lock(j), CompareAndSwap(j), Unlock(j)];
  }

  /** In every reachable state: a request given up before its write starts is done with, and the stream is as it was. */
  lemma GivenUpIsSkipped(s: State, j: nat) returns (t: State)
    requires Reachable(s) && s.holder.None? && WriterAt(s, j, Unlocked)
    requires s.jobs[j].word.Pending? && s.jobs[j].caller.Selecting? && !s.jobs[j].raw
    ensures Run(s, [EndContext(j), GiveUp(j)] + [Lock(j), CompareAndSwap(j), Unlock(j)]) == Some(t)
    ensures |t.jobs| == |s.jobs| && forall i :: 0 <= i < |s.jobs| && i != j ==> t.jobs[i] == s.jobs[i]
    ensures t.jobs[j].caller == GaveUp && t.jobs[j].word == Abandoned && t.jobs[j].writer == Finished
    ensures t.stream == s.stream && t.whole == s.whole && t.holder == None && t.down == s.down
  {
    hide Run, Inv, Next;
    ReachableIsOk(s);
    JobIsOk(s, j);
    var a := CanGiveUp(s, j);
    t := AbandonedIsSkipped(a, j);
    RunAppend(s, [EndContext(j), GiveUp(j)], [Lock(j), CompareAndSwap(j), Unlock(j)]);
  }

  /** On a transport that is down nothing more is written, and the send says that it failed. */
  lemma DownFails(s: State, j: nat) returns (t: State)
    requires Reachable(s) && s.down && s.holder.None? && WriterAt(s, j, Unlocked)
    requires s.jobs[j].word.Pending? && s.jobs[j].caller.Selecting?
    ensures Run(s, [Lock(j), CompareAndSwap(j)] + [FailWrite(j), Unlock(j)] + [ReadDone(j)]) == Some(t) && OnlyJob(s, j, t)
    ensures t.jobs[j].caller == Failed && t.stream == s.stream && t.whole == s.whole && t.holder == None
  {
    hide Run, Inv;
    ReachableIsOk(s);
    JobIsOk(s, j);
    var u := Commit(s, j);
    var v := Next(u, FailWrite(j)).value;
    var w := Next(v, Unlock(j)).value;
    t := Next(w, ReadDone(j)).value;
    RunOne(u, FailWrite(j));
    RunSnoc(u, [FailWrite(j)], v, Unlock(j));
    assert [FailWrite(j)] + [Unlock(j)] == [FailWrite(j), Unlock(j)];
    RunAppend(s, [Lock(j), CompareAndSwap(j)], [FailWrite(j), Unlock(j)]);
    RunSnoc(s, [Lock(j), CompareAndSwap(j)] + [FailWrite(j), Unlock(j)], w, ReadDone(j));
  }

  /** Once the transport is down, no step puts anything on the stream or brings it up again. */
  lemma DownIsSilent(s: State, step: Step, t: State)
    requires s.down && Next(s, step) == Some(t)
    ensures t.down && t.stream == s.stream && t.whole == s.whole && t.broken == s.broken
  {
  }
}
