/** The operation queue of a file stream. Operations are given to it by one caller; each makes a
    task that is done at once, or later, or fails. A continuation behind every operation that is
    not done at once opens the way for the next one. */
module OperationQueue {
  datatype Status = Waiting | Running | Finished(ok: bool)

  // `tail` is the empty continuation behind the operation's task: absent for an operation that
  // was done when it was given; otherwise done some time after that task.
  datatype Tail = NoTail | TailPending | TailDone

  // `behind` is the operation whose tail it was put behind; -1 if it was started inline.
  datatype Operation = Operation(status: Status, tail: Tail, behind: int)

  datatype State = State(
    ops: seq<Operation>,  // in the order in which they were given
    last: int,            // m_lastOperation: the tail of that operation, or the initial done task
    started: seq<nat>)    // history: operations in the order in which they were started

  const INIT := State([], -1, [])

  predicate LastOk(s: State) {
    -1 <= s.last < |s.ops|
  }

  predicate LastDone(s: State)
    requires LastOk(s)
  {
    s.last == -1 || s.ops[s.last].tail == TailDone
  }

  datatype Step =
    | EnqueueDone(ok: bool)  // started inline, and its task is done when it returns (or it throws)
    | EnqueueRunning         // started inline, and goes on
    | EnqueueBehind          // behind the last operation
    | Start(k: nat)          // the continuation on the tail it was put behind runs the operation
    | Finish(k: nat, ok: bool)
    | FinishTail(k: nat)

  predicate Enabled(s: State, a: Step) {
    LastOk(s) &&
    match a
    case EnqueueDone(_) => LastDone(s)
    case EnqueueRunning => LastDone(s)
    case EnqueueBehind => !LastDone(s)
    case Start(k) =>
      && k < |s.ops| && s.ops[k].status == Waiting
      && 0 <= s.ops[k].behind < |s.ops| && s.ops[s.ops[k].behind].tail == TailDone
    case Finish(k, _) => k < |s.ops| && s.ops[k].status == Running
    case FinishTail(k) => k < |s.ops| && s.ops[k].status.Finished? && s.ops[k].tail == TailPending
  }

  function Do(s: State, a: Step): State
    requires Enabled(s, a)
  {
    match a
    case EnqueueDone(ok) =>
      s.(ops := s.ops + [Operation(Finished(ok), NoTail, -1)], started := s.started + [|s.ops|])
    case EnqueueRunning =>
      s.(ops := s.ops + [Operation(Running, TailPending, -1)], started := s.started + [|s.ops|], last := |s.ops|)
    case EnqueueBehind =>
      s.(ops := s.ops + [Operation(Waiting, TailPending, s.last)], last := |s.ops|)
    case Start(k) =>
      s.(ops := s.ops[k := s.ops[k].(status := Running)], started := s.started + [k])
    case Finish(k, ok) =>
      s.(ops := s.ops[k := s.ops[k].(status := Finished(ok))])
    case FinishTail(k) =>
      s.(ops := s.ops[k := s.ops[k].(tail := TailDone)])
  }

  function Run(s: State, steps: seq<Step>): State
    decreases |steps|
  {
    if steps == [] then s
    else
      var p := Run(s, steps[..|steps| - 1]);
      if Enabled(p, steps[|steps| - 1]) then Do(p, steps[|steps| - 1]) else p
  }

  ghost predicate Inv(s: State) {
    && LastOk(s)
    // An operation is started only when all before it are finished.
    && (forall j, k :: 0 <= j < k < |s.ops| && s.ops[k].status != Waiting ==> s.ops[j].status.Finished?)
    // Operations have been started in the order in which they were given.
    && |s.started| <= |s.ops|
    && (forall i :: 0 <= i < |s.started| ==> s.started[i] == i)
    && (forall k :: 0 <= k < |s.ops| ==> (s.ops[k].status != Waiting <==> k < |s.started|))
    // A tail is done only behind a finished operation, and is what a waiting one waits for.
    && (forall k :: 0 <= k < |s.ops| && s.ops[k].tail != TailPending ==> s.ops[k].status.Finished?)
    && (forall k :: 0 <= k < |s.ops| && s.ops[k].status == Waiting ==>
          s.ops[k].behind == k - 1 >= 0 && s.ops[k - 1].tail != NoTail)
    // While the last tail is pending it is behind the last operation.
    && (!LastDone(s) ==> s.last == |s.ops| - 1 && s.ops[s.last].tail == TailPending)
    && (LastDone(s) ==> |s.started| == |s.ops| && forall k :: 0 <= k < |s.ops| ==> s.ops[k].status.Finished?)
  }

  lemma StepKeeps(s: State, a: Step)
    requires Inv(s) && Enabled(s, a)
    ensures Inv(Do(s, a))
  {
    hide Inv, Do;
    match a
    case Start(k) => StartKeeps(s, k);
    case EnqueueDone(ok) => EnqueueDoneKeeps(s, ok);
    case EnqueueRunning => EnqueueRunningKeeps(s);
    case EnqueueBehind => EnqueueBehindKeeps(s);
    case Finish(k, ok) => FinishKeeps(s, k, ok);
    case FinishTail(k) => FinishTailKeeps(s, k);
  }

  lemma EnqueueDoneKeeps(s: State, ok: bool)
    requires Inv(s) && Enabled(s, EnqueueDone(ok))
    ensures Inv(Do(s, EnqueueDone(ok)))
  {
  }

  lemma EnqueueRunningKeeps(s: State)
    requires Inv(s) && Enabled(s, EnqueueRunning)
    ensures Inv(Do(s, EnqueueRunning))
  {
  }

  lemma EnqueueBehindKeeps(s: State)
    requires Inv(s) && Enabled(s, EnqueueBehind)
    ensures Inv(Do(s, EnqueueBehind))
  {
  }

  lemma FinishKeeps(s: State, k: nat, ok: bool)
    requires Inv(s) && Enabled(s, Finish(k, ok))
    ensures Inv(Do(s, Finish(k, ok)))
  {
  }

  lemma FinishTailKeeps(s: State, k: nat)
    requires Inv(s) && Enabled(s, FinishTail(k))
    ensures Inv(Do(s, FinishTail(k)))
  {
  }

  lemma StartKeeps(s: State, k: nat)
    requires Inv(s) && Enabled(s, Start(k))
    ensures k == |s.started| && Inv(Do(s, Start(k)))
  {
    assert s.ops[k - 1].status.Finished?;
    assert k == |s.started|;
  }

  lemma {:induction false} RunKeeps(steps: seq<Step>)
    ensures Inv(Run(INIT, steps))
    decreases |steps|
  {
    hide Do, Enabled;
    if steps != [] {
      RunKeeps(steps[..|steps| - 1]);
      var p := Run(INIT, steps[..|steps| - 1]);
      if Enabled(p, steps[|steps| - 1]) {
        StepKeeps(p, steps[|steps| - 1]);
      }
    }
  }

  // Operations start in the order in which they were given, each only after all before it are
  // done, successfully or not.
  lemma StartsInOrder(steps: seq<Step>)
    ensures var s := Run(INIT, steps);
            && (forall i :: 0 <= i < |s.started| ==> s.started[i] == i)
            && (forall j, k :: 0 <= j < k < |s.ops| && s.ops[k].status != Waiting ==> s.ops[j].status.Finished?)
  {
    RunKeeps(steps);
  }

  // No operation is left waiting by one before it, even if that one failed: as soon as the
  // one before it is done, the next steps of the two continuations start it.
  lemma FailureStopsNobody(s: State, k: nat)
    requires Inv(s) && 0 < k < |s.ops| && s.ops[k].status == Waiting && s.ops[k - 1].status.Finished?
    ensures Enabled(s, Start(k)) || (Enabled(s, FinishTail(k - 1)) && Enabled(Do(s, FinishTail(k - 1)), Start(k)))
  {
  }

  // What giving an operation to the queue does: it joins the end, and is started at once
  // exactly if nothing before it is under way.
  lemma EnqueueAdds(s: State, a: Step)
    requires Inv(s) && Enabled(s, a) && (a.EnqueueDone? || a.EnqueueRunning? || a.EnqueueBehind?)
    ensures var s' := Do(s, a);
            var k := |s.ops|;
            && |s'.ops| == k + 1 && s'.ops[..k] == s.ops
            && (a.EnqueueDone? ==> s'.ops[k].status == Finished(a.ok))
            && (a.EnqueueRunning? ==> s'.ops[k].status == Running)
            && (a.EnqueueBehind? ==> s'.ops[k].status == Waiting)
            && s'.started == s.started + (if a.EnqueueBehind? then [] else [k])
            && (a.EnqueueBehind? <==> exists j :: 0 <= j < k && s.ops[j].tail == TailPending && j == s.last)
  {
  }

  lemma RunFirst(s: State, a: Step, steps: seq<Step>)
    requires Enabled(s, a)
    ensures Run(s, [a] + steps) == Run(Do(s, a), steps)
    decreases |steps|
  {
    if steps == [] {
      assert [a] + steps == [a] && [a][..0] == [];
    } else {
      assert ([a] + steps)[..|[a] + steps| - 1] == [a] + steps[..|steps| - 1];
      RunFirst(s, a, steps[..|steps| - 1]);
    }
  }

  // The two statuses of an operation differ only for k.
  ghost predicate OnlyStatus(s: State, s': State, k: nat) {
    |s'.ops| == |s.ops| && forall j :: 0 <= j < |s.ops| && j != k ==> s'.ops[j].status == s.ops[j].status
  }

  // An operation that all before it have left behind, with errors or without, is run to its
  // end by at most three more steps, and its outcome is its own.
  lemma RunsToEnd(s: State, k: nat, ok: bool) returns (steps: seq<Step>)
    requires Inv(s) && k < |s.ops| && !s.ops[k].status.Finished?
    requires forall j :: 0 <= j < k ==> s.ops[j].status.Finished?
    ensures |steps| <= 3
    ensures var s' := Run(s, steps);
            && Inv(s') && OnlyStatus(s, s', k) && s'.ops[k].status == Finished(ok)
            && s'.started == s.started + if s.ops[k].status == Waiting then [k] else []
  {
    hide Inv, Run;
    if s.ops[k].status == Running {
      steps := Ends(s, k, ok);
    } else if Enabled(s, Start(k)) {
      steps := Starts(s, k, ok);
    } else {
      TailEnds(s, k);
      StepKeeps(s, FinishTail(k - 1));
      steps := Starts(Do(s, FinishTail(k - 1)), k, ok);
      RunFirst(s, FinishTail(k - 1), steps);
      steps := [FinishTail(k - 1)] + steps;
    }
  }

  lemma TailEnds(s: State, k: nat)
    requires Inv(s) && k < |s.ops| && s.ops[k].status == Waiting && !Enabled(s, Start(k))
    requires forall j :: 0 <= j < k ==> s.ops[j].status.Finished?
    ensures k > 0 && Enabled(s, FinishTail(k - 1)) && Enabled(Do(s, FinishTail(k - 1)), Start(k))
  {
  }

  lemma Starts(s: State, k: nat, ok: bool) returns (steps: seq<Step>)
    requires Inv(s) && Enabled(s, Start(k))
    ensures |steps| <= 2
    ensures var s' := Run(s, steps);
            && Inv(s') && OnlyStatus(s, s', k) && s'.ops[k].status == Finished(ok)
            && s'.started == s.started + [k]
  {
    hide Inv, Run;
    StepKeeps(s, Start(k));
    steps := Ends(Do(s, Start(k)), k, ok);
    RunFirst(s, Start(k), steps);
    steps := [Start(k)] + steps;
  }

  lemma Ends(s: State, k: nat, ok: bool) returns (steps: seq<Step>)
    requires Inv(s) && k < |s.ops| && s.ops[k].status == Running
    ensures |steps| <= 1
    ensures var s' := Run(s, steps);
            && Inv(s') && OnlyStatus(s, s', k) && s'.ops[k].status == Finished(ok) && s'.started == s.started
  {
    steps := [Finish(k, ok)] + [];
    assert Enabled(s, Finish(k, ok));
    FinishKeeps(s, k, ok);
    RunFirst(s, Finish(k, ok), []);
  }
}
