/** The calls of the cancellation protocol return: from every reachable state the caller's own
    next steps lead to the end of the call, with steps of the canceller where the caller has
    to wait for it. */
module CancelProgress {
  import opened CancelProtocol

  lemma RunFirst(s: State, a: Step, steps: seq<Step>)
    requires Enabled(s, a)
    ensures Run(s, [a] + steps) == Run(Do(s, a), steps)
  {
    RunAppend(s, [a], steps);
    assert [a][..0] == [];
  }

  // ---------------------------------------------------------------- deregister

  // A step of the deregister of r, or one of the canceller.
  predicate OfDeregister(r: Reg, a: Step) {
    a == DeregLocked(r) || a == DeregSwap(r) || a == DeregEvent(r) || a == DeregExchange(r) || a == DeregWoken(r)
  }

  predicate UnderWay(s: State, r: Reg) {
    r in s.regs && !s.regs[r].dereg.NotCalled? && !s.regs[r].dereg.Done?
  }

  function StepsLeft(d: Deregistering): nat {
    match d
    case AtLock(_) => 5
    case AtSwap(_) => 4
    case AtEvent(_) => 3
    case AtExchange(_) => 2
    case Waiting(_) => 1
    case _ => 0
  }

  // The next step of a deregister that does not wait.
  function NextStep(r: Reg, d: Deregistering): Step {
    match d
    case AtLock(_) => DeregLocked(r)
    case AtSwap(_) => DeregSwap(r)
    case AtEvent(_) => DeregEvent(r)
    case AtExchange(_) => DeregExchange(r)
    case _ => DeregWoken(r)
  }

  lemma DeregisterGoesOn(s: State, r: Reg)
    requires Inv(s) && UnderWay(s, r) && (s.regs[r].dereg.Waiting? ==> s.regs[r].signaled)
    ensures var a := NextStep(r, s.regs[r].dereg);
            && Enabled(s, a) && r in Do(s, a).regs && !Do(s, a).regs[r].dereg.NotCalled?
            && StepsLeft(Do(s, a).regs[r].dereg) < StepsLeft(s.regs[r].dereg)
            && Do(s, a).regs[r].dereg.tid == s.regs[r].dereg.tid
  {
    hide RegOk, SweepOk;
    assert s.destroyed ==> Idle(s.regs[r]);
  }

  // A deregister returns: on its own, unless the canceller is inside the callback; and then
  // with the at most three steps of the canceller that end the callback and set the event.
  lemma {:induction false} DeregisterReturns(s: State, r: Reg) returns (steps: seq<Step>)
    requires Inv(s) && UnderWay(s, r)
    ensures r in Run(s, steps).regs && Run(s, steps).regs[r].dereg.Done?
    ensures Run(s, steps).regs[r].dereg.tid == s.regs[r].dereg.tid
    ensures forall a <- steps :: OfDeregister(r, a) || a == Sweep
    ensures Sweep in steps ==> s.cancel.Sweeping? && s.cancel.rest != [] && s.cancel.rest[0] == r
    ensures |steps| <= StepsLeft(s.regs[r].dereg) + 3
    decreases StepsLeft(s.regs[r].dereg)
  {
    hide Inv, Do, Enabled;
    if s.regs[r].dereg.Waiting? && !s.regs[r].signaled {
      WaiterHasWaker(s, r);
      WaiterIsWoken(s, r);
      var sweeps := seq(StepsToWake(s.cancel.step), i => Sweep);
      RunAppend(s, sweeps, [DeregWoken(r)]);
      RunFirst(Run(s, sweeps), DeregWoken(r), []);
      assert [DeregWoken(r)] + [] == [DeregWoken(r)];
      steps := sweeps + [DeregWoken(r)];
    } else {
      var a := NextStep(r, s.regs[r].dereg);
      DeregisterGoesOn(s, r);
      StepKeeps(s, a);
      SweepStays(s, r, a);
      var rest := [];
      if !Do(s, a).regs[r].dereg.Done? {
        rest := DeregisterReturns(Do(s, a), r);
      }
      RunFirst(s, a, rest);
      steps := [a] + rest;
    }
  }

  // The whole call, on thread t.
  lemma DeregisterCall(s: State, r: Reg, t: Tid) returns (steps: seq<Step>)
    requires Inv(s) && Enabled(s, Deregister(r, t))
    ensures var s' := Run(s, [Deregister(r, t)] + steps);
            r in s'.regs && s'.regs[r].dereg.Done? && s'.regs[r].dereg.tid == t
    ensures forall a <- steps :: OfDeregister(r, a) || a == Sweep
  {
    hide Inv;
    StepKeeps(s, Deregister(r, t));
    steps := DeregisterReturns(Do(s, Deregister(r, t)), r);
    RunFirst(s, Deregister(r, t), steps);
  }

  lemma SweepStays(s: State, r: Reg, a: Step)
    requires Enabled(s, a) && OfDeregister(r, a)
    ensures Do(s, a).cancel == s.cancel
  {
  }

  // ---------------------------------------------------------------- register

  predicate OfRegister(r: Reg, a: Step) {
    a == CheckFlag(r) || a == CheckAndPush(r) || a == InlineInvoke(r)
  }

  function InvokeLeft(i: Invoke): nat {
    match i
    case Claim => 5
    case Running => 4
    case Mark => 3
    case Wake => 2
    case Drop => 1
  }

  function RegisterLeft(x: Registering): nat {
    match x
    case Unlocked => 7
    case Locked => 6
    case Inline(i) => InvokeLeft(i)
    case Returned => 0
  }

  function NextRegister(r: Reg, x: Registering): Step {
    match x
    case Unlocked => CheckFlag(r)
    case Locked => CheckAndPush(r)
    case _ => InlineInvoke(r)
  }

  lemma RegisterGoesOn(s: State, r: Reg)
    requires Inv(s) && r in s.regs && !s.regs[r].reg.Returned?
    ensures var a := NextRegister(r, s.regs[r].reg);
            && Enabled(s, a) && r in Do(s, a).regs
            && RegisterLeft(Do(s, a).regs[r].reg) < RegisterLeft(s.regs[r].reg)
            && Do(s, a).flag == s.flag && Do(s, a).regs[r].dereg == s.regs[r].dereg
  {
    assert s.destroyed ==> Idle(s.regs[r]);
  }

  // A register call returns on its own: with the callback run, if the token was cancelled, else
  // with the registration in the list.
  lemma {:induction false} RegisterReturns(s: State, r: Reg) returns (steps: seq<Step>)
    requires Inv(s) && r in s.regs && !s.regs[r].reg.Returned?
    ensures var s' := Run(s, steps);
            && r in s'.regs && s'.regs[r].reg.Returned? && s'.flag == s.flag
            && (s.flag == 0 ==> r in s'.list && s'.regs[r].runs == 0)
            && (s.flag != 0 ==> r !in s'.list && s'.regs[r].runs == 1)
    ensures forall a <- steps :: OfRegister(r, a)
    ensures |steps| <= 7
    decreases RegisterLeft(s.regs[r].reg)
  {
    steps := RegisterSteps(s, r);
    RegisterOutcome(Run(s, steps), r);
  }

  // The whole call.
  lemma RegisterCall(s: State, r: Reg, t: Tid) returns (steps: seq<Step>)
    requires Inv(s) && Enabled(s, Register(r, t))
    ensures var s' := Run(s, [Register(r, t)] + steps);
            && r in s'.regs && s'.regs[r].reg.Returned?
            && (s.flag == 0 ==> r in s'.list && s'.regs[r].runs == 0)
            && (s.flag != 0 ==> r !in s'.list && s'.regs[r].runs == 1)
    ensures forall a <- steps :: OfRegister(r, a)
  {
    hide Inv;
    StepKeeps(s, Register(r, t));
    steps := RegisterReturns(Do(s, Register(r, t)), r);
    RunFirst(s, Register(r, t), steps);
  }

  lemma {:induction false} RegisterSteps(s: State, r: Reg) returns (steps: seq<Step>)
    requires Inv(s) && r in s.regs && !s.regs[r].reg.Returned?
    ensures var s' := Run(s, steps);
            && Inv(s') && r in s'.regs && s'.regs[r].reg.Returned? && s'.flag == s.flag
            && s'.regs[r].dereg.NotCalled? && !s'.destroyed && (s.flag != 0 ==> r !in s'.list)
            && (s'.cancel.Sweeping? ==> r !in s'.cancel.rest)
    ensures forall a <- steps :: OfRegister(r, a)
    ensures |steps| <= RegisterLeft(s.regs[r].reg)
    decreases RegisterLeft(s.regs[r].reg)
  {
    hide Do, Enabled, Inv;
    var a := NextRegister(r, s.regs[r].reg);
    RegisterGoesOn(s, r);
    StepKeeps(s, a);
    RegisterFrame(s, r);
    var rest := [];
    if !Do(s, a).regs[r].reg.Returned? {
      rest := RegisterSteps(Do(s, a), r);
    }
    RunFirst(s, a, rest);
    steps := [a] + rest;
  }

  lemma RegisterFrame(s: State, r: Reg)
    requires Inv(s) && r in s.regs && !s.regs[r].reg.Returned?
    requires Enabled(s, NextRegister(r, s.regs[r].reg))
    ensures var s' := Do(s, NextRegister(r, s.regs[r].reg));
            && s'.cancel == s.cancel && !s'.destroyed && (s.flag != 0 ==> r !in s'.list)
            && r in s'.regs && s'.regs[r].dereg.NotCalled?
            && (s'.cancel.Sweeping? ==> r !in s'.cancel.rest)
  {
    NotReturned(s, r);
    assert RegOk(s, r);
  }

  lemma RegisterOutcome(s: State, r: Reg)
    requires Inv(s) && r in s.regs && s.regs[r].reg.Returned? && s.regs[r].dereg.NotCalled? && !s.destroyed
    requires s.cancel.Sweeping? ==> r !in s.cancel.rest
    ensures s.flag == 0 ==> r in s.list && s.regs[r].runs == 0
    ensures if r in s.list then s.regs[r].runs == 0 else s.regs[r].runs == 1
  {
    assert RegOk(s, r);
  }

  // ---------------------------------------------------------------- cancel

  // One turn of the sweep over the registration at its front.
  lemma SweepGoesOn(s: State)
    requires Inv(s) && s.cancel.Sweeping? && s.cancel.rest != []
    ensures Enabled(s, Sweep) && Do(s, Sweep).cancel.Sweeping?
    ensures var c, d := s.cancel, Do(s, Sweep).cancel;
            || d.rest == c.rest[1..]
            || (d.rest == c.rest && InvokeLeft(d.step) < InvokeLeft(c.step))
  {
  }

  lemma {:induction false} SweepEnds(s: State) returns (steps: seq<Step>)
    requires Inv(s) && s.cancel.Sweeping?
    ensures Run(s, steps).flag == 2 && Inv(Run(s, steps))
    ensures forall a <- steps :: a == Sweep || a == CancelDone
    decreases if s.cancel.Sweeping? then |s.cancel.rest| else 0,
              if s.cancel.Sweeping? then InvokeLeft(s.cancel.step) else 0
  {
    hide Inv, Do, Enabled;
    var rest := [];
    if s.cancel.rest == [] {
      CancelEnds(s);
      StepKeeps(s, CancelDone);
      RunFirst(s, CancelDone, rest);
      steps := [CancelDone] + rest;
    } else {
      SweepGoesOn(s);
      StepKeeps(s, Sweep);
      rest := SweepEnds(Do(s, Sweep));
      RunFirst(s, Sweep, rest);
      steps := [Sweep] + rest;
    }
  }

  lemma CancelEnds(s: State)
    requires Inv(s) && s.cancel.Sweeping? && s.cancel.rest == []
    ensures Enabled(s, CancelDone) && Do(s, CancelDone).flag == 2
  {
  }

  // A cancel returns on its own, whatever the list holds and the callbacks do; and then every
  // registration that has been made and not been taken back has been run.
  lemma CancelReturns(s: State, t: Tid) returns (steps: seq<Step>)
    requires Inv(s) && !s.destroyed && s.flag == 0
    ensures var s' := Run(s, [Cancel(t), SwapList] + steps);
            && s'.flag == 2
            && (forall r <- s'.regs | s'.regs[r].reg.Returned? && !s'.regs[r].dereg.Done? :: s'.regs[r].runs == 1)
    ensures forall a <- steps :: a == Sweep || a == CancelDone
  {
    hide RegOk;
    var s1 := Do(s, Cancel(t));
    StepKeeps(s, Cancel(t));
    var s2 := Do(s1, SwapList);
    StepKeeps(s1, SwapList);
    steps := SweepEnds(s2);
    RunFirst(s1, SwapList, steps);
    RunFirst(s, Cancel(t), [SwapList] + steps);
    assert [Cancel(t), SwapList] + steps == [Cancel(t)] + ([SwapList] + steps);
    AllRun(Run(s2, steps));
  }

  lemma AllRun(s: State)
    requires Inv(s) && s.flag == 2
    ensures forall r <- s.regs | s.regs[r].reg.Returned? && !s.regs[r].dereg.Done? :: s.regs[r].runs == 1
  {
    forall r <- s.regs | s.regs[r].reg.Returned? && !s.regs[r].dereg.Done? ensures s.regs[r].runs == 1 {
      assert RegOk(s, r);
    }
  }

  // ---------------------------------------------------------------- the destructor

  // When the token goes away its list is emptied; the registrations in it are marked and lose
  // the list's reference, and the others are left alone.
  lemma DestroyEnds(s: State)
    requires Inv(s) && Enabled(s, Destroy)
    ensures var s' := Do(s, Destroy);
            && s'.destroyed && s'.list == [] && s'.flag == s.flag && s'.regs.Keys == s.regs.Keys
            && (forall r <- s.list :: s'.regs[r] == s.regs[r].(word := SYNCHRONIZE, refs := 1))
            && (forall r <- s.regs :: r !in s.list ==> s'.regs[r] == s.regs[r])
  {
    forall r <- s.list ensures r in s.regs && s.regs[r].refs == 2 {
      assert RegOk(s, r);
    }
  }
}
