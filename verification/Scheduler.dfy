/** The ambient scheduler: installed once, under a spin lock, by whoever comes first. Every read
    or write of a shared variable is one step; a run is any interleaving of get_scheduler and
    set_scheduler calls after the global object has been constructed. */
module Scheduler {
  type Tid = nat

  // A scheduler pointer; 0 is null.
  type Ptr = nat

  datatype Pc =
    | Idle
      // get_scheduler
    | GetTest | GetLock | GetRetest | GetCreate | GetUnlock | GetReturn
      // set_scheduler(p)
    | SetLock(p: Ptr) | SetTest(p: Ptr) | SetStore(p: Ptr) | SetUnlock(stored: bool)

  datatype State = State(
    lock: int,               // _M_lock
    scheduler: Ptr,          // m_scheduler
    pcs: map<Tid, Pc>,
    installed: seq<Ptr>,     // history: the schedulers that were stored
    returned: seq<Ptr>,      // history: what get_scheduler returned
    sets: seq<bool>)         // history: which set_scheduler calls stored, and which threw

  const INIT := State(0, 0, map[], [], [], [])

  function At(s: State, t: Tid): Pc {
    if t in s.pcs then s.pcs[t] else Idle
  }

  // `made` is the address of a default scheduler, should one be made in this step.
  datatype Step = Get(t: Tid) | Set(t: Tid, p: Ptr) | Next(t: Tid, made: Ptr)

  predicate Enabled(s: State, a: Step) {
    match a
    case Get(t) => At(s, t) == Idle
    case Set(t, _) => At(s, t) == Idle
    case Next(t, made) => At(s, t) != Idle && made != 0
  }

  function Goto(s: State, t: Tid, pc: Pc): State {
    s.(pcs := s.pcs[t := pc])
  }

  function Do(s: State, a: Step): State
    requires Enabled(s, a)
  {
    match a
    case Get(t) => Goto(s, t, GetTest)
    case Set(t, p) => Goto(s, t, SetLock(p))
    case Next(t, made) =>
      match At(s, t)
      case GetTest => Goto(s, t, if s.scheduler == 0 then GetLock else GetReturn)
      // One compare-and-exchange; a thread that fails yields and tries again.
      case GetLock => if s.lock == 0 then Goto(s, t, GetRetest).(lock := 1) else s
      case GetRetest => Goto(s, t, if s.scheduler == 0 then GetCreate else GetUnlock)
      case GetCreate => Goto(s, t, GetUnlock).(scheduler := made, installed := s.installed + [made])
      case GetUnlock => Goto(s, t, GetReturn).(lock := 0)
      case GetReturn => Goto(s, t, Idle).(returned := s.returned + [s.scheduler])
      case SetLock(p) => if s.lock == 0 then Goto(s, t, SetTest(p)).(lock := 1) else s
      case SetTest(p) => Goto(s, t, if s.scheduler != 0 then SetUnlock(false) else SetStore(p))
      case SetStore(p) =>
        Goto(s, t, SetUnlock(true)).(scheduler := p, installed := if p == 0 then s.installed else s.installed + [p])
      case SetUnlock(stored) => Goto(s, t, Idle).(lock := 0, sets := s.sets + [stored])
  }

  function Run(s: State, steps: seq<Step>): State
    decreases |steps|
  {
    if steps == [] then s
    else
      var p := Run(s, steps[..|steps| - 1]);
      if Enabled(p, steps[|steps| - 1]) then Do(p, steps[|steps| - 1]) else p
  }

  // Between locking and unlocking.
  predicate Critical(pc: Pc) {
    pc.GetRetest? || pc.GetCreate? || pc.GetUnlock? || pc.SetTest? || pc.SetStore? || pc.SetUnlock?
  }

  predicate PcOk(s: State, pc: Pc) {
    && (Critical(pc) ==> s.lock == 1)
    && (pc.GetCreate? || pc.SetStore? ==> s.scheduler == 0)
    && (pc.GetUnlock? || pc.GetReturn? ==> s.scheduler != 0)
  }

  ghost predicate Inv(s: State) {
    && s.installed == (if s.scheduler == 0 then [] else [s.scheduler])
    && (forall r <- s.returned :: r != 0 && r == s.scheduler)
    && (s.lock == 0 || (s.lock == 1 && exists t: Tid :: Critical(At(s, t))))
    && (forall t: Tid :: PcOk(s, At(s, t)))
    && (forall t: Tid, u: Tid :: Critical(At(s, t)) && Critical(At(s, u)) ==> t == u)
  }

  lemma StepKeeps(s: State, a: Step)
    requires Inv(s) && Enabled(s, a)
    ensures Inv(Do(s, a))
  {
    hide PcOk, Critical;
    HolderStays(s, a);
    InstalledKeeps(s, a);
    forall t: Tid ensures PcOk(Do(s, a), At(Do(s, a), t)) {
      PcKeeps(s, a, t);
    }
    forall t: Tid, u: Tid | Critical(At(Do(s, a), t)) && Critical(At(Do(s, a), u)) ensures t == u {
      ExclusionKeeps(s, a, t, u);
    }
  }

  lemma InstalledKeeps(s: State, a: Step)
    requires Inv(s) && Enabled(s, a)
    ensures var s' := Do(s, a);
            && s'.installed == (if s'.scheduler == 0 then [] else [s'.scheduler])
            && (forall r <- s'.returned :: r != 0 && r == s'.scheduler)
  {
    assert PcOk(s, At(s, a.t));
  }

  lemma PcKeeps(s: State, a: Step, t: Tid)
    requires Inv(s) && Enabled(s, a)
    ensures PcOk(Do(s, a), At(Do(s, a), t))
  {
    assert PcOk(s, At(s, t)) && PcOk(s, At(s, a.t));
    assert Critical(At(s, t)) && Critical(At(s, a.t)) ==> t == a.t;
  }

  lemma ExclusionKeeps(s: State, a: Step, t: Tid, u: Tid)
    requires Inv(s) && Enabled(s, a) && Critical(At(Do(s, a), t)) && Critical(At(Do(s, a), u))
    ensures t == u
  {
    assert PcOk(s, At(s, t)) && PcOk(s, At(s, u));
    assert Critical(At(s, t)) && Critical(At(s, u)) ==> t == u;
  }

  // While the lock is taken somebody has it.
  lemma HolderStays(s: State, a: Step)
    requires Inv(s) && Enabled(s, a)
    ensures var s' := Do(s, a); s'.lock == 0 || (s'.lock == 1 && exists t: Tid :: Critical(At(s', t)))
  {
    var s' := Do(s, a);
    if s.lock == 1 {
      var t: Tid :| Critical(At(s, t));
      if s'.lock == 1 {
        assert Critical(At(s', t));
      }
    } else if s'.lock == 1 {
      assert Critical(At(s', a.t));
    }
  }

  lemma {:induction false} RunKeeps(steps: seq<Step>)
    ensures Inv(Run(INIT, steps))
    decreases |steps|
  {
    hide Do, Enabled, PcOk, Critical;
    if steps == [] {
      InitOk();
    } else {
      RunKeeps(steps[..|steps| - 1]);
      var p := Run(INIT, steps[..|steps| - 1]);
      if Enabled(p, steps[|steps| - 1]) {
        StepKeeps(p, steps[|steps| - 1]);
      }
    }
  }

  lemma InitOk()
    ensures Inv(INIT)
  {
  }

  // The spin lock gives mutual exclusion, at most one scheduler is ever installed, and every
  // get_scheduler call returns that one.
  lemma InstalledOnce(steps: seq<Step>)
    ensures var s := Run(INIT, steps);
            && |s.installed| <= 1
            && (forall r <- s.returned :: s.installed == [r])
            && (forall t: Tid, u: Tid :: Critical(At(s, t)) && Critical(At(s, u)) ==> t == u)
  {
    RunKeeps(steps);
  }

  // And it is never taken away again: what is installed stays installed.
  lemma {:induction false} StaysInstalled(before: seq<Step>, after: seq<Step>)
    requires Run(INIT, before).scheduler != 0
    ensures Run(INIT, before + after).scheduler == Run(INIT, before).scheduler
    decreases |after|
  {
    hide Inv, Enabled, PcOk;
    if after == [] {
      assert before + after == before;
    } else {
      var n := |after| - 1;
      StaysInstalled(before, after[..n]);
      assert (before + after)[..|before + after| - 1] == before + after[..n];
      RunKeeps(before + after[..n]);
      if Enabled(Run(INIT, before + after[..n]), after[n]) {
        NotReplaced(Run(INIT, before + after[..n]), after[n]);
      }
    }
  }

  lemma NotReplaced(s: State, a: Step)
    requires Inv(s) && Enabled(s, a) && s.scheduler != 0
    ensures Do(s, a).scheduler == s.scheduler
  {
    assert PcOk(s, At(s, a.t));
  }

  // ---------------------------------------------------------------- whole calls

  // The n next steps of a thread.
  function Own(t: Tid, made: Ptr, n: nat): seq<Step> {
    seq(n, i => Next(t, made))
  }

  lemma RunOne(s: State, a: Step)
    requires Enabled(s, a)
    ensures Run(s, [a]) == Do(s, a)
  {
    assert [a][..0] == [];
  }

  lemma {:induction false} RunAppend(s: State, a: seq<Step>, b: seq<Step>)
    ensures Run(s, a + b) == Run(Run(s, a), b)
    decreases |b|
  {
    if b == [] {
      assert a + b == a;
    } else {
      assert (a + b)[..|a + b| - 1] == a + b[..|b| - 1];
      RunAppend(s, a, b[..|b| - 1]);
    }
  }

  lemma OwnFirst(s: State, t: Tid, made: Ptr, n: nat)
    requires made != 0 && At(s, t) != Idle && n > 0
    ensures Run(s, Own(t, made, n)) == Run(Do(s, Next(t, made)), Own(t, made, n - 1))
  {
    RunOne(s, Next(t, made));
    RunAppend(s, [Next(t, made)], Own(t, made, n - 1));
    assert Own(t, made, n) == [Next(t, made)] + Own(t, made, n - 1);
  }

  lemma OwnNone(s: State, t: Tid, made: Ptr)
    ensures Run(s, Own(t, made, 0)) == s
  {
  }

  // A set_scheduler call that has the lock: it stores its argument if nothing is installed, and
  // otherwise throws and stores nothing; either way it gives the lock back.
  lemma SetReturns(s: State, t: Tid, p: Ptr, made: Ptr)
    requires At(s, t) == SetTest(p) && made != 0
    ensures var s' := Run(s, Own(t, made, if s.scheduler == 0 then 3 else 2));
            && At(s', t) == Idle && s'.lock == 0 && s'.returned == s.returned
            && s'.sets == s.sets + [s.scheduler == 0]
            && s'.scheduler == (if s.scheduler == 0 then p else s.scheduler)
            && s'.installed == s.installed + if s.scheduler == 0 && p != 0 then [p] else []
  {
    hide Run, Own;
    var n := if s.scheduler == 0 then 3 else 2;
    OwnFirst(s, t, made, n);
    var s1 := Do(s, Next(t, made));
    OwnFirst(s1, t, made, n - 1);
    var s2 := Do(s1, Next(t, made));
    if s.scheduler == 0 {
      OwnFirst(s2, t, made, 1);
      OwnNone(Do(s2, Next(t, made)), t, made);
    } else {
      OwnNone(s2, t, made);
    }
  }

  // A whole set_scheduler call while nobody has the lock.
  lemma SetCall(s: State, t: Tid, p: Ptr, made: Ptr)
    requires At(s, t) == Idle && s.lock == 0 && made != 0
    ensures var s' := Run(s, [Set(t, p)] + Own(t, made, if s.scheduler == 0 then 4 else 3));
            && At(s', t) == Idle && s'.lock == 0 && s'.returned == s.returned
            && s'.sets == s.sets + [s.scheduler == 0]
            && s'.scheduler == (if s.scheduler == 0 then p else s.scheduler)
            && s'.installed == s.installed + if s.scheduler == 0 && p != 0 then [p] else []
  {
    hide Run, Own;
    var n := if s.scheduler == 0 then 4 else 3;
    RunOne(s, Set(t, p));
    RunAppend(s, [Set(t, p)], Own(t, made, n));
    var s1 := Do(s, Set(t, p));
    OwnFirst(s1, t, made, n);
    SetReturns(Do(s1, Next(t, made)), t, p, made);
  }

  // A whole get_scheduler call while nobody has the lock: it returns what is installed, after
  // installing a default scheduler if nothing is.
  lemma GetCall(s: State, t: Tid, made: Ptr)
    requires At(s, t) == Idle && s.lock == 0 && made != 0
    ensures var s' := Run(s, [Get(t)] + Own(t, made, if s.scheduler == 0 then 6 else 2));
            && At(s', t) == Idle && s'.lock == 0 && s'.sets == s.sets
            && s'.scheduler == (if s.scheduler == 0 then made else s.scheduler)
            && s'.returned == s.returned + [s'.scheduler]
            && s'.installed == s.installed + if s.scheduler == 0 then [made] else []
  {
    hide Run, Own;
    var n := if s.scheduler == 0 then 6 else 2;
    RunOne(s, Get(t));
    RunAppend(s, [Get(t)], Own(t, made, n));
    var s1 := Do(s, Get(t));
    OwnFirst(s1, t, made, n);
    var s2 := Do(s1, Next(t, made));
    OwnFirst(s2, t, made, n - 1);
    var s3 := Do(s2, Next(t, made));
    if s.scheduler != 0 {
      OwnNone(s3, t, made);
    } else {
      GetMakes(s3, t, made);
    }
  }

  lemma GetMakes(s: State, t: Tid, made: Ptr)
    requires At(s, t) == GetRetest && s.scheduler == 0 && made != 0
    ensures var s' := Run(s, Own(t, made, 4));
            && At(s', t) == Idle && s'.lock == 0 && s'.sets == s.sets && s'.scheduler == made
            && s'.returned == s.returned + [made] && s'.installed == s.installed + [made]
  {
    hide Run, Own;
    OwnFirst(s, t, made, 4);
    var s1 := Do(s, Next(t, made));
    OwnFirst(s1, t, made, 3);
    var s2 := Do(s1, Next(t, made));
    OwnFirst(s2, t, made, 2);
    var s3 := Do(s2, Next(t, made));
    OwnFirst(s3, t, made, 1);
    OwnNone(Do(s3, Next(t, made)), t, made);
  }

  // ---------------------------------------------------------------- under interference

  // The thread is still on its way to storing p.
  predicate AboutToStore(s: State, t: Tid, p: Ptr) {
    (At(s, t) == SetTest(p) || At(s, t) == SetStore(p)) && s.scheduler == 0
  }

  // A set_scheduler call that has the lock and finds nothing installed installs its argument,
  // whatever other threads do: once it has gone on, that is the one scheduler, for good, and
  // all that any get_scheduler call ever returns.
  lemma {:induction false} SetInstalls(before: seq<Step>, after: seq<Step>, t: Tid, p: Ptr)
    requires AboutToStore(Run(INIT, before), t, p) && p != 0
    ensures var s := Run(INIT, before + after);
            || AboutToStore(s, t, p)
            || (s.installed == [p] && s.scheduler == p && forall r <- s.returned :: r == p)
    decreases |after|
  {
    hide Inv, Do, Enabled, AboutToStore;
    RunKeeps(before + after);
    if after == [] {
      assert before + after == before;
    } else {
      var n := |after| - 1;
      SetInstalls(before, after[..n], t, p);
      assert (before + after)[..|before + after| - 1] == before + after[..n];
      RunKeeps(before + after[..n]);
      var q := Run(INIT, before + after[..n]);
      if Enabled(q, after[n]) {
        StoreStep(q, after[n], t, p);
        StepKeeps(q, after[n]);
      }
    }
    OneInstalled(Run(INIT, before + after));
  }

  lemma OneInstalled(s: State)
    requires Inv(s)
    ensures s.installed == if s.scheduler == 0 then [] else [s.scheduler]
    ensures forall r <- s.returned :: r == s.scheduler
  {
  }

  lemma StoreStep(s: State, a: Step, t: Tid, p: Ptr)
    requires Inv(s) && Enabled(s, a) && p != 0
    ensures AboutToStore(s, t, p) ==> AboutToStore(Do(s, a), t, p) || Do(s, a).scheduler == p
    ensures s.scheduler == p ==> Do(s, a).scheduler == p
  {
    assert PcOk(s, At(s, a.t));
    assert Critical(At(s, t)) && Critical(At(s, a.t)) ==> t == a.t;
  }

  // Whoever waits for the lock waits for a thread whose own next steps give it back.
  lemma LockIsFreed(s: State, made: Ptr) returns (t: Tid, n: nat)
    requires Inv(s) && s.lock == 1 && made != 0
    ensures n <= 3 && Run(s, Own(t, made, n)).lock == 0
  {
    hide Run, Own;
    t :| Critical(At(s, t));
    var s1 := Do(s, Next(t, made));
    var s2 := if At(s1, t) == Idle then s1 else Do(s1, Next(t, made));
    n := if s1.lock == 0 then 1 else if s2.lock == 0 then 2 else 3;
    OwnFirst(s, t, made, n);
    if n > 1 {
      OwnFirst(s1, t, made, n - 1);
    }
    if n > 2 {
      OwnFirst(s2, t, made, 1);
      OwnNone(Do(s2, Next(t, made)), t, made);
    }
    OwnNone(s1, t, made);
    OwnNone(s2, t, made);
  }
}
