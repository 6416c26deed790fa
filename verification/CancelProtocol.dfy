/** Cancelling a token while callbacks are being registered and deregistered on other threads.

    Each step is one atomic operation, or one section under the list lock, of one thread; a
    run is any interleaving of steps, with sequential consistency. Registrations, the threads
    that make them and the threads that take them back are unbounded in number. */
module CancelProtocol {
  import opened TokenList

  type Reg = nat

  // A thread id never collides with the four state constants (see ::_Invoke's assertion).
  type Tid = t: int | t != 0 && t % 4 == 0 witness 4

  const CLEAR: int := 0
  const DEFER_DELETE: int := 1
  const SYNCHRONIZE: int := 2
  const CALLED: int := 3

  // The next step of one execution of _Invoke: claim the callback, finish running it, mark
  // it called, wake a waiting deregister, drop the list's reference.
  datatype Invoke = Claim | Running | Mark | Wake | Drop

  datatype Registering = Unlocked | Locked | Inline(step: Invoke) | Returned

  // `stray` records that the locked section released a reference although the registration
  // was not in the list.
  datatype Deregistering =
    | NotCalled
    | AtLock(tid: Tid)
    | AtSwap(tid: Tid)
    | AtEvent(tid: Tid)
    | AtExchange(tid: Tid)
    | Waiting(tid: Tid)
    | Done(tid: Tid, stray: bool)

  datatype Registration = Registration(
    word: int,            // _M_state
    refs: int,            // _M_refCount; 1 is the caller's handle, which is kept
    owner: Tid,           // the registering thread
    reg: Registering,
    dereg: Deregistering,
    sync: bool,           // _M_pSyncBlock points to the event of a deregister
    signaled: bool,       // that event
    runs: nat)            // how often the callback was started

  datatype Cancelling =
    | NotCancelled
    | AtListSwap(tid: Tid)
    | Sweeping(tid: Tid, rest: seq<Reg>, step: Invoke)
    | Finished

  datatype State = State(flag: int, list: seq<Reg>, cancel: Cancelling, destroyed: bool,
                         regs: map<Reg, Registration>)

  const INIT := State(0, [], NotCancelled, false, map[])

  // ---------------------------------------------------------------- steps

  // One step of _Invoke by thread t; it leaves the next step, or none at its end.
  function InvokeStep(x: Registration, i: Invoke, t: Tid): Registration {
    match i
    case Claim => if x.word == CLEAR then x.(word := t, runs := x.runs + 1) else x
    case Running => x
    case Mark => if x.word == t then x.(word := CALLED) else x
    case Wake => x.(signaled := true)
    case Drop => x.(refs := x.refs - 1)
  }

  function NextInvoke(x: Registration, i: Invoke, t: Tid): Invoke
    requires i != Drop
  {
    match i
    case Claim => if x.word == CLEAR then Running else Drop
    case Running => Mark
    case Mark => if x.word == SYNCHRONIZE then Wake else Drop
    case Wake => Drop
  }

  datatype Step =
    | Register(r: Reg, tid: Tid)   // a new registration, state CLEAR, referenced
    | CheckFlag(r: Reg)            // the test outside the lock
    | CheckAndPush(r: Reg)         // the test under the lock, and the push
    | InlineInvoke(r: Reg)         // the registering thread invokes the callback itself
    | Cancel(tid: Tid)             // the exchange on the flag
    | SwapList                     // the canceller empties the list under the lock
    | Sweep                        // the canceller's next step of _Invoke
    | CancelDone
    | Deregister(r: Reg, tid: Tid)
    | DeregLocked(r: Reg)
    | DeregSwap(r: Reg)            // CLEAR to DEFER_DELETE
    | DeregEvent(r: Reg)
    | DeregExchange(r: Reg)        // anything to SYNCHRONIZE
    | DeregWoken(r: Reg)
    | Destroy                      // the token goes away; nobody else uses it any more

  predicate Idle(x: Registration) {
    x.reg.Returned? && (x.dereg.NotCalled? || x.dereg.Done?)
  }

  predicate Enabled(s: State, a: Step) {
    !s.destroyed &&
    match a
    case Register(r, t) => r !in s.regs
    case CheckFlag(r) => r in s.regs && s.regs[r].reg.Unlocked?
    case CheckAndPush(r) => r in s.regs && s.regs[r].reg.Locked?
    case InlineInvoke(r) => r in s.regs && s.regs[r].reg.Inline?
    case Cancel(_) => true
    case SwapList => s.cancel.AtListSwap?
    case Sweep => s.cancel.Sweeping? && s.cancel.rest != [] && s.cancel.rest[0] in s.regs
    case CancelDone => s.cancel.Sweeping? && s.cancel.rest == []
    case Deregister(r, _) => r in s.regs && s.regs[r].reg.Returned? && s.regs[r].dereg.NotCalled?
    case DeregLocked(r) => r in s.regs && s.regs[r].dereg.AtLock?
    case DeregSwap(r) => r in s.regs && s.regs[r].dereg.AtSwap?
    case DeregEvent(r) => r in s.regs && s.regs[r].dereg.AtEvent?
    case DeregExchange(r) => r in s.regs && s.regs[r].dereg.AtExchange?
    case DeregWoken(r) => r in s.regs && s.regs[r].dereg.Waiting? && s.regs[r].signaled
    case Destroy => (s.cancel.NotCancelled? || s.cancel.Finished?) && forall r <- s.regs :: Idle(s.regs[r])
  }

  function Set(s: State, r: Reg, x: Registration): State {
    s.(regs := s.regs[r := x])
  }

  function Do(s: State, a: Step): State
    requires Enabled(s, a)
  {
    match a
    case Register(r, t) =>
      Set(s, r, Registration(CLEAR, 2, t, Unlocked, NotCalled, false, false, 0))
    case CheckFlag(r) =>
      var x := s.regs[r];
      Set(s, r, x.(reg := if s.flag == 0 then Locked else Inline(Claim)))
    case CheckAndPush(r) =>
      var x := s.regs[r];
      if s.flag == 0 then Set(s, r, x.(reg := Returned)).(list := s.list + [r])
      else Set(s, r, x.(reg := Inline(Claim)))
    case InlineInvoke(r) =>
      var x := s.regs[r];
      var i := x.reg.step;
      Set(s, r, InvokeStep(x, i, x.owner).(reg := if i == Drop then Returned else Inline(NextInvoke(x, i, x.owner))))
    case Cancel(t) =>
      if s.flag == 0 then s.(flag := 1, cancel := AtListSwap(t)) else s
    case SwapList =>
      s.(list := [], cancel := Sweeping(s.cancel.tid, s.list, Claim))
    case Sweep =>
      var Sweeping(t, rest, i) := s.cancel;
      var x := s.regs[rest[0]];
      Set(s, rest[0], InvokeStep(x, i, t)).(
        cancel := if i == Drop then Sweeping(t, rest[1..], Claim) else Sweeping(t, rest, NextInvoke(x, i, t)))
    case CancelDone =>
      s.(flag := 2, cancel := Finished)
    case Deregister(r, t) =>
      Set(s, r, s.regs[r].(dereg := AtLock(t)))
    case DeregLocked(r) =>
      var x := s.regs[r];
      if s.list != [] then
        Set(s, r, x.(word := SYNCHRONIZE, refs := x.refs - 1, dereg := Done(x.dereg.tid, r !in s.list)))
          .(list := Remove(s.list, r))
      else Set(s, r, x.(dereg := AtSwap(x.dereg.tid)))
    case DeregSwap(r) =>
      var x := s.regs[r];
      var t := x.dereg.tid;
      Set(s, r,
          if x.word == CLEAR then x.(word := DEFER_DELETE, dereg := Done(t, false))
          else if x.word == CALLED || x.word == t then x.(dereg := Done(t, false))
          else x.(dereg := AtEvent(t)))
    case DeregEvent(r) =>
      var x := s.regs[r];
      Set(s, r, x.(sync := true, signaled := false, dereg := AtExchange(x.dereg.tid)))
    case DeregExchange(r) =>
      var x := s.regs[r];
      Set(s, r, x.(word := SYNCHRONIZE,
                   dereg := if x.word == CALLED then Done(x.dereg.tid, false) else Waiting(x.dereg.tid)))
    case DeregWoken(r) =>
      Set(s, r, s.regs[r].(dereg := Done(s.regs[r].dereg.tid, false)))
    case Destroy =>
      s.(list := [], destroyed := true,
         regs := map r | r in s.regs ::
           if r in s.list then s.regs[r].(word := SYNCHRONIZE, refs := s.regs[r].refs - 1) else s.regs[r])
  }

  // Runs: a step that is not enabled is skipped.
  function Run(s: State, steps: seq<Step>): State
    decreases |steps|
  {
    if steps == [] then s
    else
      var p := Run(s, steps[..|steps| - 1]);
      if Enabled(p, steps[|steps| - 1]) then Do(p, steps[|steps| - 1]) else p
  }

  // ---------------------------------------------------------------- the invariant

  // Where a registration is on its way from its register call to the release of the
  // reference that the list holds.
  datatype Place = Entering | Listed | Queued | Invoked(tid: Tid, step: Invoke) | Gone

  function PlaceOf(s: State, r: Reg): Place
    requires r in s.regs
  {
    var x := s.regs[r];
    match x.reg
    case Unlocked => Entering
    case Locked => Entering
    case Inline(i) => Invoked(x.owner, i)
    case Returned =>
      if r in s.list then Listed
      else if s.cancel.Sweeping? && r in s.cancel.rest then
        if s.cancel.rest[0] == r then Invoked(s.cancel.tid, s.cancel.step) else Queued
      else Gone
  }

  // What the state word, the callback count and the deregister may be at each place.
  predicate WordOk(p: Place, x: Registration, destroyed: bool) {
    match p
    case Entering => x.word == CLEAR && x.runs == 0 && x.dereg.NotCalled?
    case Listed => x.word == CLEAR && x.runs == 0 && (x.dereg.NotCalled? || x.dereg.AtLock?)
    case Queued => Unclaimed(x)
    case Invoked(t, i) =>
      (match i
       case Claim => Unclaimed(x)
       case Running => Claimed(x, t)
       case Mark => Claimed(x, t)
       case Wake =>
         && x.runs == 1 && x.word == SYNCHRONIZE
         && x.dereg.Waiting? && x.dereg.tid != t && x.sync && !x.signaled
       case Drop => Over(x))
    case Gone =>
      || Over(x)
      || (x.word == SYNCHRONIZE && x.runs == 0 && (x.dereg.Done? || (destroyed && x.dereg.NotCalled?)))
  }

  predicate Unclaimed(x: Registration) {
    && x.runs == 0
    && (|| (x.word == CLEAR && (x.dereg.NotCalled? || x.dereg.AtLock? || x.dereg.AtSwap?))
        || (x.word == DEFER_DELETE && x.dereg.Done?))
  }

  // The callback is running, or has run, on thread t and is not yet marked as called.
  predicate Claimed(x: Registration, t: Tid) {
    && x.runs == 1
    && (|| (x.word == t && !x.dereg.Waiting? && (x.dereg.Done? || x.dereg.AtEvent? || x.dereg.AtExchange?
                ==> (x.dereg.tid == t <==> x.dereg.Done?)) && (x.dereg.AtExchange? ==> x.sync && !x.signaled))
        || (x.word == SYNCHRONIZE && x.dereg.Waiting? && x.dereg.tid != t && x.sync && !x.signaled))
  }

  // The callback has been called, or will never be.
  predicate Over(x: Registration) {
    || (x.runs == 1 && x.word == CALLED && !x.dereg.Waiting?)
    || (x.runs == 1 && x.word == SYNCHRONIZE && (x.dereg.Done? || (x.dereg.Waiting? && x.signaled)))
    || (x.runs == 0 && x.word == DEFER_DELETE && x.dereg.Done?)
  }

  predicate Stray(x: Registration) {
    x.dereg.Done? && x.dereg.stray
  }

  // One reference for the handle and one for the list, until _Invoke, the deregister or the
  // destructor has released it.
  predicate RefsOk(p: Place, x: Registration) {
    && x.refs == 1 + (if p.Gone? then 0 else 1) - (if Stray(x) then 1 else 0)
    && (Stray(x) ==> p.Gone?)
  }

  predicate RegOk(s: State, r: Reg)
    requires r in s.regs
  {
    var x := s.regs[r];
    && WordOk(PlaceOf(s, r), x, s.destroyed)
    && RefsOk(PlaceOf(s, r), x)
    && (!x.reg.Returned? ==> x.dereg.NotCalled?)
    && (x.reg.Inline? || x.runs > 0 ==> s.flag != 0)
    && (s.flag == 2 && x.reg.Returned? && !x.dereg.Done? ==> x.runs == 1)
  }

  predicate Distinct(s: seq<Reg>) {
    forall i, j :: 0 <= i < j < |s| ==> s[i] != s[j]
  }

  ghost predicate Inv(s: State) {
    && (s.flag == 0 <==> s.cancel.NotCancelled?)
    && (s.flag == 2 <==> s.cancel.Finished?)
    && 0 <= s.flag <= 2
    && Distinct(s.list)
    && (forall r <- s.list :: r in s.regs && s.regs[r].reg.Returned?)
    && (s.cancel.Sweeping? || s.cancel.Finished? ==> s.list == [])
    && (s.cancel.Sweeping? ==> SweepOk(s))
    && (s.destroyed ==> !s.cancel.Sweeping? && !s.cancel.AtListSwap? && s.list == [])
    && (s.destroyed ==> forall r <- s.regs :: Idle(s.regs[r]))
    && (forall r <- s.regs :: RegOk(s, r))
  }

  ghost predicate SweepOk(s: State)
    requires s.cancel.Sweeping?
  {
    && Distinct(s.cancel.rest)
    && (forall r <- s.cancel.rest :: r in s.regs && s.regs[r].reg.Returned?)
    && (s.cancel.rest == [] ==> s.cancel.step == Claim)
  }

  // ---------------------------------------------------------------- proofs

  // A step that only rewrites registration r, leaving the list and the sweep alone.
  lemma SetKeeps(s: State, r: Reg, x: Registration)
    requires Inv(s) && !s.destroyed
    requires x.reg.Returned? || (r !in s.list && (s.cancel.Sweeping? ==> r !in s.cancel.rest))
    requires RegOk(Set(s, r, x), r)
    ensures Inv(Set(s, r, x))
  {
    hide WordOk, RefsOk;
    var s' := Set(s, r, x);
    forall k <- s'.regs ensures RegOk(s', k) {
      assert k != r ==> RegOk(s, k) && PlaceOf(s', k) == PlaceOf(s, k);
    }
  }

  // A registration that has not returned from its register call is in no list.
  lemma NotReturned(s: State, r: Reg)
    requires Inv(s) && r in s.regs && !s.regs[r].reg.Returned?
    ensures r !in s.list && (s.cancel.Sweeping? ==> r !in s.cancel.rest)
  {
  }

  lemma RegisterKeeps(s: State, r: Reg, t: Tid)
    requires Inv(s) && Enabled(s, Register(r, t))
    ensures Inv(Do(s, Register(r, t)))
  {
    SetKeeps(s, r, Registration(CLEAR, 2, t, Unlocked, NotCalled, false, false, 0));
  }

  lemma CheckFlagKeeps(s: State, r: Reg)
    requires Inv(s) && Enabled(s, CheckFlag(r))
    ensures Inv(Do(s, CheckFlag(r)))
  {
    NotReturned(s, r);
    assert RegOk(s, r);
    SetKeeps(s, r, s.regs[r].(reg := if s.flag == 0 then Locked else Inline(Claim)));
  }

  lemma PushKeeps(s: State, r: Reg)
    requires Inv(s) && Enabled(s, CheckAndPush(r))
    ensures Inv(Do(s, CheckAndPush(r)))
  {
    NotReturned(s, r);
    assert RegOk(s, r);
    var x := s.regs[r];
    if s.flag == 0 {
      var s' := Do(s, CheckAndPush(r));
      forall k <- s'.regs ensures RegOk(s', k) {
        assert k != r ==> RegOk(s, k) && PlaceOf(s', k) == PlaceOf(s, k);
      }
    } else {
      SetKeeps(s, r, x.(reg := Inline(Claim)));
    }
  }

  lemma InlineKeeps(s: State, r: Reg)
    requires Inv(s) && Enabled(s, InlineInvoke(r))
    ensures Inv(Do(s, InlineInvoke(r)))
  {
    NotReturned(s, r);
    assert RegOk(s, r);
    var x := s.regs[r];
    var i := x.reg.step;
    var next := if i == Drop then Returned else Inline(NextInvoke(x, i, x.owner));
    SetKeeps(s, r, InvokeStep(x, i, x.owner).(reg := next));
  }

  lemma CancelKeeps(s: State, t: Tid)
    requires Inv(s) && Enabled(s, Cancel(t))
    ensures Inv(Do(s, Cancel(t)))
  {
    hide WordOk, RefsOk;
    var s' := Do(s, Cancel(t));
    forall k <- s'.regs ensures RegOk(s', k) {
      assert RegOk(s, k) && PlaceOf(s', k) == PlaceOf(s, k);
    }
  }

  lemma SwapListKeeps(s: State)
    requires Inv(s) && Enabled(s, SwapList)
    ensures Inv(Do(s, SwapList))
  {
    var s' := Do(s, SwapList);
    forall k <- s'.regs ensures RegOk(s', k) {
      assert RegOk(s, k);
    }
  }

  lemma SweepKeeps(s: State)
    requires Inv(s) && Enabled(s, Sweep)
    ensures Inv(Do(s, Sweep))
  {
    hide WordOk, RefsOk;
    var s' := Do(s, Sweep);
    var rest := s.cancel.rest;
    SweepFront(s);
    forall k <- s'.regs ensures RegOk(s', k) {
      assert RegOk(s, k);
      if k != rest[0] {
        assert k in rest <==> k in rest[1..];
        SweepOther(s, k);
      }
    }
  }

  lemma SweepFront(s: State)
    requires Inv(s) && Enabled(s, Sweep)
    ensures RegOk(Do(s, Sweep), s.cancel.rest[0])
  {
    var rest := s.cancel.rest;
    assert RegOk(s, rest[0]);
    assert rest[0] !in rest[1..];
  }

  lemma SweepOther(s: State, k: Reg)
    requires Inv(s) && Enabled(s, Sweep) && k in s.regs && k != s.cancel.rest[0]
    ensures RegOk(Do(s, Sweep), k)
  {
    var rest := s.cancel.rest;
    assert RegOk(s, k);
    assert k in rest <==> k in rest[1..];
  }

  lemma CancelDoneKeeps(s: State)
    requires Inv(s) && Enabled(s, CancelDone)
    ensures Inv(Do(s, CancelDone))
  {
    hide RefsOk;
    var s' := Do(s, CancelDone);
    forall k <- s'.regs ensures RegOk(s', k) {
      assert RegOk(s, k) && PlaceOf(s', k) == PlaceOf(s, k);
    }
  }

  lemma RemoveFacts(s: seq<Reg>, r: Reg)
    requires Distinct(s)
    ensures Distinct(Remove(s, r))
    ensures forall k :: k in Remove(s, r) <==> k in s && k != r
  {
    if s != [] {
      assert forall k :: k in s <==> k == s[0] || k in s[1..];
      assert s[0] !in s[1..];
      RemoveFacts(s[1..], r);
      assert s[0] != r ==> Remove(s, r)[1..] == Remove(s[1..], r) && s[0] !in Remove(s[1..], r);
    }
  }

  lemma DeregLockedKeeps(s: State, r: Reg)
    requires Inv(s) && Enabled(s, DeregLocked(r))
    ensures Inv(Do(s, DeregLocked(r)))
  {
    assert RegOk(s, r);
    var x := s.regs[r];
    if s.list != [] {
      UnlistKeeps(s, r);
    } else {
      SetKeeps(s, r, x.(dereg := AtSwap(x.dereg.tid)));
    }
  }

  lemma UnlistKeeps(s: State, r: Reg)
    requires Inv(s) && Enabled(s, DeregLocked(r)) && s.list != []
    ensures Inv(Do(s, DeregLocked(r)))
  {
    hide WordOk, RefsOk, RegOk, Remove;
    var s' := Do(s, DeregLocked(r));
    RemoveFacts(s.list, r);
    forall k <- s'.regs ensures RegOk(s', k) {
      UnlistReg(s, r, k);
    }
  }

  lemma UnlistReg(s: State, r: Reg, k: Reg)
    requires Inv(s) && Enabled(s, DeregLocked(r)) && s.list != [] && k in s.regs
    ensures RegOk(Do(s, DeregLocked(r)), k)
  {
    hide Remove;
    RemoveFacts(s.list, r);
    assert RegOk(s, k);
  }

  lemma DeregKeeps(s: State, a: Step)
    requires Inv(s) && Enabled(s, a)
    requires a.Deregister? || a.DeregSwap? || a.DeregEvent? || a.DeregExchange? || a.DeregWoken?
    ensures Inv(Do(s, a))
  {
    hide WordOk, RefsOk, RegOk;
    if a.DeregSwap? || a.DeregExchange? {
      DeregWordOk(s, a);
    } else {
      DeregOk(s, a);
    }
    SetKeeps(s, a.r, Do(s, a).regs[a.r]);
  }

  lemma DeregWordOk(s: State, a: Step)
    requires Inv(s) && Enabled(s, a) && (a.DeregSwap? || a.DeregExchange?)
    ensures RegOk(Do(s, a), a.r) && s.regs[a.r].reg.Returned?
    ensures Do(s, a) == Set(s, a.r, Do(s, a).regs[a.r]) && Do(s, a).regs[a.r].reg.Returned?
  {
    assert RegOk(s, a.r);
    assert PlaceOf(Do(s, a), a.r) == PlaceOf(s, a.r);
  }

  lemma DeregOk(s: State, a: Step)
    requires Inv(s) && Enabled(s, a) && (a.Deregister? || a.DeregEvent? || a.DeregWoken?)
    ensures RegOk(Do(s, a), a.r) && s.regs[a.r].reg.Returned?
    ensures Do(s, a) == Set(s, a.r, Do(s, a).regs[a.r]) && Do(s, a).regs[a.r].reg.Returned?
  {
    assert RegOk(s, a.r);
    assert PlaceOf(Do(s, a), a.r) == PlaceOf(s, a.r);
  }

  lemma DestroyKeeps(s: State)
    requires Inv(s) && Enabled(s, Destroy)
    ensures Inv(Do(s, Destroy))
  {
    var s' := Do(s, Destroy);
    forall k <- s'.regs ensures RegOk(s', k) {
      assert RegOk(s, k);
    }
  }

  lemma StepKeeps(s: State, a: Step)
    requires Inv(s) && Enabled(s, a)
    ensures Inv(Do(s, a))
  {
    hide RegOk, Do;
    match a
    case Register(r, t) => RegisterKeeps(s, r, t);
    case CheckFlag(r) => CheckFlagKeeps(s, r);
    case CheckAndPush(r) => PushKeeps(s, r);
    case InlineInvoke(r) => InlineKeeps(s, r);
    case Cancel(t) => CancelKeeps(s, t);
    case SwapList => SwapListKeeps(s);
    case Sweep => SweepKeeps(s);
    case CancelDone => CancelDoneKeeps(s);
    case DeregLocked(r) => DeregLockedKeeps(s, r);
    case Destroy => DestroyKeeps(s);
    case _ => DeregKeeps(s, a);
  }

  // In every interleaving the invariant holds; in particular each callback is started at most
  // once, and the list stays empty from the moment the canceller took it.
  lemma {:induction false} RunKeeps(steps: seq<Step>)
    ensures Inv(Run(INIT, steps))
    decreases |steps|
  {
    hide Inv, Do, Enabled;
    if steps == [] {
      InitOk();
    } else {
      RunKeeps(steps[..|steps| - 1]);
      var p := Run(INIT, steps[..|steps| - 1]);
      if Enabled(p, steps[|steps| - 1]) {
        StepKeeps(p, steps[|steps| - 1]);
      }
    }
  }

  lemma InitOk()
    ensures Inv(INIT)
  {
  }

  lemma {:induction false} RunAppend(s: State, a: seq<Step>, b: seq<Step>)
    ensures Run(s, a + b) == Run(Run(s, a), b)
    decreases |b|
  {
    if b == [] {
      assert a + b == a;
    } else {
      assert (a + b)[..|a + b| - 1] == a + b[..|b| - 1];
      RunAppend(s, a, b[..|b| - 1]);
    }
  }

  // ---------------------------------------------------------------- at most once

  lemma AtMostOnce(steps: seq<Step>, r: Reg)
    requires r in Run(INIT, steps).regs
    ensures Run(INIT, steps).regs[r].runs <= 1
  {
    RunKeeps(steps);
    assert RegOk(Run(INIT, steps), r);
  }

  // When cancellation is complete no registration is lost: it has been run, it has been
  // deregistered, or its register call is still under way (and will run it).
  lemma NoneLost(steps: seq<Step>, r: Reg)
    requires var s := Run(INIT, steps); s.flag == 2 && r in s.regs
    ensures var s := Run(INIT, steps);
            && s.list == []
            && (s.regs[r].runs == 1 || s.regs[r].dereg.Done? || !s.regs[r].reg.Returned?)
  {
    RunKeeps(steps);
    assert RegOk(Run(INIT, steps), r);
  }

  // ---------------------------------------------------------------- deregister

  // Some thread is inside the callback of r.
  predicate RunsOn(s: State, r: Reg, t: Tid) {
    r in s.regs && PlaceOf(s, r) == Invoked(t, Running)
  }

  // Once a deregister has returned, its callback is not running on another thread.
  lemma DeregisteredNotRunning(s: State, r: Reg, t: Tid)
    requires Inv(s) && RunsOn(s, r, t) && s.regs[r].dereg.Done?
    ensures s.regs[r].dereg.tid == t
  {
    assert RegOk(s, r);
  }

  // ... and it is never started any more, whatever happens next.
  lemma DeregisteredStep(s: State, r: Reg, a: Step)
    requires Inv(s) && Enabled(s, a) && r in s.regs && s.regs[r].dereg.Done?
    ensures var s' := Do(s, a);
            r in s'.regs && s'.regs[r].dereg == s.regs[r].dereg && s'.regs[r].runs == s.regs[r].runs
  {
    assert RegOk(s, r);
  }

  // Whatever other threads do before and after deregister returns on thread t: from then on
  // the callback is not started, and nobody but t itself is still inside it.
  lemma {:induction false} DeregisterIsFinal(before: seq<Step>, after: seq<Step>, r: Reg, t: Tid)
    requires var s := Run(INIT, before); r in s.regs && s.regs[r].dereg.Done?
    ensures var s, s' := Run(INIT, before), Run(INIT, before + after);
            && r in s'.regs && s'.regs[r].dereg == s.regs[r].dereg && s'.regs[r].runs == s.regs[r].runs
            && (RunsOn(s', r, t) ==> t == s.regs[r].dereg.tid)
    decreases |after|
  {
    hide Inv, Do, Enabled, RegOk;
    RunKeeps(before + after);
    if after == [] {
      assert before + after == before;
    } else {
      var n := |after| - 1;
      DeregisterIsFinal(before, after[..n], r, t);
      assert (before + after)[..|before + after| - 1] == before + after[..n];
      var p := Run(INIT, before + after[..n]);
      RunKeeps(before + after[..n]);
      if Enabled(p, after[n]) {
        DeregisteredStep(p, r, after[n]);
      }
    }
    if RunsOn(Run(INIT, before + after), r, t) {
      DeregisteredNotRunning(Run(INIT, before + after), r, t);
    }
  }

  // ---------------------------------------------------------------- waiting

  // A deregister that waits for its event has not been forgotten: either the event is set, or
  // the canceller is inside this very callback and will set it.
  lemma WaiterHasWaker(s: State, r: Reg)
    requires Inv(s) && r in s.regs && s.regs[r].dereg.Waiting? && !s.regs[r].signaled
    ensures s.cancel.Sweeping? && s.cancel.rest != [] && s.cancel.rest[0] == r
    ensures s.cancel.step.Running? || s.cancel.step.Mark? || s.cancel.step.Wake?
    ensures s.cancel.tid != s.regs[r].dereg.tid && s.regs[r].word == SYNCHRONIZE && s.regs[r].sync
    ensures !s.destroyed
  {
    assert RegOk(s, r);
  }

  // How many steps the canceller still needs to get from inside the callback past the wake-up.
  function StepsToWake(i: Invoke): nat {
    match i
    case Running => 3
    case Mark => 2
    case Wake => 1
    case _ => 0
  }

  // So a waiting deregister is woken as soon as the canceller has finished the callback: from
  // every reachable state the canceller's own next steps let it return.
  lemma {:induction false} WaiterIsWoken(s: State, r: Reg)
    requires Inv(s) && r in s.regs && s.regs[r].dereg.Waiting? && !s.regs[r].signaled
    ensures s.cancel.Sweeping?
    ensures var s' := Run(s, seq(StepsToWake(s.cancel.step), i => Sweep));
            && Inv(s') && Enabled(s', DeregWoken(r))
            && r in Do(s', DeregWoken(r)).regs && Do(s', DeregWoken(r)).regs[r].dereg.Done?
            && Do(s', DeregWoken(r)).regs[r].dereg.tid == s.regs[r].dereg.tid
    decreases if s.cancel.Sweeping? then StepsToWake(s.cancel.step) else 0
  {
    hide RegOk;
    WaiterHasWaker(s, r);
    var s' := Do(s, Sweep);
    StepKeeps(s, Sweep);
    var n := StepsToWake(s.cancel.step);
    var sweeps := seq(n, i => Sweep);
    RunAppend(s, [Sweep], sweeps[1..]);
    assert sweeps == [Sweep] + sweeps[1..];
    assert Run(s, [Sweep]) == s' by {
      assert [Sweep][..0] == [];
    }
    WaitingStep(s, r, Sweep);
    if s.cancel.step != Wake {
      WaiterIsWoken(s', r);
      assert sweeps[1..] == seq(StepsToWake(s'.cancel.step), i => Sweep);
    } else {
      assert sweeps[1..] == [];
    }
  }

  // The deregister's event is set, or it has been woken.
  predicate Woken(x: Registration) {
    x.dereg.Done? || (x.dereg.Waiting? && x.signaled)
  }

  function Sweeps(steps: seq<Step>): nat {
    if steps == [] then 0 else Sweeps(steps[..|steps| - 1]) + if steps[|steps| - 1] == Sweep then 1 else 0
  }

  // While a deregister waits, a step of the canceller brings the wake-up one step nearer, and
  // steps of others change neither the registration nor the canceller.
  lemma WaitingStep(s: State, r: Reg, a: Step)
    requires Inv(s) && r in s.regs && s.regs[r].dereg.Waiting? && !s.regs[r].signaled
    requires Enabled(s, a)
    ensures var s' := Do(s, a);
            && r in s'.regs && s.cancel.Sweeping?
            && (a != Sweep ==> s'.regs[r] == s.regs[r] && s'.cancel == s.cancel)
            && (a == Sweep ==> s'.regs[r].dereg == s.regs[r].dereg)
            && (a == Sweep && s.cancel.step == Wake ==> s'.regs[r].signaled)
            && (a == Sweep && s.cancel.step != Wake ==>
                  && !s'.regs[r].signaled && s'.cancel.Sweeping?
                  && StepsToWake(s'.cancel.step) == StepsToWake(s.cancel.step) - 1)
  {
    hide RegOk;
    WaiterHasWaker(s, r);
  }

  lemma WokenStep(s: State, r: Reg, a: Step)
    requires Inv(s) && r in s.regs && Woken(s.regs[r]) && Enabled(s, a)
    ensures r in Do(s, a).regs && Woken(Do(s, a).regs[r])
  {
    assert RegOk(s, r);
  }

  // Once it is woken the deregister returns.
  lemma WokenReturns(s: State, r: Reg)
    requires Inv(s) && r in s.regs && Woken(s.regs[r]) && !s.regs[r].dereg.Done?
    ensures Enabled(s, DeregWoken(r)) && Do(s, DeregWoken(r)).regs[r].dereg.Done?
  {
    assert s.destroyed ==> Idle(s.regs[r]);
  }

  // Whatever other threads do in between: any run with as many steps of the canceller as it
  // needs leaves the waiting deregister woken, and then it has returned or does so with its
  // next step.
  lemma WaiterIsWokenAmong(s: State, r: Reg, steps: seq<Step>)
    requires Inv(s) && r in s.regs && s.regs[r].dereg.Waiting? && !s.regs[r].signaled
    ensures var s' := Run(s, steps);
            && Inv(s') && r in s'.regs && s.cancel.Sweeping?
            && if Sweeps(steps) >= StepsToWake(s.cancel.step) then
                 && Woken(s'.regs[r])
                 && (!s'.regs[r].dereg.Done? ==>
                       Enabled(s', DeregWoken(r)) && Do(s', DeregWoken(r)).regs[r].dereg.Done?)
               else
                 && s'.regs[r].dereg.Waiting? && !s'.regs[r].signaled && s'.cancel.Sweeping?
                 && StepsToWake(s'.cancel.step) == StepsToWake(s.cancel.step) - Sweeps(steps)
  {
    hide Inv, Do, Enabled;
    WokenAmong(s, r, steps);
    var s' := Run(s, steps);
    if Woken(s'.regs[r]) && !s'.regs[r].dereg.Done? {
      WokenReturns(s', r);
    }
  }

  lemma {:induction false} WokenAmong(s: State, r: Reg, steps: seq<Step>)
    requires Inv(s) && r in s.regs && s.regs[r].dereg.Waiting? && !s.regs[r].signaled
    ensures var s' := Run(s, steps);
            && Inv(s') && r in s'.regs && s.cancel.Sweeping?
            && if Sweeps(steps) >= StepsToWake(s.cancel.step) then Woken(s'.regs[r])
               else
                 && s'.regs[r].dereg.Waiting? && !s'.regs[r].signaled && s'.cancel.Sweeping?
                 && StepsToWake(s'.cancel.step) == StepsToWake(s.cancel.step) - Sweeps(steps)
    decreases |steps|
  {
    hide Inv, Do, Enabled;
    WaiterHasWaker(s, r);
    if steps != [] {
      var n := |steps| - 1;
      WokenAmong(s, r, steps[..n]);
      var p := Run(s, steps[..n]);
      if Enabled(p, steps[n]) {
        StepKeeps(p, steps[n]);
        if Woken(p.regs[r]) {
          WokenStep(p, r, steps[n]);
        } else {
          WaiterHasWaker(p, r);
          WaitingStep(p, r, steps[n]);
        }
      } else if !Woken(p.regs[r]) {
        SweepEnabled(p, r);
      }
    }
  }

  lemma SweepEnabled(s: State, r: Reg)
    requires Inv(s) && r in s.regs && s.regs[r].dereg.Waiting? && !s.regs[r].signaled
    ensures Enabled(s, Sweep)
  {
    WaiterHasWaker(s, r);
  }

  // The assertions written in the code: a deregister never finds the state left by another
  // one, the sync block is set before it is used, a registration that nobody will look at
  // again is not in state CLEAR, and no count drops below zero.
  lemma AssertionsHold(steps: seq<Step>, r: Reg, t: Tid)
    requires r in Run(INIT, steps).regs
    ensures var s := Run(INIT, steps);
            var x := s.regs[r];
            && (x.dereg.AtSwap? ==> x.word != DEFER_DELETE && x.word != SYNCHRONIZE)
            && (PlaceOf(s, r) == Invoked(t, Wake) ==> x.sync)
            && (PlaceOf(s, r).Gone? ==> x.word != CLEAR)
            && 0 <= x.refs <= 2
            && (s.flag == 0 ==> s.cancel.NotCancelled?)
  {
    hide Run, Do, Enabled;
    RunKeeps(steps);
    assert RegOk(Run(INIT, steps), r);
  }

  // ---------------------------------------------------------------- references

  // The reference that the list took is released exactly once, by the sweep, the inline call,
  // the deregister or the destructor - unless the deregister's locked section found a list
  // that is not empty and does not hold the registration.
  lemma ListReferenceReleasedOnce(steps: seq<Step>, r: Reg)
    requires r in Run(INIT, steps).regs
    ensures var s := Run(INIT, steps);
            var held := if PlaceOf(s, r).Gone? then 0 else 1;
            s.regs[r].refs == 1 + held <==> !Stray(s.regs[r])
    ensures Stray(Run(INIT, steps).regs[r]) ==> Run(INIT, steps).regs[r].refs == 0
  {
    RunKeeps(steps);
    assert RegOk(Run(INIT, steps), r);
  }

  // What a caller can see before that locked section.
  lemma StrayExactlyWhen(s: State, r: Reg)
    requires Inv(s) && Enabled(s, DeregLocked(r))
    ensures Stray(Do(s, DeregLocked(r)).regs[r]) <==> s.list != [] && r !in s.list
    ensures s.list != [] && r !in s.list ==> s.flag == 1 && s.cancel.AtListSwap? && s.regs[r].runs == 1
  {
    assert RegOk(s, r);
  }

  lemma RunOne(s: State, steps: seq<Step>, a: Step)
    requires Enabled(Run(s, steps), a)
    ensures Run(s, steps + [a]) == Do(Run(s, steps), a)
  {
    assert (steps + [a])[..|steps + [a]| - 1] == steps;
  }

  lemma RunNone(s: State)
    ensures Run(s, []) == s
  {
  }

  // It does happen: thread 8 has set the flag and not yet taken the list, which holds
  // registration 0; thread 12 registers 1, runs the callback itself, and deregisters. That
  // takes the reference of its own handle.
  lemma StrayHappens()
    ensures exists steps :: var s := Run(INIT, steps);
              1 in s.regs && s.regs[1].reg.Returned? && Stray(s.regs[1]) && s.regs[1].refs == 0
  {
    hide Run;
    var steps := LateRegistration();
    var x := Registration(CLEAR, 2, 12, Inline(Claim), NotCalled, false, false, 0);
    RunOne(INIT, steps, InlineInvoke(1));
    steps := steps + [InlineInvoke(1)];
    assert Run(INIT, steps).regs[1] == x.(word := 12, runs := 1, reg := Inline(Running));
    RunOne(INIT, steps, InlineInvoke(1));
    steps := steps + [InlineInvoke(1)];
    assert Run(INIT, steps).regs[1].reg == Inline(Mark);
    RunOne(INIT, steps, InlineInvoke(1));
    steps := steps + [InlineInvoke(1)];
    assert Run(INIT, steps).regs[1].reg == Inline(Drop);
    RunOne(INIT, steps, InlineInvoke(1));
    steps := steps + [InlineInvoke(1)];
    assert Run(INIT, steps).regs[1] == x.(word := CALLED, runs := 1, refs := 1, reg := Returned);
    RunOne(INIT, steps, Deregister(1, 12));
    steps := steps + [Deregister(1, 12)];
    RunOne(INIT, steps, DeregLocked(1));
    var s := Run(INIT, steps + [DeregLocked(1)]);
    assert 1 in s.regs && s.regs[1].reg.Returned? && Stray(s.regs[1]) && s.regs[1].refs == 0;
  }

  lemma LateRegistration() returns (steps: seq<Step>)
    ensures var s := Run(INIT, steps);
            && !s.destroyed && s.list == [0] && s.flag == 1 && 1 in s.regs
            && s.regs[1] == Registration(CLEAR, 2, 12, Inline(Claim), NotCalled, false, false, 0)
  {
    hide Run;
    RunNone(INIT);
    RunOne(INIT, [], Register(0, 4));
    steps := [] + [Register(0, 4)];
    RunOne(INIT, steps, CheckFlag(0));
    steps := steps + [CheckFlag(0)];
    RunOne(INIT, steps, CheckAndPush(0));
    steps := steps + [CheckAndPush(0)];
    var s := Run(INIT, steps);
    assert !s.destroyed && s.list == [0] && s.flag == 0 && 1 !in s.regs;
    RunOne(INIT, steps, Cancel(8));
    steps := steps + [Cancel(8)];
    RunOne(INIT, steps, Register(1, 12));
    steps := steps + [Register(1, 12)];
    RunOne(INIT, steps, CheckFlag(1));
    steps := steps + [CheckFlag(1)];
  }
}
