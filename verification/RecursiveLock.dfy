/** The recursive lock: a plain mutex, an owner that is read without holding it, and a count.
    Every read or write of a shared variable is one step; a run is any interleaving. */
module RecursiveLock {
  // -1 is the owner when there is none.
  type Tid = t: int | t >= 0

  // The next step of a thread. The first five belong to lock(), the rest to unlock().
  datatype Pc =
    | Idle
    | TestOwner | IncCount | TakeMutex | SetOwner | SetCount
    | DecCount | TestCount | ClearOwner | FreeMutex

  // `depth` is how many calls of lock() the thread has not undone by a call of unlock().
  datatype Thread = Thread(pc: Pc, depth: nat)

  datatype Mutex = Free | HeldBy(t: Tid)

  datatype State = State(owner: int, count: int, mutex: Mutex, threads: map<Tid, Thread>)

  const INIT := State(-1, 0, Free, map[])

  function Get(s: State, t: Tid): Thread {
    if t in s.threads then s.threads[t] else Thread(Idle, 0)
  }

  datatype Step = Lock(t: Tid) | Unlock(t: Tid) | Next(t: Tid)

  // A thread unlocks only what it has locked.
  predicate Enabled(s: State, a: Step) {
    var x := Get(s, a.t);
    match a
    case Lock(_) => x.pc == Idle
    case Unlock(_) => x.pc == Idle && x.depth > 0
    case Next(_) => x.pc != Idle && (x.pc == TakeMutex ==> s.mutex == Free)
  }

  function Do(s: State, a: Step): State
    requires Enabled(s, a)
  {
    var t := a.t;
    var x := Get(s, t);
    match a
    case Lock(_) => s.(threads := s.threads[t := x.(pc := TestOwner)])
    case Unlock(_) => s.(threads := s.threads[t := x.(pc := DecCount)])
    case Next(_) =>
      match x.pc
      case TestOwner => s.(threads := s.threads[t := x.(pc := if s.owner == t then IncCount else TakeMutex)])
      case IncCount => s.(count := s.count + 1, threads := s.threads[t := Thread(Idle, x.depth + 1)])
      case TakeMutex => s.(mutex := HeldBy(t), threads := s.threads[t := x.(pc := SetOwner)])
      case SetOwner => s.(owner := t, threads := s.threads[t := x.(pc := SetCount)])
      case SetCount => s.(count := 1, threads := s.threads[t := Thread(Idle, x.depth + 1)])
      case DecCount =>
        s.(count := s.count - 1, threads := s.threads[t := Thread(TestCount, if x.depth > 0 then x.depth - 1 else 0)])
      case TestCount => s.(threads := s.threads[t := x.(pc := if s.count == 0 then ClearOwner else Idle)])
      case ClearOwner => s.(owner := -1, threads := s.threads[t := x.(pc := FreeMutex)])
      case FreeMutex => s.(mutex := Free, threads := s.threads[t := x.(pc := Idle)])
  }

  function Run(s: State, steps: seq<Step>): State
    decreases |steps|
  {
    if steps == [] then s
    else
      var p := Run(s, steps[..|steps| - 1]);
      if Enabled(p, steps[|steps| - 1]) then Do(p, steps[|steps| - 1]) else p
  }

  // A thread without the mutex has nothing locked and is at most on its way to it.
  predicate OutsideOk(x: Thread) {
    x.depth == 0 && (x.pc == Idle || x.pc == TestOwner || x.pc == TakeMutex)
  }

  // The thread with the mutex: owner and count follow its progress.
  predicate HolderOk(s: State, t: Tid, x: Thread) {
    match x.pc
    case Idle => x.depth > 0 && s.owner == t && s.count == x.depth
    case TestOwner => x.depth > 0 && s.owner == t && s.count == x.depth
    case IncCount => x.depth > 0 && s.owner == t && s.count == x.depth
    case TakeMutex => false
    case SetOwner => x.depth == 0 && s.owner == -1 && s.count == 0
    case SetCount => x.depth == 0 && s.owner == t && s.count == 0
    case DecCount => x.depth > 0 && s.owner == t && s.count == x.depth
    case TestCount => s.owner == t && s.count == x.depth
    case ClearOwner => x.depth == 0 && s.owner == t && s.count == 0
    case FreeMutex => x.depth == 0 && s.owner == -1 && s.count == 0
  }

  ghost predicate Inv(s: State) {
    && (s.mutex == Free ==> s.owner == -1 && s.count == 0)
    && (forall t: Tid :: if s.mutex == HeldBy(t) then HolderOk(s, t, Get(s, t)) else OutsideOk(Get(s, t)))
  }

  lemma StepKeeps(s: State, a: Step)
    requires Inv(s) && Enabled(s, a)
    ensures Inv(Do(s, a))
  {
    var s' := Do(s, a);
    forall t: Tid
      ensures if s'.mutex == HeldBy(t) then HolderOk(s', t, Get(s', t)) else OutsideOk(Get(s', t))
    {
      assert if s.mutex == HeldBy(t) then HolderOk(s, t, Get(s, t)) else OutsideOk(Get(s, t));
      assert if s.mutex == HeldBy(a.t) then HolderOk(s, a.t, Get(s, a.t)) else OutsideOk(Get(s, a.t));
    }
  }

  lemma {:induction false} RunKeeps(steps: seq<Step>)
    ensures Inv(Run(INIT, steps))
    decreases |steps|
  {
    hide Do, Enabled, HolderOk;
    if steps != [] {
      RunKeeps(steps[..|steps| - 1]);
      var p := Run(INIT, steps[..|steps| - 1]);
      if Enabled(p, steps[|steps| - 1]) {
        StepKeeps(p, steps[|steps| - 1]);
      }
    }
  }

  // In every interleaving: whoever has the lock holds the mutex, so no two threads have it at
  // once; the count is the nesting depth of a thread that is not inside lock() or unlock().
  lemma MutualExclusion(steps: seq<Step>, t: Tid, u: Tid)
    ensures var s := Run(INIT, steps);
            && (Get(s, t).depth > 0 ==> s.mutex == HeldBy(t))
            && (Get(s, t).depth > 0 && Get(s, u).depth > 0 ==> t == u)
            && (Get(s, t).depth > 0 && Get(s, t).pc == Idle ==> s.count == Get(s, t).depth && s.owner == t)
  {
    RunKeeps(steps);
    var s := Run(INIT, steps);
    assert if s.mutex == HeldBy(t) then HolderOk(s, t, Get(s, t)) else OutsideOk(Get(s, t));
    assert if s.mutex == HeldBy(u) then HolderOk(s, u, Get(s, u)) else OutsideOk(Get(s, u));
  }

  // The owner is a thread's id only while that thread holds the mutex; so although it is read
  // without the mutex, the test in lock() says exactly whether the caller has the lock.
  lemma OwnerTestIsExact(steps: seq<Step>, t: Tid)
    ensures var s := Run(INIT, steps);
            && (s.owner == t ==> s.mutex == HeldBy(t))
            && (Get(s, t).pc == TestOwner ==> (s.owner == t <==> Get(s, t).depth > 0))
  {
    RunKeeps(steps);
    var s := Run(INIT, steps);
    assert if s.mutex == HeldBy(t) then HolderOk(s, t, Get(s, t)) else OutsideOk(Get(s, t));
    match s.mutex
    case Free =>
    case HeldBy(u) => assert HolderOk(s, u, Get(s, u));
  }

  // The mutex is on its way to be freed exactly when the depth has come back to 0, and a
  // thread that takes the mutex has nothing locked (it would wait for itself).
  lemma FreedAtDepthZero(steps: seq<Step>, t: Tid)
    ensures var s := Run(INIT, steps);
            var x := Get(s, t);
            && (x.pc == TestCount ==> (Do(s, Next(t)).threads[t].pc == ClearOwner <==> x.depth == 0))
            && (x.pc == FreeMutex ==> x.depth == 0 && s.mutex == HeldBy(t))
            && (x.pc == TakeMutex ==> x.depth == 0 && s.mutex != HeldBy(t))
            && (s.mutex == HeldBy(t) && x.pc == Idle ==> x.depth > 0)
  {
    RunKeeps(steps);
    var s := Run(INIT, steps);
    assert if s.mutex == HeldBy(t) then HolderOk(s, t, Get(s, t)) else OutsideOk(Get(s, t));
  }

  // What unlock() asserts.
  lemma UnlockAssertions(steps: seq<Step>, t: Tid)
    requires Get(Run(INIT, steps), t).pc == DecCount
    ensures Run(INIT, steps).owner == t && Run(INIT, steps).count >= 1
  {
    RunKeeps(steps);
    var s := Run(INIT, steps);
    assert if s.mutex == HeldBy(t) then HolderOk(s, t, Get(s, t)) else OutsideOk(Get(s, t));
  }

  // ---------------------------------------------------------------- whole calls

  // The n next steps of a thread.
  function Own(t: Tid, n: nat): seq<Step> {
    seq(n, i => Next(t))
  }

  lemma {:induction false} RunFirst(s: State, a: Step, steps: seq<Step>)
    requires Enabled(s, a)
    ensures Run(s, [a] + steps) == Run(Do(s, a), steps)
    decreases |steps|
  {
    if steps == [] {
      assert [a] + steps == [a] && [a][..0] == [];
    } else {
      assert ([a] + steps)[..|[a] + steps| - 1] == [a] + steps[..|steps| - 1];
      RunFirst(s, a, steps[..|steps| - 1]);
    }
  }

  lemma OwnFirst(s: State, t: Tid, n: nat)
    requires Enabled(s, Next(t)) && n > 0
    ensures Run(s, Own(t, n)) == Run(Do(s, Next(t)), Own(t, n - 1))
  {
    RunFirst(s, Next(t), Own(t, n - 1));
    assert Own(t, n) == [Next(t)] + Own(t, n - 1);
  }

  lemma OwnNone(s: State, t: Tid)
    ensures Run(s, Own(t, 0)) == s
  {
  }

  // lock() returns if nobody else has the mutex, and the caller has it once more than before.
  lemma LockCall(s: State, t: Tid)
    requires Inv(s) && Get(s, t).pc == Idle && (s.mutex == Free || s.mutex == HeldBy(t))
    ensures var d := Get(s, t).depth;
            var s' := Run(s, [Lock(t)] + Own(t, if d > 0 then 2 else 4));
            && Get(s', t) == Thread(Idle, d + 1) && s'.mutex == HeldBy(t) && s'.owner == t && s'.count == d + 1
  {
    hide Run, Own;
    assert if s.mutex == HeldBy(t) then HolderOk(s, t, Get(s, t)) else OutsideOk(Get(s, t));
    var n := if Get(s, t).depth > 0 then 2 else 4;
    RunFirst(s, Lock(t), Own(t, n));
    var s1 := Do(s, Lock(t));
    OwnFirst(s1, t, n);
    var s2 := Do(s1, Next(t));
    OwnFirst(s2, t, n - 1);
    var s3 := Do(s2, Next(t));
    if n == 4 {
      OwnFirst(s3, t, 2);
      OwnFirst(Do(s3, Next(t)), t, 1);
      OwnNone(Do(Do(s3, Next(t)), Next(t)), t);
    } else {
      OwnNone(s3, t);
    }
  }

  // If another thread has it, lock() waits.
  lemma LockWaits(s: State, t: Tid)
    requires Inv(s) && Get(s, t).pc == Idle && s.mutex != Free && s.mutex != HeldBy(t)
    ensures var s' := Run(s, [Lock(t)] + Own(t, 1));
            !Enabled(s', Next(t)) && Get(s', t).depth == 0 && s'.mutex == s.mutex
  {
    hide Run, Own;
    assert OutsideOk(Get(s, t));
    assert HolderOk(s, s.mutex.t, Get(s, s.mutex.t));
    RunFirst(s, Lock(t), Own(t, 1));
    OwnFirst(Do(s, Lock(t)), t, 1);
    OwnNone(Do(Do(s, Lock(t)), Next(t)), t);
  }

  // unlock() returns, and the caller has the mutex once less; the last time it is free.
  lemma UnlockCall(s: State, t: Tid)
    requires Inv(s) && Enabled(s, Unlock(t))
    ensures var d := Get(s, t).depth;
            var s' := Run(s, [Unlock(t)] + Own(t, if d > 1 then 2 else 4));
            && d > 0 && Get(s', t) == Thread(Idle, d - 1) && s'.count == d - 1
            && s'.mutex == (if d > 1 then HeldBy(t) else Free) && s'.owner == if d > 1 then t else -1
  {
    hide Run, Own;
    assert if s.mutex == HeldBy(t) then HolderOk(s, t, Get(s, t)) else OutsideOk(Get(s, t));
    var n := if Get(s, t).depth > 1 then 2 else 4;
    RunFirst(s, Unlock(t), Own(t, n));
    var s1 := Do(s, Unlock(t));
    OwnFirst(s1, t, n);
    var s2 := Do(s1, Next(t));
    OwnFirst(s2, t, n - 1);
    var s3 := Do(s2, Next(t));
    if n == 4 {
      OwnFirst(s3, t, 2);
      OwnFirst(Do(s3, Next(t)), t, 1);
      OwnNone(Do(Do(s3, Next(t)), Next(t)), t);
    } else {
      OwnNone(s3, t);
    }
  }
}
