/** What the steps of the byte queue do, said without the functions that define them. */
module BufferLaws {
  import opened Bytes
  import opened BufferSpec

  // ---------------------------------------------------------------- what is accepted

  // Everything that a run wrote or committed.
  function Written(ops: seq<Op>): seq<Byte> {
    if ops == [] then []
    else
      var op := ops[|ops| - 1];
      Written(ops[..|ops| - 1]) + if op.Write? || op.Commit? then op.data else []
  }

  // A run accepts what it writes and commits, in order, and nothing else.
  lemma {:induction false} AcceptsWritten(ops: seq<Op>)
    ensures Run(INIT, ops).accepted == Written(ops)
    decreases |ops|
  {
    if ops != [] {
      var n := |ops| - 1;
      AcceptsWritten(ops[..n]);
      StepAccepts(Run(INIT, ops[..n]), ops[n]);
    }
  }

  lemma StepAccepts(q: Q, op: Op)
    ensures Enabled(q, op) ==>
              Step(q, op).accepted == q.accepted + if op.Write? || op.Commit? then op.data else []
    ensures !Enabled(q, op) && op.Write? ==> op.data == []
    ensures op.Commit? ==> Enabled(q, op)
  {
    hide Fulfill;
    match op
    case Write(data) => FulfillFrame(q.(unread := q.unread + data, accepted := q.accepted + data));
    case Commit(data) => FulfillFrame(q.(unread := q.unread + data, accepted := q.accepted + data));
    case SyncAll => FulfillFrame(q.(synced := |q.unread|));
    case CloseWriteFlush => FulfillFrame(q);
    case _ =>
  }

  // The heads are closed exactly by the flag stores.
  lemma {:induction false} FlagsAre(ops: seq<Op>)
    ensures Run(INIT, ops).canWrite <==> CloseWriteFlag !in ops
    ensures Run(INIT, ops).canRead <==> CloseReadFlag !in ops
    decreases |ops|
  {
    if ops != [] {
      var n := |ops| - 1;
      FlagsAre(ops[..n]);
      StepFlags(Run(INIT, ops[..n]), ops[n]);
      assert ops == ops[..n] + [ops[n]];
    }
  }

  lemma StepFlags(q: Q, op: Op)
    ensures Enabled(q, op) ==> (Step(q, op).canWrite <==> q.canWrite && op != CloseWriteFlag)
    ensures Enabled(q, op) ==> (Step(q, op).canRead <==> q.canRead && op != CloseReadFlag)
    ensures !Enabled(q, op) ==> op != CloseWriteFlag && op != CloseReadFlag
  {
    hide Fulfill;
    match op
    case Write(data) => FulfillFrame(q.(unread := q.unread + data, accepted := q.accepted + data));
    case Commit(data) => FulfillFrame(q.(unread := q.unread + data, accepted := q.accepted + data));
    case SyncAll => FulfillFrame(q.(synced := |q.unread|));
    case CloseWriteFlush => FulfillFrame(q);
    case _ =>
  }

  // ---------------------------------------------------------------- the watermark

  // How much of n accepted characters has not left yet when `gone` have.
  function Undelivered(n: nat, gone: nat): nat {
    if n > gone then n - gone else 0
  }

  // How many characters had been accepted at the last sync of a run.
  function FlushedTo(ops: seq<Op>): nat {
    if ops == [] then 0
    else if ops[|ops| - 1] == SyncAll then |Written(ops[..|ops| - 1])|
    else FlushedTo(ops[..|ops| - 1])
  }

  // In every run the watermark is the number of undelivered characters among those that had
  // been accepted before the last sync.
  lemma {:induction false} WatermarkIs(ops: seq<Op>)
    ensures Run(INIT, ops).synced == Undelivered(FlushedTo(ops), |Delivered(Run(INIT, ops).log)|)
    decreases |ops|
  {
    hide Delivered, Written, Fulfill, Inv;
    if ops == [] {
      assert Delivered([]) == [] by { NothingDelivered(); }
    } else {
      var n := |ops| - 1;
      var q := Run(INIT, ops[..n]);
      WatermarkIs(ops[..n]);
      AcceptsWritten(ops[..n]);
      RunDelivers(ops[..n]);
      if Enabled(q, ops[n]) {
        StepWatermark(q, ops[n], FlushedTo(ops[..n]));
      }
    }
  }

  lemma NothingDelivered()
    ensures Delivered([]) == []
  {
  }

  lemma RecordWatermark(q: Q, e: Entry, to: nat)
    requires |e.taken| <= |q.unread| && q.synced == Undelivered(to, |Delivered(q.log)|)
    ensures Record(q, e).synced == Undelivered(to, |Delivered(Record(q, e).log)|)
  {
    LogSnoc(q.log, e);
  }

  lemma {:induction false} FulfillWatermark(q: Q, to: nat)
    requires q.synced == Undelivered(to, |Delivered(q.log)|)
    ensures Fulfill(q).synced == Undelivered(to, |Delivered(Fulfill(q).log)|)
    decreases |q.pending|
  {
    hide Delivered, CanSatisfy, TicketEntry, Record;
    if q.pending != [] && CanSatisfy(q, Size(q.pending[0].kind)) {
      var t := q.pending[0];
      TicketEntryIs(q, Queued(t), t.kind);
      RecordWatermark(q, TicketEntry(q, Queued(t), t.kind), to);
      ServeKeeps(q);
      FulfillWatermark(ServeOne(q), to);
    }
  }

  lemma ServeKeeps(q: Q)
    requires q.pending != []
    ensures var t := q.pending[0];
            ServeOne(q) == Record(q, TicketEntry(q, Queued(t), t.kind)).(pending := q.pending[1..])
  {
  }

  lemma StepWatermark(q: Q, op: Op, to: nat)
    requires Enabled(q, op) && q.synced == Undelivered(to, |Delivered(q.log)|)
    requires q.accepted == Delivered(q.log) + q.unread
    ensures var r := Step(q, op);
            r.synced == Undelivered(if op.SyncAll? then |q.accepted| else to, |Delivered(r.log)|)
  {
    hide Delivered, Fulfill;
    match op
    case Write(data) =>
      FulfillWatermark(q.(unread := q.unread + data, accepted := q.accepted + data), to);
    case Commit(data) =>
      FulfillWatermark(q.(unread := q.unread + data, accepted := q.accepted + data), to);
    case Request(k) =>
      RecordWatermark(q, TicketEntry(q, Prompt(Ticket(q.issued, k)), k), to);
    case Read(count, advance) =>
      RecordWatermark(q, ReadEntry(q, Direct(advance), count, advance), to);
    case ReleaseWindow(count) => RecordWatermark(q, ReadEntry(q, Window, count, true), to);
    case SyncAll => FulfillWatermark(q.(synced := |q.unread|), |q.accepted|);
    case CloseWriteFlag =>
    case CloseWriteFlush => FulfillWatermark(q, to);
    case CloseReadFlag =>
  }

  // While everything unread is flushed, serving the queue leaves no request or no character.
  lemma {:induction false} FlushedServes(q: Q)
    requires q.synced == |q.unread|
    ensures Fulfill(q).pending == [] || Fulfill(q).unread == []
    decreases |q.pending|
  {
    if q.pending != [] && CanSatisfy(q, Size(q.pending[0].kind)) {
      FlushedServes(ServeOne(q));
    }
  }

  // After a sync nobody waits while there are characters.
  lemma SyncServes(ops: seq<Op>)
    ensures var r := Step(Run(INIT, ops), SyncAll); r.pending == [] || r.unread == []
  {
    var q := Run(INIT, ops);
    FlushedServes(q.(synced := |q.unread|));
  }

  // ---------------------------------------------------------------- what a reader leaves

  function Rest(s: seq<Byte>, n: nat): seq<Byte> {
    s[Min(n, |s|)..]
  }

  // A request waits unless something is flushed, the write head is closed or there are as many
  // characters as it asks for: `count` for a getn, one for the others. When it is answered, a
  // getc leaves all characters, and the others leave what is behind those they asked for.
  lemma RequestLeaves(ops: seq<Op>, k: Kind)
    ensures var q, r := Run(INIT, ops), Step(Run(INIT, ops), Request(k));
            var n := if k.Getn? then k.count else 1;
            if q.synced > 0 || !q.canWrite || |q.unread| >= n then
              && r.pending == q.pending && |r.log| == |q.log| + 1
              && r.unread == if k.Getc? then q.unread else Rest(q.unread, n)
            else r == q.(pending := q.pending + [Ticket(q.issued, k)],
                         pushed := q.pushed + [Ticket(q.issued, k)], issued := q.issued + 1)
  {
    hide Run;
  }

  // For instance, with nothing there, nothing flushed and the write head open, all single
  // characters are waited for.
  lemma EmptyWaits(ops: seq<Op>, k: Kind)
    requires var q := Run(INIT, ops); q.unread == [] && q.synced == 0 && q.canWrite && !k.Getn?
    ensures Step(Run(INIT, ops), Request(k)).pending == Run(INIT, ops).pending + [Ticket(Run(INIT, ops).issued, k)]
  {
    hide Run;
    RequestLeaves(ops, k);
  }

  // A synchronous read changes nothing if it would have to wait; otherwise it takes what it
  // was handed, and a peek takes nothing.
  lemma ReadLeaves(ops: seq<Op>, count: nat, advance: bool)
    ensures var q, r := Run(INIT, ops), Step(Run(INIT, ops), Read(count, advance));
            if q.synced > 0 || !q.canWrite || |q.unread| >= count then
              && |r.log| == |q.log| + 1 && r.pending == q.pending
              && r.unread == if advance then Rest(q.unread, count) else q.unread
            else r == q
  {
    hide Run;
  }

  // ---------------------------------------------------------------- the order of requests

  ghost predicate Increasing(ts: seq<Ticket>) {
    forall i, j :: 0 <= i < j < |ts| ==> ts[i].id < ts[j].id
  }

  lemma IncreasingSuffix(a: seq<Ticket>, b: seq<Ticket>)
    requires Increasing(a + b)
    ensures Increasing(b)
  {
    forall i, j | 0 <= i < j < |b|
      ensures b[i].id < b[j].id
    {
      assert (a + b)[|a| + i].id < (a + b)[|a| + j].id;
    }
  }

  ghost predicate Below(ts: seq<Ticket>, n: nat) {
    forall t <- ts :: t.id < n
  }

  // Requests that have to wait are queued, and so answered, in the order in which they were
  // made.
  lemma {:induction false} QueueInOrder(ops: seq<Op>)
    ensures var q := Run(INIT, ops);
            Increasing(ServedFromQueue(q.log) + q.pending) && Below(ServedFromQueue(q.log) + q.pending, q.issued)
    decreases |ops|
  {
    hide Step;
    RunDelivers(ops);
    if ops != [] {
      var n := |ops| - 1;
      QueueInOrder(ops[..n]);
      RunDelivers(ops[..n]);
      var q := Run(INIT, ops[..n]);
      if Enabled(q, ops[n]) {
        StepPushes(q, ops[n]);
      }
    }
  }

  lemma StepPushes(q: Q, op: Op)
    requires Enabled(q, op)
    ensures var r := Step(q, op);
            || (r.pushed == q.pushed && r.issued >= q.issued)
            || exists k :: r.pushed == q.pushed + [Ticket(q.issued, k)] && r.issued == q.issued + 1
  {
    hide Fulfill;
    match op
    case Write(data) => FulfillFrame(q.(unread := q.unread + data, accepted := q.accepted + data));
    case Commit(data) => FulfillFrame(q.(unread := q.unread + data, accepted := q.accepted + data));
    case SyncAll => FulfillFrame(q.(synced := |q.unread|));
    case CloseWriteFlush => FulfillFrame(q);
    case _ =>
  }
}
