/** The producer/consumer stream buffer as one unbounded byte queue.

    A state `Q` is what the buffer holds between two locked sections, together with the
    history of what it accepted and served. `Step` is one locked section (or one of the
    unlocked flag stores of close); `Run` is any interleaving of them. */
module BufferSpec {
  import opened Bytes

  // What an asynchronous read asks for. `id` stands for its task completion event.
  datatype Kind = Getn(count: nat) | Bumpc | Getc | Nextc
  datatype Ticket = Ticket(id: nat, kind: Kind)

  function Size(k: Kind): nat {
    if k.Getn? then k.count else 1
  }

  // Who read: a request that waited in the queue, a request satisfied when it was made,
  // a synchronous read that moves the read head or only peeks, or the release of an acquired
  // block.
  datatype Reader = Queued(ticket: Ticket) | Prompt(ticket: Ticket) | Direct(advance: bool) | Window

  // What the reader found: bytes available, whether a flush was pending, whether the
  // write head was closed, and how many bytes had been accepted by then.
  datatype Snapshot = Snapshot(avail: nat, flushed: bool, closed: bool, accepted: nat)

  // `seen` is what the reader was handed; `taken` is the part that left the buffer.
  datatype Entry = Entry(reader: Reader, want: nat, seen: seq<Byte>, taken: seq<Byte>,
                         result: int, snap: Snapshot)

  datatype Q = Q(unread: seq<Byte>, synced: nat, canRead: bool, canWrite: bool,
                 closing: bool,  // write flag already cleared, locked flush still to come
                 pending: seq<Ticket>,
                 accepted: seq<Byte>, log: seq<Entry>, pushed: seq<Ticket>, issued: nat)

  const INIT := Q([], 0, true, true, false, [], [], [], [], 0)

  predicate CanSatisfy(q: Q, count: nat) {
    q.synced > 0 || |q.unread| >= count || !q.canWrite
  }

  function Snap(q: Q): Snapshot {
    Snapshot(|q.unread|, q.synced > 0, !q.canWrite, |q.accepted|)
  }

  // The bytes a read of `count` hands over.
  function Front(q: Q, count: nat): seq<Byte> {
    q.unread[..Min(count, |q.unread|)]
  }

  // The read head moves past `n` bytes; the flushed prefix shrinks with it.
  function Drop(q: Q, n: nat): Q
    requires n <= |q.unread|
  {
    q.(unread := q.unread[n..], synced := if q.synced > n then q.synced - n else 0)
  }

  function ByteResult(s: seq<Byte>): int {
    if |s| >= 1 then s[0] else EOF
  }

  function ReadEntry(q: Q, reader: Reader, want: nat, advance: bool): Entry {
    var s := Front(q, want);
    Entry(reader, want, s, if advance then s else [], |s|, Snap(q))
  }

  // The effect of running a request's completion function.
  function TicketEntry(q: Q, reader: Reader, k: Kind): Entry {
    var e := ReadEntry(q, reader, Size(k), !k.Getc?);
    match k
    case Getn(_) => e
    case Bumpc => e.(result := ByteResult(e.seen))
    case Getc => e.(result := ByteResult(e.seen))
    case Nextc => e.(result := ByteResult(q.unread[|e.seen|..]))
  }

  function Record(q: Q, e: Entry): Q
    requires |e.taken| <= |q.unread|
  {
    Drop(q, |e.taken|).(log := q.log + [e])
  }

  function Complete(q: Q, reader: Reader, k: Kind): Q {
    Record(q, TicketEntry(q, reader, k))
  }

  // The front request is answered, then removed from the queue.
  function ServeOne(q: Q): Q
    requires q.pending != []
  {
    Complete(q, Queued(q.pending[0]), q.pending[0].kind).(pending := q.pending[1..])
  }

  // Serve the queue from the front until the front request has to wait.
  function Fulfill(q: Q): Q
    decreases |q.pending|
  {
    if q.pending == [] || !CanSatisfy(q, Size(q.pending[0].kind)) then q
    else Fulfill(ServeOne(q))
  }

  function Accept(q: Q, data: seq<Byte>): Q {
    Fulfill(q.(unread := q.unread + data, accepted := q.accepted + data))
  }

  function Enqueue(q: Q, k: Kind): Q {
    var t := Ticket(q.issued, k);
    if CanSatisfy(q, Size(k)) then Complete(q, Prompt(t), k).(issued := q.issued + 1)
    else q.(issued := q.issued + 1, pending := q.pending + [t], pushed := q.pushed + [t])
  }

  function SyncRead(q: Q, count: nat, advance: bool): Q {
    if CanSatisfy(q, count) then Record(q, ReadEntry(q, Direct(advance), count, advance)) else q
  }

  function Release(q: Q, count: nat): Q
    requires count <= |q.unread|
  {
    Record(q, ReadEntry(q, Window, count, true))
  }

  function Flush(q: Q): Q {
    Fulfill(q.(synced := |q.unread|))
  }

  function CloseFlush(q: Q): Q {
    Fulfill(q).(closing := false)
  }

  // Nothing is ordered between the tests a caller makes before taking the lock and the
  // locked section itself, so a write or a read may still take place after a close.
  datatype Op =
    | Write(data: seq<Byte>)
    | Commit(data: seq<Byte>)
    | Request(kind: Kind)
    | Read(count: nat, advance: bool)
    | ReleaseWindow(count: nat)
    | SyncAll
    | CloseWriteFlag
    | CloseWriteFlush
    | CloseReadFlag

  predicate Enabled(q: Q, op: Op) {
    match op
    case Write(data) => data != []
    case ReleaseWindow(count) => count <= |q.unread|
    case CloseWriteFlush => !q.canWrite
    case _ => true
  }

  function Step(q: Q, op: Op): Q
    requires Enabled(q, op)
  {
    match op
    case Write(data) => Accept(q, data)
    case Commit(data) => Accept(q, data)
    case Request(k) => Enqueue(q, k)
    case Read(count, advance) => SyncRead(q, count, advance)
    case ReleaseWindow(count) => Release(q, count)
    case SyncAll => Flush(q)
    case CloseWriteFlag => q.(canWrite := false, closing := true)
    case CloseWriteFlush => CloseFlush(q)
    case CloseReadFlag => q.(canRead := false)
  }

  // Runs: a step that is not enabled is skipped.
  function Run(q: Q, ops: seq<Op>): Q
    decreases |ops|
  {
    if ops == [] then q
    else
      var p := Run(q, ops[..|ops| - 1]);
      if Enabled(p, ops[|ops| - 1]) then Step(p, ops[|ops| - 1]) else p
  }

  // ---------------------------------------------------------------- histories

  // All bytes that left the buffer, in the order in which they left.
  function Delivered(log: seq<Entry>): seq<Byte> {
    if log == [] then [] else Delivered(log[..|log| - 1]) + log[|log| - 1].taken
  }

  // The requests that were served from the queue, in the order in which they were served.
  function ServedFromQueue(log: seq<Entry>): seq<Ticket> {
    if log == [] then []
    else
      var e := log[|log| - 1];
      ServedFromQueue(log[..|log| - 1]) + (if e.reader.Queued? then [e.reader.ticket] else [])
  }

  predicate Answers(e: Entry, id: nat) {
    (e.reader.Queued? || e.reader.Prompt?) && e.reader.ticket.id == id
  }

  // How often the completion event `id` was set, and how often it is still queued.
  function TimesSet(log: seq<Entry>, id: nat): nat {
    if log == [] then 0
    else TimesSet(log[..|log| - 1], id) + (if Answers(log[|log| - 1], id) then 1 else 0)
  }

  function TimesPending(ts: seq<Ticket>, id: nat): nat {
    if ts == [] then 0 else (if ts[0].id == id then 1 else 0) + TimesPending(ts[1..], id)
  }

  // ---------------------------------------------------------------- the invariant

  // What one reader got, where `off` is the number of bytes that had left before it and
  // `accepted` is everything the buffer ever accepted: the next bytes of the stream, as many
  // as it wanted or as there were; fewer only after a flush or a close; none only at the end.
  ghost predicate EntryOk(e: Entry, off: nat, accepted: seq<Byte>) {
    var avail := e.snap.avail;
    && off + avail == e.snap.accepted <= |accepted|
    && |e.seen| == Min(e.want, avail)
    && e.seen == accepted[off..off + |e.seen|]
    && (e.taken == e.seen || e.taken == [])
    && (e.reader.Window? ==> |e.seen| == e.want && e.taken == e.seen)
    && (|e.seen| < e.want ==> e.snap.flushed || e.snap.closed)
    && (0 == |e.seen| < e.want ==> e.snap.closed && off == e.snap.accepted)
    && (e.reader.Direct? ==> e.result == |e.seen| && e.taken == if e.reader.advance then e.seen else [])
    && (e.reader.Queued? || e.reader.Prompt? ==>
          && e.want == Size(e.reader.ticket.kind)
          && TicketOk(e, off, accepted))
  }

  ghost predicate TicketOk(e: Entry, off: nat, accepted: seq<Byte>)
    requires e.reader.Queued? || e.reader.Prompt?
    requires off + e.snap.avail == e.snap.accepted <= |accepted|
  {
    match e.reader.ticket.kind
    case Getn(_) => e.taken == e.seen && e.result == |e.seen|
    case Bumpc => e.taken == e.seen && e.result == ByteAt(accepted, off, e.snap.accepted)
    case Getc => e.taken == [] && e.result == ByteAt(accepted, off, e.snap.accepted)
    case Nextc => e.taken == e.seen && e.result == ByteAt(accepted, off + 1, e.snap.accepted)
  }

  // The stream character at position `i` when `end` bytes had been accepted.
  function ByteAt(accepted: seq<Byte>, i: nat, end: nat): int
    requires end <= |accepted|
  {
    if i < end then accepted[i] else EOF
  }

  ghost predicate LogOk(log: seq<Entry>, accepted: seq<Byte>) {
    forall i :: 0 <= i < |log| ==> EntryOk(log[i], |Delivered(log[..i])|, accepted)
  }

  // Each request made so far has been answered once, or waits once.
  ghost predicate OnceEach(log: seq<Entry>, pending: seq<Ticket>, issued: nat) {
    forall id: nat :: TimesSet(log, id) + TimesPending(pending, id) == if id < issued then 1 else 0
  }

  // The front request, if any, really has to wait.
  predicate AtRest(q: Q) {
    q.pending != [] ==> q.canWrite && q.synced == 0 && |q.unread| < Size(q.pending[0].kind)
  }

  // The byte accounts.
  ghost predicate DataOk(accepted: seq<Byte>, log: seq<Entry>, unread: seq<Byte>, synced: nat) {
    accepted == Delivered(log) + unread && synced <= |unread| && LogOk(log, accepted)
  }

  // The request accounts.
  ghost predicate QueueOk(pushed: seq<Ticket>, log: seq<Entry>, pending: seq<Ticket>, issued: nat) {
    pushed == ServedFromQueue(log) + pending && OnceEach(log, pending, issued)
  }

  ghost predicate DataBooks(q: Q) {
    DataOk(q.accepted, q.log, q.unread, q.synced)
  }

  ghost predicate QueueBooks(q: Q) {
    QueueOk(q.pushed, q.log, q.pending, q.issued)
  }

  // Everything but AtRest; it holds inside a locked section too.
  ghost predicate Books(q: Q) {
    DataBooks(q) && QueueBooks(q) && (q.closing ==> !q.canWrite)
  }

  ghost predicate Inv(q: Q) {
    Books(q) && (!q.closing ==> AtRest(q))
  }

  // ---------------------------------------------------------------- proofs

  lemma EntryOkMore(e: Entry, off: nat, accepted: seq<Byte>, more: seq<Byte>)
    requires EntryOk(e, off, accepted)
    ensures EntryOk(e, off, accepted + more)
  {
    assert (accepted + more)[off..off + |e.seen|] == accepted[off..off + |e.seen|];
  }

  lemma LogOkMore(log: seq<Entry>, accepted: seq<Byte>, more: seq<Byte>)
    requires LogOk(log, accepted)
    ensures LogOk(log, accepted + more)
  {
    forall i | 0 <= i < |log|
      ensures EntryOk(log[i], |Delivered(log[..i])|, accepted + more)
    {
      EntryOkMore(log[i], |Delivered(log[..i])|, accepted, more);
    }
  }

  // What one more log entry adds to each history.
  lemma LogSnoc(log: seq<Entry>, e: Entry)
    ensures Delivered(log + [e]) == Delivered(log) + e.taken
    ensures ServedFromQueue(log + [e]) == ServedFromQueue(log) + (if e.reader.Queued? then [e.reader.ticket] else [])
    ensures forall id: nat :: TimesSet(log + [e], id) == TimesSet(log, id) + (if Answers(e, id) then 1 else 0)
  {
    assert (log + [e])[..|log + [e]| - 1] == log;
  }

  lemma LogOkSnoc(log: seq<Entry>, e: Entry, accepted: seq<Byte>)
    requires LogOk(log, accepted) && EntryOk(e, |Delivered(log)|, accepted)
    ensures LogOk(log + [e], accepted)
  {
    forall i | 0 <= i < |log + [e]|
      ensures EntryOk((log + [e])[i], |Delivered((log + [e])[..i])|, accepted)
    {
      assert (log + [e])[..i] == if i < |log| then log[..i] else log;
    }
  }

  // The next piece of the stream is the front of the unread bytes.
  lemma TakesFront(before: seq<Byte>, unread: seq<Byte>, taken: seq<Byte>)
    requires |taken| <= |unread| && taken == (before + unread)[|before|..|before| + |taken|]
    ensures before + unread == before + taken + unread[|taken|..]
  {
    assert unread == taken + unread[|taken|..];
  }

  lemma EntryTakes(e: Entry, off: nat, accepted: seq<Byte>)
    requires EntryOk(e, off, accepted)
    ensures |e.taken| <= e.snap.avail && off + e.snap.avail <= |accepted|
    ensures e.taken == accepted[off..off + |e.taken|]
  {
  }

  // Recording a well-formed entry keeps the byte accounts.
  lemma RecordData(q: Q, e: Entry)
    requires DataBooks(q)
    requires EntryOk(e, |Delivered(q.log)|, q.accepted) && e.snap.avail == |q.unread|
    ensures |e.taken| <= |q.unread| && DataBooks(Record(q, e))
  {
    hide EntryOk, LogOk, Delivered;
    EntryTakes(e, |Delivered(q.log)|, q.accepted);
    TakesFront(Delivered(q.log), q.unread, e.taken);
    LogSnoc(q.log, e);
    LogOkSnoc(q.log, e, q.accepted);
  }

  // Taking bytes out cannot make the front request satisfiable.
  lemma RecordRests(q: Q, e: Entry)
    requires |e.taken| <= |q.unread| && AtRest(q)
    ensures AtRest(Record(q, e))
  {
  }

  // An entry that answers no request leaves the request accounts alone.
  lemma RecordQueue(q: Q, e: Entry)
    requires QueueBooks(q) && !e.reader.Queued? && !e.reader.Prompt?
    requires |e.taken| <= |q.unread|
    ensures QueueBooks(Record(q, e))
  {
    LogSnoc(q.log, e);
    assert OnceEach(q.log, q.pending, q.issued);
  }

  // Answering the front request moves it from the queue to the log.
  lemma AnswerFront(q: Q, e: Entry)
    requires QueueBooks(q) && q.pending != [] && e.reader == Queued(q.pending[0])
    requires |e.taken| <= |q.unread|
    ensures QueueBooks(Record(q, e).(pending := q.pending[1..]))
  {
    LogSnoc(q.log, e);
    assert q.pending == [q.pending[0]] + q.pending[1..];
    assert OnceEach(q.log, q.pending, q.issued);
  }

  // Answering a new request at once.
  lemma AnswerNew(q: Q, e: Entry)
    requires QueueBooks(q) && e.reader.Prompt? && e.reader.ticket.id == q.issued
    requires |e.taken| <= |q.unread|
    ensures QueueBooks(Record(q, e).(issued := q.issued + 1))
  {
    LogSnoc(q.log, e);
    assert OnceEach(q.log, q.pending, q.issued);
  }

  // The front of the unread bytes is the next piece of the stream.
  lemma FrontIsNext(q: Q, want: nat)
    requires q.accepted == Delivered(q.log) + q.unread
    ensures var off, s := |Delivered(q.log)|, Front(q, want);
            && q.accepted[off..off + |s|] == s
            && off + |q.unread| == |q.accepted|
            && forall i :: 0 <= i < |q.unread| ==> q.accepted[off + i] == q.unread[i]
  {
  }

  lemma ReadEntryOk(q: Q, reader: Reader, want: nat, advance: bool)
    requires q.accepted == Delivered(q.log) + q.unread && q.synced <= |q.unread|
    requires (reader.Direct? && reader.advance == advance) || (reader.Window? && want <= |q.unread| && advance)
    requires reader.Direct? ==> CanSatisfy(q, want)
    ensures EntryOk(ReadEntry(q, reader, want, advance), |Delivered(q.log)|, q.accepted)
  {
    FrontIsNext(q, want);
  }

  lemma TicketEntryOk(q: Q, reader: Reader)
    requires q.accepted == Delivered(q.log) + q.unread && q.synced <= |q.unread|
    requires reader.Queued? || reader.Prompt?
    requires CanSatisfy(q, Size(reader.ticket.kind))
    ensures EntryOk(TicketEntry(q, reader, reader.ticket.kind), |Delivered(q.log)|, q.accepted)
  {
    hide Delivered, TicketEntry;
    FrontIsNext(q, Size(reader.ticket.kind));
    TicketEntryIs(q, reader, reader.ticket.kind);
    assert |q.unread| > 1 ==> q.accepted[|Delivered(q.log)| + 1] == q.unread[1];
  }

  lemma TicketEntryIs(q: Q, reader: Reader, k: Kind)
    ensures var s := Front(q, Size(k));
            TicketEntry(q, reader, k) ==
            Entry(reader, Size(k), s, if k.Getc? then [] else s,
                  match k
                  case Getn(_) => |s|
                  case Bumpc => if |q.unread| > 0 then q.unread[0] else EOF
                  case Getc => if |q.unread| > 0 then q.unread[0] else EOF
                  case Nextc => if |q.unread| > 1 then q.unread[1] else EOF,
                  Snap(q))
  {
  }

  lemma PendingSnoc(ts: seq<Ticket>, t: Ticket, id: nat)
    ensures TimesPending(ts + [t], id) == TimesPending(ts, id) + (if t.id == id then 1 else 0)
  {
    if ts != [] {
      assert (ts + [t])[1..] == ts[1..] + [t];
      PendingSnoc(ts[1..], t, id);
    }
  }

  // One request is served from the front of the queue.
  lemma ServeFront(q: Q)
    requires Books(q) && q.pending != [] && CanSatisfy(q, Size(q.pending[0].kind))
    ensures Books(ServeOne(q))
  {
    var t := q.pending[0];
    TicketEntryOk(q, Queued(t));
    FrontKeeps(q, TicketEntry(q, Queued(t), t.kind));
  }

  lemma FrontKeeps(q: Q, e: Entry)
    requires Books(q) && q.pending != [] && e.reader == Queued(q.pending[0])
    requires EntryOk(e, |Delivered(q.log)|, q.accepted) && e.snap.avail == |q.unread|
    ensures |e.taken| <= |q.unread| && Books(Record(q, e).(pending := q.pending[1..]))
  {
    RecordData(q, e);
    AnswerFront(q, e);
  }

  // Serving the queue ends with a front request that has to wait, and with an empty queue
  // once the write head is closed.
  lemma {:induction false} FulfillServes(q: Q)
    requires Books(q)
    ensures Books(Fulfill(q)) && AtRest(Fulfill(q))
    decreases |q.pending|
  {
    if q.pending == [] || !CanSatisfy(q, Size(q.pending[0].kind)) {
    } else {
      ServeFront(q);
      FulfillServes(ServeOne(q));
    }
  }

  // Serving the queue changes nothing else, and drops or reorders no request.
  lemma {:induction false} FulfillFrame(q: Q)
    ensures var r := Fulfill(q);
            && r == q.(unread := r.unread, synced := r.synced, pending := r.pending, log := r.log)
            && |r.pending| <= |q.pending|
            && r.pending == q.pending[|q.pending| - |r.pending|..]
    decreases |q.pending|
  {
    hide ServeOne, CanSatisfy;
    if q.pending == [] || !CanSatisfy(q, Size(q.pending[0].kind)) {
    } else {
      ServeOneFrame(q);
      FulfillFrame(ServeOne(q));
    }
  }

  lemma ServeOneFrame(q: Q)
    requires q.pending != []
    ensures var r := ServeOne(q);
            r == q.(unread := r.unread, synced := r.synced, pending := q.pending[1..], log := r.log)
  {
  }

  lemma AcceptKeeps(q: Q, data: seq<Byte>)
    requires Books(q)
    ensures Inv(Accept(q, data))
  {
    LogOkMore(q.log, q.accepted, data);
    FulfillServes(q.(unread := q.unread + data, accepted := q.accepted + data));
  }

  lemma EnqueueKeeps(q: Q, k: Kind)
    requires Inv(q)
    ensures Inv(Enqueue(q, k))
  {
    var t := Ticket(q.issued, k);
    if CanSatisfy(q, Size(k)) {
      EnqueuePrompt(q, k);
    } else {
      forall id: nat
        ensures TimesPending(q.pending + [t], id) == TimesPending(q.pending, id) + (if t.id == id then 1 else 0)
      {
        PendingSnoc(q.pending, t, id);
      }
      assert OnceEach(q.log, q.pending, q.issued);
    }
  }

  lemma EnqueuePrompt(q: Q, k: Kind)
    requires Inv(q) && CanSatisfy(q, Size(k))
    ensures Inv(Enqueue(q, k))
  {
    hide EntryOk, LogOk, QueueOk, AtRest, Delivered;
    var e := TicketEntry(q, Prompt(Ticket(q.issued, k)), k);
    TicketEntryOk(q, Prompt(Ticket(q.issued, k)));
    PromptKeeps(q, e);
  }

  lemma PromptKeeps(q: Q, e: Entry)
    requires Inv(q) && e.reader.Prompt? && e.reader.ticket.id == q.issued
    requires EntryOk(e, |Delivered(q.log)|, q.accepted) && e.snap.avail == |q.unread|
    ensures |e.taken| <= |q.unread| && Inv(Record(q, e).(issued := q.issued + 1))
  {
    RecordData(q, e);
    AnswerNew(q, e);
    if !q.closing {
      RecordRests(q, e);
    }
  }

  // A read that is not a request leaves the queue alone.
  lemma ReadKeeps(q: Q, reader: Reader, want: nat, advance: bool)
    requires Inv(q)
    requires (reader.Direct? && reader.advance == advance) || (reader.Window? && want <= |q.unread| && advance)
    requires reader.Direct? ==> CanSatisfy(q, want)
    ensures Inv(Record(q, ReadEntry(q, reader, want, advance)))
  {
    var e := ReadEntry(q, reader, want, advance);
    ReadEntryOk(q, reader, want, advance);
    RecordData(q, e);
    RecordQueue(q, e);
  }

  // Every locked section, and every flag store of close, keeps the invariant.
  lemma StepKeeps(q: Q, op: Op)
    requires Inv(q) && Enabled(q, op)
    ensures Inv(Step(q, op))
  {
    match op
    case Write(data) => AcceptKeeps(q, data);
    case Commit(data) => AcceptKeeps(q, data);
    case Request(k) => EnqueueKeeps(q, k);
    case Read(count, advance) =>
      if CanSatisfy(q, count) {
        ReadKeeps(q, Direct(advance), count, advance);
      }
    case ReleaseWindow(count) => ReadKeeps(q, Window, count, true);
    case SyncAll => FulfillServes(q.(synced := |q.unread|));
    case CloseWriteFlag =>
    case CloseWriteFlush => FulfillServes(q);
    case CloseReadFlag =>
  }

  // Over every run: what left the buffer, followed by what is still in it, is what was
  // accepted; each request is answered exactly once; queued requests are answered in queue
  // order; every reader got the next bytes of the stream (see EntryOk).
  lemma {:induction false} RunKeeps(ops: seq<Op>)
    ensures Inv(Run(INIT, ops))
    decreases |ops|
  {
    if ops != [] {
      RunKeeps(ops[..|ops| - 1]);
      var p := Run(INIT, ops[..|ops| - 1]);
      if Enabled(p, ops[|ops| - 1]) {
        StepKeeps(p, ops[|ops| - 1]);
      }
    }
  }

  // The same, spelled out. Queued requests are answered in the order in which they were
  // queued, and the front one waits only while it cannot be satisfied.
  lemma RunDelivers(ops: seq<Op>)
    ensures var q := Run(INIT, ops);
            && q.accepted == Delivered(q.log) + q.unread && q.synced <= |q.unread|
            && q.pushed == ServedFromQueue(q.log) + q.pending
            && (forall id: nat :: TimesSet(q.log, id) + TimesPending(q.pending, id) == if id < q.issued then 1 else 0)
            && (q.pending != [] && !q.closing ==>
                  q.canWrite && q.synced == 0 && |q.unread| < Size(q.pending[0].kind))
  {
    hide Run;
    RunKeeps(ops);
  }

  // What one reader of a run was handed: the next bytes of the stream, exactly as many as it
  // asked for or as there were; fewer only after a flush or a close; none only at the end.
  lemma ReaderGetsNext(ops: seq<Op>, i: nat)
    requires i < |Run(INIT, ops).log|
    ensures var q := Run(INIT, ops);
            var e, off := q.log[i], |Delivered(q.log[..i])|;
            && off + |e.seen| <= |q.accepted| && e.seen == q.accepted[off..off + |e.seen|]
            && |e.seen| == Min(e.want, e.snap.avail) && (e.taken == e.seen || e.taken == [])
            && (e.reader.Window? ==> e.taken == e.seen)
            && (e.reader.Direct? ==> e.taken == if e.reader.advance then e.seen else [])
            && (|e.seen| < e.want ==> e.snap.flushed || e.snap.closed)
            && (0 == |e.seen| < e.want ==> e.snap.closed && off == e.snap.accepted)
  {
    hide Run, Delivered;
    RunKeeps(ops);
    assert EntryOk(Run(INIT, ops).log[i], |Delivered(Run(INIT, ops).log[..i])|, Run(INIT, ops).accepted);
  }

  lemma {:induction false} RunAppend(q: Q, a: seq<Op>, b: seq<Op>)
    ensures Run(q, a + b) == Run(Run(q, a), b)
    decreases |b|
  {
    if b == [] {
      assert a + b == a;
    } else {
      assert (a + b)[..|a + b| - 1] == a + b[..|b| - 1];
      RunAppend(q, a, b[..|b| - 1]);
    }
  }

  // Once the write head is closed it stays closed, and a drained queue stays drained.
  lemma ClosedStep(q: Q, op: Op)
    requires Enabled(q, op) && !q.canWrite
    ensures !Step(q, op).canWrite
    ensures q.pending == [] ==> Step(q, op).pending == []
    ensures op.CloseWriteFlush? ==> Step(q, op).pending == []
  {
    match op
    case Write(data) => ClosedFulfill(q.(unread := q.unread + data, accepted := q.accepted + data));
    case Commit(data) => ClosedFulfill(q.(unread := q.unread + data, accepted := q.accepted + data));
    case SyncAll => ClosedFulfill(q.(synced := |q.unread|));
    case CloseWriteFlush => ClosedFulfill(q);
    case _ =>
  }

  lemma {:induction false} ClosedFulfill(q: Q)
    requires !q.canWrite
    ensures !Fulfill(q).canWrite && Fulfill(q).pending == []
    decreases |q.pending|
  {
    if q.pending != [] {
      ClosedFulfill(ServeOne(q));
    }
  }

  lemma {:induction false} ClosedRun(q: Q, ops: seq<Op>)
    requires !q.canWrite
    ensures !Run(q, ops).canWrite
    ensures q.pending == [] ==> Run(q, ops).pending == []
    decreases |ops|
  {
    if ops != [] {
      ClosedRun(q, ops[..|ops| - 1]);
      var p := Run(q, ops[..|ops| - 1]);
      if Enabled(p, ops[|ops| - 1]) {
        ClosedStep(p, ops[|ops| - 1]);
      }
    }
  }

  // Whatever other threads do before, between and after the two halves of a close of the
  // write head, no request is left waiting afterwards.
  lemma {:induction false} CloseDrains(before: seq<Op>, between: seq<Op>, after: seq<Op>)
    ensures Run(INIT, before + [CloseWriteFlag] + between + [CloseWriteFlush] + after).pending == []
  {
    var a := Run(INIT, before + [CloseWriteFlag]);
    RunAppend(INIT, before, [CloseWriteFlag]);
    assert a == Step(Run(INIT, before), CloseWriteFlag) by {
      assert [CloseWriteFlag][..0] == [];
    }
    RunAppend(INIT, before + [CloseWriteFlag], between);
    ClosedRun(a, between);
    var b := Run(a, between);
    var c := Step(b, CloseWriteFlush);
    ClosedStep(b, CloseWriteFlush);
    RunAppend(INIT, before + [CloseWriteFlag] + between, [CloseWriteFlush]);
    assert Run(b, [CloseWriteFlush]) == c by {
      assert [CloseWriteFlush][..0] == [];
    }
    ClosedRun(c, after);
    RunAppend(INIT, before + [CloseWriteFlag] + between + [CloseWriteFlush], after);
  }

  // The one reader that may be told "end of stream" while the stream goes on: a nextc reads
  // a second character that its request of size 1 never asked for.
  lemma NextcEndsEarly()
    ensures var q := Run(INIT, [Write([7]), Request(Nextc)]);
            q.canWrite && |q.log| == 1 && q.log[0].reader == Prompt(Ticket(0, Nextc)) && q.log[0].result == EOF
  {
    var ops := [Write([7]), Request(Nextc)];
    assert ops[..1] == [Write([7])] && ops[..1][..0] == [];
  }

  // In every run a nextc is told of an end while the stream is still open exactly when it was
  // served with fewer than two characters there and the write head open.
  lemma NextcTruthful(ops: seq<Op>, i: nat)
    requires i < |Run(INIT, ops).log|
    requires var r := Run(INIT, ops).log[i].reader; (r.Queued? || r.Prompt?) && r.ticket.kind.Nextc?
    ensures var e := Run(INIT, ops).log[i];
            e.result == EOF && !e.snap.closed <==> e.snap.avail < 2 && !e.snap.closed
  {
    hide Run, Delivered;
    RunKeeps(ops);
    assert EntryOk(Run(INIT, ops).log[i], |Delivered(Run(INIT, ops).log[..i])|, Run(INIT, ops).accepted);
  }

  // What a caller can test: asked for when two characters are there or the write head is closed,
  // nextc is answered at once, by the second character or by a true end; and it is answered at
  // once by an untrue end exactly when one character is there and the write head is open.
  lemma NextcAsked(ops: seq<Op>)
    ensures var q := Run(INIT, ops);
            var r := Step(q, Request(Nextc));
            |q.unread| >= 2 || !q.canWrite ==>
              && |r.log| == |q.log| + 1 && r.log[|q.log|].reader == Prompt(Ticket(q.issued, Nextc))
              && r.log[|q.log|].result == (if |q.unread| >= 2 then q.unread[1] else EOF)
              && (r.log[|q.log|].result == EOF ==> !r.canWrite)
    ensures var q := Run(INIT, ops);
            var r := Step(q, Request(Nextc));
            |r.log| == |q.log| + 1 && r.log[|q.log|].result == EOF && r.canWrite <==> |q.unread| == 1 && q.canWrite
  {
    hide Run, Delivered;
    RunKeeps(ops);
    TicketEntryIs(Run(INIT, ops), Prompt(Ticket(Run(INIT, ops).issued, Nextc)), Nextc);
  }

  // A new request overtakes those that wait exactly when it asks for no more than there is.
  lemma OvertakesExactly(ops: seq<Op>, k: Kind)
    requires var q := Run(INIT, ops); q.pending != [] && !q.closing
    ensures var q := Run(INIT, ops);
            var r := Step(q, Request(k));
            if Size(k) <= |q.unread| then
              && r.pending == q.pending
              && |r.log| == |q.log| + 1 && r.log[|q.log|].reader == Prompt(Ticket(q.issued, k))
            else r.log == q.log && r.pending == q.pending + [Ticket(q.issued, k)]
  {
    hide Run, Delivered;
    RunKeeps(ops);
  }

  // For instance a bumpc overtakes a getn of two characters when one is there.
  lemma OvertakingHappens()
    ensures var q := Run(INIT, [Write([7]), Request(Getn(2)), Request(Bumpc)]);
            q.pending == [Ticket(0, Getn(2))] && |q.log| == 1 && q.log[0].reader == Prompt(Ticket(1, Bumpc))
  {
    RunSnoc([], Write([7]));
    assert [] + [Write([7])] == [Write([7])] && [Write([7])] + [Request(Getn(2))] == [Write([7]), Request(Getn(2))];
    RunSnoc([Write([7])], Request(Getn(2)));
    var q := Run(INIT, [Write([7]), Request(Getn(2))]);
    assert q.pending == [Ticket(0, Getn(2))] && q.unread == [7] && q.log == [];
    RunSnoc([Write([7]), Request(Getn(2))], Request(Bumpc));
    assert [Write([7]), Request(Getn(2))] + [Request(Bumpc)] == [Write([7]), Request(Getn(2)), Request(Bumpc)];
  }

  // One more step.
  lemma RunSnoc(ops: seq<Op>, op: Op)
    requires Enabled(Run(INIT, ops), op)
    ensures Run(INIT, ops + [op]) == Step(Run(INIT, ops), op)
  {
    assert (ops + [op])[..|ops + [op]| - 1] == ops;
  }
}
