/** The producer/consumer stream buffer: a deque of partly filled blocks, a queue of waiting
    read requests, and the counters that must agree with them. Every method is one locked
    section (or an unlocked flag store) and is proved to take the step of the byte queue in
    BufferSpec that bears its name. */
module ProducerConsumerBuffer {
  import opened Bytes
  import opened BufferSpec
  import BufferLaws

  /** One memory block: characters data[read..pos] are unread, data[pos..] is free. */
  class Block {
    const data: array<Byte>
    var read: nat
    var pos: nat

    ghost predicate Valid()
      reads this
    {
      read <= pos <= data.Length
    }

    ghost function Unread(): seq<Byte>
      requires Valid()
      reads this, data
    {
      data[read..pos]
    }

    constructor (size: nat)
      ensures Valid() && read == pos == 0 && data.Length == size && fresh(data)
      ensures Unread() == []
    {
      data := new Byte[size];
      read, pos := 0, 0;
    }

    function RdCharsLeft(): (n: nat)
      requires Valid()
      reads this, data
      ensures n == |Unread()|
    {
      pos - read
    }

    function WrCharsLeft(): nat
      requires Valid()
      reads this
    {
      data.Length - pos
    }

    // Copies up to `count` unread characters to dest[at..].
    method Read(dest: array<Byte>, at: nat, count: nat, advance: bool) returns (n: nat)
      requires Valid() && dest != data && at + count <= dest.Length
      modifies dest, this`read
      ensures Valid() && n == Min(count, |old(Unread())|)
      ensures Unread() == if advance then old(Unread())[n..] else old(Unread())
      ensures forall k :: at <= k < at + n ==> dest[k] == old(Unread())[k - at]
      ensures forall k :: 0 <= k < dest.Length && !(at <= k < at + n) ==> dest[k] == old(dest[k])
    {
      n := Min(RdCharsLeft(), count);
      forall k | at <= k < at + n {
        dest[k] := data[read + (k - at)];
      }
      if advance {
        read := read + n;
      }
    }

    // Copies up to `count` characters of src behind the write head.
    method Write(src: array<Byte>, count: nat) returns (n: nat)
      requires Valid() && count <= src.Length
      modifies data, this`pos
      ensures Valid() && n == Min(count, old(WrCharsLeft()))
      ensures Unread() == old(Unread()) + old(src[..n])
    {
      n := Min(WrCharsLeft(), count);
      forall i | 0 <= i < n {
        data[pos + i] := src[i];
      }
      UpdateWriteHead(n);
    }

    method UpdateWriteHead(count: nat)
      requires Valid() && count <= WrCharsLeft()
      modifies this`pos
      ensures Valid() && pos == old(pos) + count
    {
      pos := pos + count;
    }
  }

  // A waiting read; `dest` is the caller's memory, for a Getn only.
  datatype ReadRequest = ReadRequest(ticket: Ticket, dest: array?<Byte>)

  // A value given to the completion event of a request.
  datatype Outcome = Outcome(id: nat, value: int)

  datatype Allocation = Refused | NoMemory | Granted(at: array<Byte>)
  datatype Acquired = Unavailable | EndOfStream | Chars(at: array<Byte>, from: nat, count: nat)

  ghost function Outcomes(log: seq<Entry>): seq<Outcome> {
    if log == [] then []
    else
      var e := log[|log| - 1];
      Outcomes(log[..|log| - 1]) +
      (if e.reader.Queued? || e.reader.Prompt? then [Outcome(e.reader.ticket.id, e.result)] else [])
  }

  lemma OutcomesSnoc(log: seq<Entry>, e: Entry)
    ensures Outcomes(log + [e]) == Outcomes(log) +
              (if e.reader.Queued? || e.reader.Prompt? then [Outcome(e.reader.ticket.id, e.result)] else [])
  {
    assert (log + [e])[..|log + [e]| - 1] == log;
  }

  function Tickets(rs: seq<ReadRequest>): (ts: seq<Ticket>)
    ensures |ts| == |rs| && forall i :: 0 <= i < |rs| ==> ts[i] == rs[i].ticket
  {
    seq(|rs|, i requires 0 <= i < |rs| => rs[i].ticket)
  }

  // Pieces before k are read to the end, piece k up to m.
  ghost predicate PartRead(us: seq<seq<Byte>>, vs: seq<seq<Byte>>, k: nat, advance: bool, m: nat)
    requires |us| == |vs| && k <= |us| && (k < |us| ==> m <= |us[k]|)
  {
    && (forall i :: 0 <= i < k ==> vs[i] == if advance then [] else us[i])
    && (k < |us| ==> vs[k] == Rest(us[k], m, advance))
    && (forall i :: k < i < |us| ==> vs[i] == us[i])
  }

  // Reading m characters of piece i, at stream position n, ends a read.
  lemma StopIn(us: seq<seq<Byte>>, vs: seq<seq<Byte>>, i: nat, n: nat, advance: bool, m: nat)
    requires |us| == |vs| && i < |us| && m <= |us[i]|
    requires AtPiece(us, i, n) && PartRead(us, vs, i, advance, m)
    ensures n + m <= |Join(us)| && Join(vs) == Rest(Join(us), n + m, advance)
  {
    TakeStep(us, i, n, m);
    JoinTail(us, vs, i, advance, m);
    assert us[i + 1..] == us[i..][1..];
    assert Join(us)[n + m..] == Join(us[i..])[m..];
  }

  // Every piece was read to the end.
  lemma StopAtEnd(us: seq<seq<Byte>>, vs: seq<seq<Byte>>, n: nat, advance: bool)
    requires |us| == |vs| && AtPiece(us, |us|, n) && PartRead(us, vs, |us|, advance, 0)
    ensures n == |Join(us)| && Join(vs) == Rest(Join(us), n, advance)
  {
    JoinTail(us, vs, |us|, advance, 0);
  }

  // After reading: blocks before k are empty, block k lost its first m characters.
  lemma JoinTail(us: seq<seq<Byte>>, vs: seq<seq<Byte>>, k: nat, advance: bool, m: nat)
    requires |us| == |vs| && k <= |us| && (k < |us| ==> m <= |us[k]|)
    requires PartRead(us, vs, k, advance, m)
    ensures !advance ==> vs == us
    ensures advance ==> Join(vs) == if k < |us| then us[k][m..] + Join(us[k + 1..]) else []
  {
    if advance {
      if us == [] {
      } else if k == 0 {
        assert vs[1..] == us[1..];
      } else {
        JoinTail(us[1..], vs[1..], k - 1, advance, m);
        assert k < |us| ==> us[k + 1..] == us[1..][k..];
      }
    }
  }

  // What is left of s once its first n characters were read.
  ghost function Rest(s: seq<Byte>, n: nat, advance: bool): (r: seq<Byte>)
    requires n <= |s|
    ensures |r| == |s| - if advance then n else 0
  {
    if advance then s[n..] else s
  }

  // The stream position n is the start of piece i.
  ghost predicate AtPiece(us: seq<seq<Byte>>, i: nat, n: nat)
    requires i <= |us|
  {
    n <= |Join(us)| && Join(us)[n..] == Join(us[i..])
  }

  lemma AtStart(us: seq<seq<Byte>>, advance: bool)
    ensures AtPiece(us, 0, 0) && PartRead(us, us, 0, advance, 0)
  {
  }

  // Reading m characters of piece i.
  lemma TakeStep(us: seq<seq<Byte>>, i: nat, n: nat, m: nat)
    requires i < |us| && m <= |us[i]| && AtPiece(us, i, n)
    ensures n + m <= |Join(us)|
    ensures m == |us[i]| ==> AtPiece(us, i + 1, n + m)
    ensures forall k :: n <= k < n + m ==> Join(us)[k] == us[i][k - n]
  {
    var all, tail := Join(us), Join(us[i + 1..]);
    assert us[i + 1..] == us[i..][1..];
    assert all[n..] == us[i] + tail;
    forall k | n <= k < n + m
      ensures all[k] == us[i][k - n]
    {
      assert all[n..][k - n] == us[i][k - n];
    }
    assert all[n + m..] == all[n..][m..];
  }

  lemma ReadPiece(us: seq<seq<Byte>>, vs: seq<seq<Byte>>, i: nat, advance: bool, m: nat)
    requires |us| == |vs| && i < |us| && m <= |vs[i]| && PartRead(us, vs, i, advance, 0)
    ensures vs[i] == us[i]
    ensures var ws := vs[i := Rest(us[i], m, advance)];
            && PartRead(us, ws, i, advance, m)
            && (m == |us[i]| ==> PartRead(us, ws, i + 1, advance, 0))
  {
  }

  // Empty pieces in front add nothing.
  lemma DropEmpty(us: seq<seq<Byte>>, k: nat)
    requires k <= |us| && forall i :: 0 <= i < k ==> us[i] == []
    ensures Join(us) == Join(us[k..])
  {
    if k == 0 {
      assert us[k..] == us;
    } else {
      assert us[k..] == us[1..][k - 1..];
      DropEmpty(us[1..], k - 1);
    }
  }

  class Buffer {
    const allocSize: nat
    var allocBlock: Block?
    var alloced: bool
    var total: nat
    var totalRead: nat
    var totalWritten: nat
    var synced: nat
    var blocks: seq<Block>
    var requests: seq<ReadRequest>
    var canRead: bool
    var canWrite: bool
    var outcomes: seq<Outcome>

    ghost var q: Q
    ghost var ops: seq<Op>            // the run that led to q
    ghost var chunks: seq<seq<Byte>>  // the unread characters of each block
    ghost var Nodes: set<Block>             // holds the blocks
    ghost var Memory: set<array<Byte>>      // holds their memory

    // The blocks are well formed and share no memory with each other, with the block being
    // filled, or with the memory that waiting reads will be copied to.
    ghost predicate Shape()
      reads `blocks, `chunks, `total, `requests, `allocBlock, `Nodes, `Memory, Nodes, Memory, allocBlock
    {
      Parts() && total == |Join(chunks)|
    }

    ghost predicate Parts()
      reads `blocks, `chunks, `requests, `allocBlock, `Nodes, `Memory, Nodes, Memory, allocBlock
    {
      BlocksOk() && AllocOk() && RequestsOk(requests)
    }

    ghost predicate BlocksOk()
      reads `blocks, `chunks, `Nodes, `Memory, Nodes, Memory
    {
      |chunks| == |blocks| && InNodes(blocks) && HoldAll(blocks, chunks) && Apart(blocks)
    }

    ghost predicate InNodes(bs: seq<Block>)
      reads `Nodes, `Memory
    {
      forall b <- bs :: b in Nodes && b.data in Memory
    }

    // Block i holds the unread characters us[i].
    ghost predicate HoldAll(bs: seq<Block>, us: seq<seq<Byte>>)
      requires InNodes(bs) && |us| == |bs|
      reads `Nodes, `Memory, Nodes, Memory
    {
      forall i :: 0 <= i < |bs| ==> bs[i] in Nodes && bs[i].data in Memory && Holds(bs[i], us[i])
    }

    ghost predicate AllocOk()
      reads `allocBlock, `Nodes, `Memory, allocBlock
    {
      allocBlock != null ==>
        allocBlock.read == allocBlock.pos == 0 && allocBlock !in Nodes && allocBlock.data !in Memory
    }

    ghost predicate RequestsOk(rs: seq<ReadRequest>)
      reads `Memory, `allocBlock
    {
      forall r <- rs :: RequestOk(r)
    }

    ghost predicate RequestOk(r: ReadRequest)
      reads `Memory, `allocBlock
    {
      && (r.ticket.kind.Getn? <==> r.dest != null)
      && (r.ticket.kind.Getn? ==> r.ticket.kind.count <= r.dest.Length)
      && (r.dest != null ==> DestOk(r.dest))
    }

    ghost predicate DestOk(dest: array<Byte>)
      reads `Memory, `allocBlock
    {
      dest !in Memory && (allocBlock != null ==> dest != allocBlock.data)
    }

    // The counters, the blocks and the request queue all agree with the byte queue, inside a
    // locked section too.
    ghost predicate InSection()
      reads `blocks, `chunks, `total, `totalRead, `totalWritten, `synced, `requests, `canRead, `canWrite, `outcomes,
            `alloced, `allocBlock, `q, `Nodes, `Memory, Nodes, Memory, allocBlock
    {
      Shape() && q.unread == Join(chunks) && Agrees()
    }

    // Between locked sections the byte queue is the result of a run.
    ghost predicate Valid()
      reads this, Nodes, Memory, allocBlock
    {
      InSection() && q == Run(INIT, ops)
    }

    ghost predicate Agrees()
      reads `total, `totalRead, `totalWritten, `synced, `requests, `canRead, `canWrite, `outcomes, `alloced,
            `allocBlock, `q
    {
      && q.synced == synced && q.canRead == canRead && q.canWrite == canWrite
      && q.pending == Tickets(requests)
      && totalRead == |Delivered(q.log)|
      && totalWritten == |q.accepted|
      && totalWritten == totalRead + total
      && outcomes == Outcomes(q.log)
      && (alloced <==> allocBlock != null)
    }

    constructor (allocSize: nat)
      ensures Valid() && q == INIT && requests == [] && canRead && canWrite && Nodes == {} && Memory == {}
    {
      this.allocSize := allocSize;
      allocBlock, alloced := null, false;
      total, totalRead, totalWritten, synced := 0, 0, 0, 0;
      blocks, requests, outcomes := [], [], [];
      canRead, canWrite := true, true;
      q, ops, chunks, Nodes, Memory := INIT, [], [], {}, {};
    }

    // What the theorems about runs say of a buffer: what was handed over, followed by the
    // unread characters of all blocks, is what was accepted, and the counters agree with it;
    // requests are answered in queue order, once each; and the front request really waits.
    lemma Conserves()
      requires Valid()
      ensures q.accepted == Delivered(q.log) + Join(chunks)
      ensures totalRead == |Delivered(q.log)| && total == |Join(chunks)| && totalWritten == totalRead + total
      ensures synced <= total
      ensures q.pushed == ServedFromQueue(q.log) + Tickets(requests)
      ensures forall id: nat ::
                TimesSet(q.log, id) + TimesPending(Tickets(requests), id) == if id < q.issued then 1 else 0
      ensures requests != [] && !q.closing ==> canWrite && synced == 0 && total < Size(requests[0].ticket.kind)
    {
      hide Run, Join, Delivered, Parts, Outcomes;
      RunDelivers(ops);
    }

    // Every reader was handed the next characters of the stream.
    lemma ReaderIsNext(i: nat)
      requires Valid() && i < |q.log|
      ensures var e, off := q.log[i], |Delivered(q.log[..i])|;
              && off + |e.seen| <= |q.accepted| && e.seen == q.accepted[off..off + |e.seen|]
              && |e.seen| == Min(e.want, e.snap.avail) && (e.taken == e.seen || e.taken == [])
              && (e.reader.Window? ==> e.taken == e.seen)
              && (e.reader.Direct? ==> e.taken == if e.reader.advance then e.seen else [])
              && (|e.seen| < e.want ==> e.snap.flushed || e.snap.closed)
              && (0 == |e.seen| < e.want ==> e.snap.closed && off == e.snap.accepted)
    {
      hide Run, Join, Delivered, Parts, Outcomes, Agrees;
      ReaderGetsNext(ops, i);
    }

    // The watermark is the number of undelivered characters among those that had been accepted
    // before the last sync.
    lemma Watermark()
      requires Valid()
      ensures synced == BufferLaws.Undelivered(BufferLaws.FlushedTo(ops), totalRead)
      ensures q.accepted == BufferLaws.Written(ops)
      ensures Tickets(requests) == q.pending && BufferLaws.Increasing(q.pending)
    {
      hide Run, Join, Delivered, Parts, Outcomes;
      BufferLaws.WatermarkIs(ops);
      BufferLaws.AcceptsWritten(ops);
      BufferLaws.QueueInOrder(ops);
      BufferLaws.IncreasingSuffix(ServedFromQueue(q.log), q.pending);
    }

    // Once the write head is closed and flushed nobody waits, as the destructor asserts.
    lemma NobodyWaits()
      requires Valid() && !canWrite && !q.closing
      ensures requests == []
    {
      Conserves();
    }

    // A locked section has taken one more step of the run.
    ghost method Took(op: Op, was: Q)
      requires InSection() && was == Run(INIT, ops) && Enabled(was, op) && q == Step(was, op)
      modifies `ops
      ensures Valid() && ops == old(ops) + [op]
    {
      hide Run, Parts, Agrees, Step, Join;
      RunSnoc(ops, op);
      ops := ops + [op];
    }

    function InAvail(): nat
      reads this
    {
      total
    }

    predicate Satisfiable(count: nat)
      reads this
    {
      synced > 0 || InAvail() >= count || !canWrite
    }

    // Reads up to `count` characters, walking over the blocks.
    method ReadChars(dest: array<Byte>, count: nat, advance: bool) returns (n: nat)
      requires Shape() && DestOk(dest) && count <= dest.Length
      modifies `total, `totalRead, `synced, `blocks, `chunks, Nodes, dest
      ensures Shape()
      ensures n == Min(count, |old(Join(chunks))|)
      ensures forall k :: 0 <= k < n ==> dest[k] == old(Join(chunks))[k]
      ensures forall k :: n <= k < dest.Length ==> dest[k] == old(dest[k])
      ensures n <= |old(Join(chunks))| && Join(chunks) == Rest(old(Join(chunks)), n, advance)
      ensures total + totalRead == old(total + totalRead)
      ensures totalRead == old(totalRead) + if advance then n else 0
      ensures synced == if !advance then old(synced) else if old(synced) > n then old(synced) - n else 0
    {
      hide Join, HoldAll, Apart, InNodes, RequestsOk, Rest;
      n, chunks := CopyFront(dest, count, advance);
      if advance {
        UpdateReadHead(n);
      }
    }

    // The walk itself: the blocks give up their first n characters, in order.
    method CopyFront(dest: array<Byte>, count: nat, advance: bool) returns (n: nat, ghost left: seq<seq<Byte>>)
      requires BlocksOk()
      requires dest !in Memory && count <= dest.Length
      modifies Nodes, dest
      ensures |left| == |blocks| && HoldAll(blocks, left)
      ensures n == Min(count, |Join(chunks)|)
      ensures forall k :: 0 <= k < n ==> dest[k] == Join(chunks)[k]
      ensures forall k :: n <= k < dest.Length ==> dest[k] == old(dest[k])
      ensures n <= |Join(chunks)| && Join(left) == Rest(Join(chunks), n, advance)
    {
      hide HoldAll, InNodes, Join, Apart, AtPiece, PartRead, Rest;
      AtStart(chunks, advance);
      left := chunks;
      ghost var all := Join(chunks);
      n := 0;
      for i := 0 to |blocks|
        invariant AtPiece(chunks, i, n) && n <= |all| && n <= count && (n < count || n == 0)
        invariant |left| == |chunks| == |blocks| && HoldAll(blocks, left) && PartRead(chunks, left, i, advance, 0)
        invariant forall k :: 0 <= k < n ==> dest[k] == all[k]
        invariant forall k :: n <= k < dest.Length ==> dest[k] == old(dest[k])
      {
        BlockInNodes(i);
        var m := ReadBlock(i, dest, n, count - n, advance, left);
        ReadPiece(chunks, left, i, advance, m);
        left := left[i := Rest(chunks[i], m, advance)];
        TakeStep(chunks, i, n, m);
        n := n + m;
        if n == count {
          StopIn(chunks, left, i, n - m, advance, m);
          return;
        }
      }
      StopAtEnd(chunks, left, n, advance);
    }

    lemma BlockInNodes(i: nat)
      requires InNodes(blocks) && i < |blocks|
      ensures blocks[i] in Nodes && blocks[i].data in Memory
    {
    }

    method ReadBlock(i: nat, dest: array<Byte>, at: nat, count: nat, advance: bool, ghost left: seq<seq<Byte>>)
      returns (m: nat)
      requires |left| == |blocks| && InNodes(blocks) && HoldAll(blocks, left) && Apart(blocks) && i < |blocks|
      requires dest !in Memory && at + count <= dest.Length
      modifies blocks[i], dest
      ensures m == Min(count, |left[i]|)
      ensures HoldAll(blocks, left[i := Rest(left[i], m, advance)])
      ensures forall k :: at <= k < at + m ==> dest[k] == left[i][k - at]
      ensures forall k :: 0 <= k < dest.Length && !(at <= k < at + m) ==> dest[k] == old(dest[k])
    {
      m := blocks[i].Read(dest, at, count, advance);
    }

    // Moves the read head, then drops the blocks in front of it that are read to the end.
    method UpdateReadHead(count: nat)
      requires BlocksOk()
      requires count <= total
      modifies `total, `totalRead, `synced, `blocks, `chunks
      ensures BlocksOk()
      ensures total == old(total) - count && totalRead == old(totalRead) + count
      ensures synced == if old(synced) > count then old(synced) - count else 0
      ensures Join(chunks) == old(Join(chunks))
      ensures blocks != [] ==> chunks[0] != []
    {
      hide Join, HoldAll, Apart, InNodes;
      total := total - count;
      totalRead := totalRead + count;
      if synced > 0 {
        synced := if synced > count then synced - count else 0;
      }
      var empty := EmptyInFront();
      BlocksSuffix(blocks, chunks, empty);
      blocks, chunks := blocks[empty..], chunks[empty..];
    }

    // How many blocks in front have been read to the end.
    method EmptyInFront() returns (empty: nat)
      requires |chunks| == |blocks| && InNodes(blocks) && HoldAll(blocks, chunks)
      ensures empty <= |blocks| && Join(chunks[empty..]) == Join(chunks)
      ensures empty < |blocks| ==> chunks[empty] != []
    {
      empty := 0;
      while empty < |blocks| && blocks[empty].RdCharsLeft() == 0
        invariant empty <= |blocks|
        invariant forall i :: 0 <= i < empty ==> chunks[i] == []
      {
        empty := empty + 1;
      }
      DropEmpty(chunks, empty);
    }

    lemma BlocksSuffix(bs: seq<Block>, us: seq<seq<Byte>>, k: nat)
      requires |us| == |bs| && InNodes(bs) && HoldAll(bs, us) && Apart(bs) && k <= |bs|
      ensures InNodes(bs[k..]) && HoldAll(bs[k..], us[k..]) && Apart(bs[k..])
    {
    }

    method ReadByte(advance: bool) returns (v: int)
      requires Shape()
      modifies `total, `totalRead, `synced, `blocks, `chunks, Nodes
      ensures Shape()
      ensures v == ByteResult(old(Join(chunks)))
      ensures var n := Min(1, |old(Join(chunks))|);
              && Join(chunks) == Rest(old(Join(chunks)), n, advance)
              && total + totalRead == old(total + totalRead)
              && totalRead == old(totalRead) + (if advance then n else 0)
              && synced == if !advance then old(synced) else if old(synced) > n then old(synced) - n else 0
    {
      hide Join, HoldAll, Apart, InNodes, RequestsOk, Rest;
      var value := new Byte[1];
      var n := ReadChars(value, 1, advance);
      v := if n == 1 then value[0] else EOF;
    }

    // Runs the completion function of a request.
    method CompleteRequest(r: ReadRequest, ghost reader: Reader)
      requires InSection() && RequestOk(r)
      requires reader == Queued(r.ticket) || reader == Prompt(r.ticket)
      modifies `total, `totalRead, `synced, `blocks, `chunks, `outcomes, `q, Nodes, Dests([r])
      ensures InSection() && q == Complete(old(q), reader, r.ticket.kind)
      ensures r.dest != null ==>
                && CopiedTo(Front(old(q), Size(r.ticket.kind)), r.dest)
                && forall k :: |Front(old(q), Size(r.ticket.kind))| <= k < r.dest.Length ==> r.dest[k] == old(r.dest[k])
    {
      hide Join, Parts, Rest, Delivered, Outcomes, TicketEntry, CopiedTo, Front, Complete;
      var value := RunRead(r.ticket.kind, r.dest, reader);
      outcomes := outcomes + [Outcome(r.ticket.id, value)];
      CompleteFacts(q, reader, r.ticket.kind);
      CompleteFrame(q, reader, r.ticket.kind);
      q := Complete(q, reader, r.ticket.kind);
    }

    // The reads of a completion function, and the value it sets.
    method RunRead(k: Kind, dest: array?<Byte>, ghost reader: Reader) returns (value: int)
      requires Shape() && (k.Getn? ==> dest != null && DestOk(dest) && k.count <= dest.Length)
      requires q.unread == Join(chunks)
      modifies `total, `totalRead, `synced, `blocks, `chunks, Nodes, if dest == null then {} else {dest}
      ensures Shape()
      ensures value == TicketEntry(q, reader, k).result
      ensures var n := Min(Size(k), |q.unread|);
              var taken := if k.Getc? then 0 else n;
              && Join(chunks) == Rest(q.unread, n, !k.Getc?)
              && total + totalRead == old(total + totalRead)
              && totalRead == old(totalRead) + taken
              && synced == if old(synced) > taken then old(synced) - taken else 0
      ensures k.Getn? ==>
                && CopiedTo(Front(q, Size(k)), dest)
                && forall i :: |Front(q, Size(k))| <= i < dest.Length ==> dest[i] == old(dest[i])
    {
      hide Join, HoldAll, Apart, InNodes, RequestsOk;
      match k {
        case Getn(count) =>
          value := ReadChars(dest, count, true);
        case Bumpc =>
          value := ReadByte(true);
        case Getc =>
          value := ReadByte(false);
        case Nextc =>
          value := ReadByte(true);
          value := ReadByte(false);
      }
    }

    // Serves waiting requests from the front until one has to wait.
    method FulfillOutstanding()
      requires InSection()
      modifies `total, `totalRead, `synced, `blocks, `chunks, `outcomes, `q, `requests, Nodes, Dests(requests)
      ensures InSection() && q == Fulfill(old(q))
      ensures Answered(old(requests), old(|q.log|))
      ensures |requests| == old(|requests|) && old(blocks != [] && chunks != []) ==>
                FrontIs(old(blocks[0]), old(blocks[0].read), old(chunks[0]))
    {
      hide Shape, Agrees, RequestOk, Outcomes, Complete, CopiedTo, Filled, FrontIs;
      ghost var rs, from, n := requests, |q.log|, 0;
      NoneFilled(rs, q.log);
      FrontNow();
      while requests != []
        invariant InSection() && Fulfill(q) == Fulfill(old(q))
        invariant n <= |rs| && requests == rs[n..] && Filled(rs, n, q.log, from)
        invariant n == 0 && old(blocks != [] && chunks != []) ==>
                    FrontIs(old(blocks[0]), old(blocks[0].read), old(chunks[0]))
        decreases |requests|
      {
        var r := requests[0];
        FrontRequest();
        if !Satisfiable(Size(r.ticket.kind)) {
          return;
        }
        AnswerFront(rs, n, from);
        n := n + 1;
      }
      NothingPending();
    }

    // Completes the front request, the n-th of rs, and removes it.
    method AnswerFront(ghost rs: seq<ReadRequest>, ghost n: nat, ghost from: nat)
      requires InSection() && requests != [] && CanSatisfy(q, Size(requests[0].ticket.kind))
      requires n <= |rs| && requests == rs[n..] && Filled(rs, n, q.log, from)
      modifies `total, `totalRead, `synced, `blocks, `chunks, `outcomes, `q, `requests, Nodes, Dests([requests[0]])
      ensures InSection() && q == old(ServeOne(q)) && old(q.pending != [])
      ensures requests == rs[n + 1..] && Filled(rs, n + 1, q.log, from)
    {
      hide Shape, Agrees, RequestOk, Outcomes, Complete, CopiedTo, Front;
      var r := requests[0];
      FrontRequest();
      CompleteLog(q, Queued(r.ticket), r.ticket.kind);
      CompleteRequest(r, Queued(r.ticket));
      PopRequest();
    }

    // The requests rs have been answered from the front, by the log entries from `from` on,
    // and what is left of them still waits.
    ghost predicate Answered(rs: seq<ReadRequest>, from: nat)
      reads `requests, `q, Dests(rs)
    {
      |requests| <= |rs| && requests == rs[|rs| - |requests|..] && Filled(rs, |rs| - |requests|, q.log, from)
    }

    // The front of the request queue is the front of the byte queue's pending list.
    lemma FrontRequest()
      requires InSection() && requests != []
      ensures q.pending != [] && q.pending[0] == requests[0].ticket && RequestOk(requests[0])
      ensures forall n: nat :: Satisfiable(n) == CanSatisfy(q, n)
      ensures Dests([requests[0]]) <= Dests(requests)
      ensures Complete(q, Queued(q.pending[0]), q.pending[0].kind).pending == q.pending
    {
    }

    lemma FlagsAgree()
      requires InSection()
      ensures q.canRead == canRead && q.canWrite == canWrite
    {
    }

    // Block b is at the front, read up to `from`, and its unread characters begin with s.
    ghost predicate FrontIs(b: Block, from: nat, s: seq<Byte>)
      reads `blocks, `chunks, b`read
    {
      blocks != [] && chunks != [] && blocks[0] == b && b.read == from && s <= chunks[0]
    }

    // So a window that was acquired on characters s still shows them.
    lemma WindowStays(b: Block, from: nat, s: seq<Byte>)
      requires Valid() && FrontIs(b, from, s)
      ensures from + |s| <= b.data.Length && b.data[from..from + |s|] == s <= q.unread
    {
      hide Run, AllocOk, RequestsOk, Agrees, Apart;
      assert Holds(blocks[0], chunks[0]);
      assert chunks[0] == b.data[from..b.pos];
    }

    lemma FrontNow()
      ensures blocks != [] && chunks != [] ==> FrontIs(blocks[0], blocks[0].read, chunks[0])
    {
    }

    lemma FrontFacts(b: Block, from: nat, s: seq<Byte>)
      requires FrontIs(b, from, s)
      ensures blocks != [] && chunks != [] && blocks[0] == b && b.read == from && s <= chunks[0]
    {
    }

    lemma FrontBegins(b: Block, from: nat, s: seq<Byte>, t: seq<Byte>)
      requires FrontIs(b, from, t) && s <= t
      ensures FrontIs(b, from, s)
    {
    }

    lemma NoneAnswered()
      ensures Answered(requests, |q.log|)
    {
    }

    lemma NothingPending()
      requires InSection() && requests == []
      ensures q.pending == []
    {
    }

    method PopRequest()
      requires InSection() && requests != []
      modifies `requests, `q
      ensures InSection() && requests == old(requests[1..]) && q == old(q).(pending := old(q).pending[1..])
      ensures Dests(requests) <= old(Dests(requests))
    {
      hide Join, HoldAll, Apart, InNodes, Delivered, Outcomes;
      requests := requests[1..];
      q := q.(pending := q.pending[1..]);
    }

    // Asynchronous reads: answered at once if possible, otherwise queued. `id` names the
    // caller's completion event.
    method EnqueueRequest(id: nat, k: Kind, dest: array?<Byte>)
      requires Valid() && id == q.issued
      requires k.Getn? <==> dest != null
      requires dest != null ==> k.count <= dest.Length && DestOk(dest)
      modifies `total, `totalRead, `synced, `blocks, `chunks, `outcomes, `q, `ops, `requests, Nodes,
               if dest == null then {} else {dest}
      ensures Valid() && q == Enqueue(old(q), k)
      ensures requests == old(requests) + if CanSatisfy(old(q), Size(k)) then [] else [ReadRequest(Ticket(id, k), dest)]
      ensures dest != null && CanSatisfy(old(q), Size(k)) ==>
                && CopiedTo(Front(old(q), Size(k)), dest)
                && forall i :: |Front(old(q), Size(k))| <= i < dest.Length ==> dest[i] == old(dest[i])
      ensures dest != null && !CanSatisfy(old(q), Size(k)) ==> dest[..] == old(dest[..])
      ensures ops == old(ops) + [Request(k)]
    {
      hide Join, Parts, Outcomes, Delivered, Complete, Run, CopiedTo;
      var r := ReadRequest(Ticket(id, k), dest);
      ghost var was := q;
      if Satisfiable(Size(k)) {
        CompleteRequest(r, Prompt(r.ticket));
        q := q.(issued := id + 1);
      } else {
        PushRequest(r);
      }
      Took(Request(k), was);
    }

    method PushRequest(r: ReadRequest)
      requires InSection() && RequestOk(r)
      modifies `requests, `q
      ensures InSection() && requests == old(requests) + [r]
      ensures q == old(q).(issued := old(q).issued + 1, pending := old(q).pending + [r.ticket],
                           pushed := old(q).pushed + [r.ticket])
    {
      hide Join, HoldAll, Apart, InNodes, Outcomes, Delivered;
      requests := requests + [r];
      q := q.(issued := q.issued + 1, pending := q.pending + [r.ticket], pushed := q.pushed + [r.ticket]);
    }

    // Synchronous reads of up to `count` characters; the result is the number read, or
    // REQUIRES_ASYNC when the read would have to wait.
    method SyncReadChars(dest: array<Byte>, count: nat, advance: bool) returns (n: int)
      requires Valid() && DestOk(dest) && count <= dest.Length
      modifies `total, `totalRead, `synced, `blocks, `chunks, `q, `ops, Nodes, dest
      ensures Valid() && q == SyncRead(old(q), count, advance)
      ensures ops == old(ops) + [Op.Read(count, advance)]
      ensures n == if old(synced > 0 || total >= count || !canWrite) then Min(count, old(total)) else REQUIRES_ASYNC
      ensures q.unread == if advance && n >= 0 then old(q).unread[n..] else old(q).unread
      ensures forall k :: 0 <= k < n ==> dest[k] == old(q).unread[k]
      ensures forall k :: 0 <= k < dest.Length && n <= k ==> dest[k] == old(dest[k])
    {
      hide Join, Parts, Outcomes, Delivered, Rest, Run;
      ghost var was := q;
      if Satisfiable(count) {
        n := ReadChars(dest, count, advance);
        ReadFacts(q, Direct(advance), count, advance);
        q := Record(q, ReadEntry(q, Direct(advance), count, advance));
      } else {
        n := REQUIRES_ASYNC;
      }
      Took(Op.Read(count, advance), was);
    }

    // Synchronous reads of one character.
    method SyncReadByte(advance: bool) returns (v: int)
      requires Valid()
      modifies `total, `totalRead, `synced, `blocks, `chunks, `q, `ops, Nodes
      ensures Valid() && q == SyncRead(old(q), 1, advance)
      ensures ops == old(ops) + [Op.Read(1, advance)]
      ensures v == if old(total) > 0 then old(q).unread[0]
                   else if old(synced) > 0 || !canWrite then EOF else REQUIRES_ASYNC
      ensures q.unread == if advance && v >= 0 then old(q).unread[1..] else old(q).unread
    {
      hide Join, Parts, Outcomes, Delivered, Rest, Run;
      ghost var was := q;
      if Satisfiable(1) {
        v := ReadByte(advance);
        ReadFacts(q, Direct(advance), 1, advance);
        q := Record(q, ReadEntry(q, Direct(advance), 1, advance));
      } else {
        v := REQUIRES_ASYNC;
      }
      Took(Op.Read(1, advance), was);
    }

    // A window on the unread characters of the front block.
    method Acquire() returns (r: Acquired)
      requires Valid()
      ensures r.Chars? <==> canRead && blocks != []
      ensures r.Chars? ==>
                && r.from + r.count <= r.at.Length && r.count == |chunks[0]|
                && r.at[r.from..r.from + r.count] == chunks[0] <= q.unread
      ensures r.Chars? ==> r.at == blocks[0].data && r.from == blocks[0].read
      ensures r.EndOfStream? ==> canRead && !canWrite && q.unread == []
      ensures !canWrite && canRead && q.unread == [] ==> r.EndOfStream? || (r.Chars? && r.count == 0)
    {
      hide Apart, AllocOk, RequestsOk, Outcomes, Delivered;
      if !canRead {
        r := Unavailable;
      } else if blocks == [] {
        r := if canWrite then Unavailable else EndOfStream;
      } else {
        var b := blocks[0];
        r := Chars(b.data, b.read, b.RdCharsLeft());
      }
    }

    // Gives an acquired window back after reading `count` of its characters.
    method ReleaseChars(window: Acquired, count: nat)
      requires Valid()
      requires window.Chars? ==> blocks != [] && count <= |chunks[0]|
      modifies `total, `totalRead, `synced, `blocks, `chunks, `q, `ops, Nodes
      ensures Valid()
      ensures window.Chars? ==> count <= |old(q).unread| && q == Release(old(q), count)
      ensures window.Chars? ==> q.unread == old(q).unread[count..] && total == old(total) - count
      ensures window.Chars? ==> totalRead == old(totalRead) + count && Delivered(q.log) ==
                                old(Delivered(q.log)) + old(q).unread[..count]
      ensures !window.Chars? ==> q == old(q) && ops == old(ops)
      ensures window.Chars? ==> ops == old(ops) + [ReleaseWindow(count)]
    {
      hide Shape, Agrees, Record, Run, Delivered;
      if window.Chars? {
        ghost var was := q;
        ReleaseLocked(count);
        ReleaseDelivers(was, count);
        Took(ReleaseWindow(count), was);
      }
    }

    method ReleaseLocked(count: nat)
      requires InSection() && blocks != [] && count <= |chunks[0]|
      modifies `total, `totalRead, `synced, `blocks, `chunks, `q, Nodes
      ensures InSection() && count <= |old(q).unread| && q == Release(old(q), count)
      ensures q.unread == old(q).unread[count..] && total == old(total) - count
      ensures totalRead == old(totalRead) + count
    {
      hide BlocksOk, AllocOk, RequestsOk, Outcomes, Delivered, Join;
      AdvanceFront(count);
      UpdateReadHead(count);
      ReadFacts(q, Window, count, true);
      q := Record(q, ReadEntry(q, Window, count, true));
    }

    method AdvanceFront(count: nat)
      requires Shape() && blocks != [] && count <= |chunks[0]|
      modifies Nodes, `chunks
      ensures BlocksOk() && AllocOk()
      ensures count <= old(|Join(chunks)|) && Join(chunks) == Rest(old(Join(chunks)), count, true)
    {
      hide RequestsOk, Join;
      BlockInNodes(0);
      blocks[0].read := blocks[0].read + count;
      JoinFront(chunks, count);
      chunks := chunks[0 := chunks[0][count..]];
    }

    // Marks everything written so far as readable, whatever the size of the waiting reads.
    method Sync()
      requires Valid()
      modifies `total, `totalRead, `synced, `blocks, `chunks, `outcomes, `q, `ops, `requests, Nodes, Dests(requests)
      ensures Valid() && q == Flush(old(q)) && ops == old(ops) + [SyncAll]
      ensures requests == [] || total == 0
      ensures Answered(old(requests), old(|q.log|))
      ensures |requests| == old(|requests|) && old(blocks != [] && chunks != []) ==>
                FrontIs(old(blocks[0]), old(blocks[0].read), old(chunks[0]))
    {
      hide InSection, Run, Answered, Fulfill, FrontIs;
      ghost var was := q;
      MarkFlushed();
      FulfillOutstanding();
      BufferLaws.FlushedServes(was.(synced := |was.unread|));
      NothingLeft();
      Took(SyncAll, was);
    }

    method MarkFlushed()
      requires InSection()
      modifies `synced, `q
      ensures InSection() && q == old(q).(synced := |old(q).unread|)
    {
      hide Join, Parts, Outcomes, Delivered;
      synced := InAvail();
      q := q.(synced := |q.unread|);
    }

    lemma NothingLeft()
      requires InSection() && (q.pending == [] || q.unread == [])
      ensures requests == [] || total == 0
    {
    }

    // Closing the write head: first the flag, outside the lock, then the locked flush.
    method CloseWriteFlag()
      requires Valid()
      modifies `canWrite, `q, `ops
      ensures Valid() && q == Step(old(q), Op.CloseWriteFlag) && ops == old(ops) + [Op.CloseWriteFlag]
      ensures !canWrite
    {
      hide Join, Parts, Outcomes, Delivered, Fulfill, Run;
      ghost var was := q;
      canWrite := false;
      q := q.(canWrite := false, closing := true);
      Took(Op.CloseWriteFlag, was);
    }

    method CloseWriteFlush()
      requires Valid() && !canWrite
      modifies `total, `totalRead, `synced, `blocks, `chunks, `outcomes, `q, `ops, `requests, Nodes, Dests(requests)
      ensures Valid() && q == Step(old(q), Op.CloseWriteFlush) && requests == []
      ensures ops == old(ops) + [Op.CloseWriteFlush]
      ensures Answered(old(requests), old(|q.log|))
    {
      hide Join, Parts, Outcomes, Delivered, Fulfill, Run, Filled;
      ghost var was := q;
      ClosedFulfill(q);
      FulfillOutstanding();
      q := q.(closing := false);
      Took(Op.CloseWriteFlush, was);
    }

    method CloseRead()
      requires Valid()
      modifies `canRead, `q, `ops
      ensures Valid() && q == Step(old(q), CloseReadFlag) && ops == old(ops) + [CloseReadFlag]
      ensures !canRead
    {
      hide Join, Parts, Outcomes, Delivered, Run;
      ghost var was := q;
      canRead := false;
      q := q.(canRead := false);
      Took(CloseReadFlag, was);
    }

    // Writes `count` characters of src: 0 when closed for writing; pretended, when nobody can
    // read them any more.
    method Write(src: array<Byte>, count: nat) returns (n: nat)
      requires Valid() && count <= src.Length
      modifies this, Nodes, Memory, Dests(requests)
      ensures Valid() && fresh(Nodes - old(Nodes)) && fresh(Memory - old(Memory))
      ensures allocBlock == old(allocBlock) && canRead == old(canRead) && canWrite == old(canWrite)
      ensures n == if canWrite then count else 0
      ensures q == if n == 0 || !canRead then old(q) else Accept(old(q), old(src[..count]))
      ensures ops == old(ops) + if n == 0 || !canRead then [] else [Op.Write(old(src[..count]))]
      ensures q.accepted == old(q.accepted) + if n == 0 || !canRead then [] else old(src[..count])
      ensures Answered(old(requests), old(|q.log|))
      ensures |requests| == old(|requests|) && old(blocks != [] && chunks != []) ==>
                FrontIs(old(blocks[0]), old(blocks[0].read), old(chunks[0]))
    {
      hide InSection, Run, Filled, Fulfill, FrontIs;
      NoneAnswered();
      FrontNow();
      FlagsAgree();
      ghost var was, data := q, src[..count];
      if !canWrite || count == 0 {
        return 0;
      }
      if !canRead {
        return count;
      }
      n := WriteLocked(src, count);
      BufferLaws.StepAccepts(was, Op.Write(data));
      Took(Op.Write(data), was);
    }

    // The locked section of a write.
    method WriteLocked(src: array<Byte>, count: nat) returns (n: nat)
      requires InSection() && 0 < count <= src.Length
      modifies this, Nodes, Memory, Dests(requests)
      ensures InSection() && ops == old(ops) && fresh(Nodes - old(Nodes)) && fresh(Memory - old(Memory))
      ensures allocBlock == old(allocBlock) && canRead == old(canRead) && canWrite == old(canWrite)
      ensures n == count && q == Accept(old(q), old(src[..count]))
      ensures Answered(old(requests), old(|q.log|))
      ensures |requests| == old(|requests|) && old(blocks != [] && chunks != []) ==>
                FrontIs(old(blocks[0]), old(blocks[0].read), old(chunks[0]))
    {
      hide Join, Parts, Outcomes, Delivered, Fulfill, Run, Filled, FrontIs;
      ghost var data := src[..count];
      n := WriteChars(src, count);
      ghost var now := if chunks == [] then [] else chunks[0];
      if old(blocks != [] && chunks != []) {
        FrontFacts(old(blocks[0]), old(blocks[0].read), old(chunks[0]));
      }
      UpdateWriteHead(count, data);
      if |requests| == old(|requests|) && old(blocks != [] && chunks != []) {
        FrontBegins(old(blocks[0]), old(blocks[0].read), old(chunks[0]), now);
      }
    }

    // Copies the characters to the last block, after making room in it.
    method WriteChars(src: array<Byte>, count: nat) returns (n: nat)
      requires Parts() && count <= src.Length
      modifies `blocks, `chunks, `Nodes, `Memory, Nodes`pos, Memory
      ensures Parts() && n == count && fresh(Nodes - old(Nodes)) && fresh(Memory - old(Memory))
      ensures Join(chunks) == old(Join(chunks)) + old(src[..count])
      ensures old(blocks != [] && chunks != []) ==> FrontIs(old(blocks[0]), old(blocks[0].read), old(chunks[0]))
    {
      hide Join, Parts, FrontIs;
      MakeRoom(count);
      ghost var now := if chunks == [] then [] else chunks[0];
      if old(blocks != [] && chunks != []) {
        FrontFacts(old(blocks[0]), old(blocks[0].read), old(chunks[0]));
      }
      n := WriteLast(src, count);
      if old(blocks != [] && chunks != []) {
        FrontBegins(old(blocks[0]), old(blocks[0].read), old(chunks[0]), now);
      }
    }

    // Allocates a new block if the last one has no room for `count` characters.
    method MakeRoom(count: nat)
      requires Parts()
      modifies `blocks, `chunks, `Nodes, `Memory
      ensures Parts() && Join(chunks) == old(Join(chunks))
      ensures old(blocks != [] && chunks != []) ==> FrontIs(old(blocks[0]), old(blocks[0].read), old(chunks[0]))
      ensures blocks != [] && blocks[|blocks| - 1].Valid() && count <= blocks[|blocks| - 1].WrCharsLeft()
      ensures fresh(Nodes - old(Nodes)) && fresh(Memory - old(Memory))
    {
      hide Join, BlocksOk, AllocOk, RequestsOk, FrontIs;
      FrontNow();
      if blocks != [] {
        LastValid();
      }
      if blocks == [] || blocks[|blocks| - 1].WrCharsLeft() < count {
        AddBlock(Max(allocSize, count));
      }
    }

    lemma LastValid()
      requires BlocksOk() && blocks != []
      ensures blocks[|blocks| - 1].Valid()
    {
    }

    method AddBlock(size: nat)
      requires Parts()
      modifies `blocks, `chunks, `Nodes, `Memory
      ensures Parts() && Join(chunks) == old(Join(chunks))
      ensures blocks != [] && blocks[|blocks| - 1].Valid() && size == blocks[|blocks| - 1].WrCharsLeft()
      ensures fresh(Nodes - old(Nodes)) && fresh(Memory - old(Memory))
      ensures old(blocks != [] && chunks != []) ==> FrontIs(old(blocks[0]), old(blocks[0].read), old(chunks[0]))
    {
      hide Join, HoldAll, Apart, InNodes, FrontIs;
      var b := new Block(size);
      PushBlock(b, []);
    }

    // Appends a block holding the characters s.
    method PushBlock(b: Block, ghost s: seq<Byte>)
      requires BlocksOk() && Holds(b, s) && b !in Nodes && b.data !in Memory
      modifies `blocks, `chunks, `Nodes, `Memory
      ensures BlocksOk()
      ensures blocks == old(blocks) + [b] && chunks == old(chunks) + [s] && Join(chunks) == old(Join(chunks)) + s
      ensures Nodes == old(Nodes) + {b} && Memory == old(Memory) + {b.data}
      ensures old(blocks != [] && chunks != []) ==> FrontIs(old(blocks[0]), old(blocks[0].read), old(chunks[0]))
    {
      JoinSnoc(chunks, s);
      blocks, chunks := blocks + [b], chunks + [s];
      Nodes, Memory := Nodes + {b}, Memory + {b.data};
    }

    // The block at the back is the write head.
    method WriteLast(src: array<Byte>, count: nat) returns (n: nat)
      requires Parts() && blocks != [] && count <= src.Length
      requires blocks[|blocks| - 1].Valid() && count <= blocks[|blocks| - 1].WrCharsLeft()
      modifies `chunks, Nodes`pos, Memory
      ensures Parts() && n == count
      ensures chunks != [] && FrontIs(old(blocks[0]), old(blocks[0].read), old(chunks[0]))
      ensures Join(chunks) == old(Join(chunks)) + old(src[..count])
    {
      hide Join, RequestsOk, HoldAll, Apart, InNodes;
      JoinLast(chunks, src[..count]);
      BlockInNodes(|blocks| - 1);
      n, chunks := WriteBlock(blocks[|blocks| - 1], |blocks| - 1, src, count);
    }

    method WriteBlock(b: Block, ghost i: nat, src: array<Byte>, count: nat)
      returns (n: nat, ghost left: seq<seq<Byte>>)
      requires BlocksOk() && i < |blocks| && b == blocks[i] && count <= src.Length
      requires b.Valid() && count <= b.WrCharsLeft()
      modifies b`pos, b.data
      ensures left == chunks[i := chunks[i] + old(src[..count])] && HoldAll(blocks, left) && n == count
    {
      left := chunks[i := chunks[i] + src[..count]];
      n := b.Write(src, count);
    }

    // Moves the write head over `data`, which is already in the blocks, and serves requests.
    method UpdateWriteHead(count: nat, ghost data: seq<Byte>)
      requires Parts() && Agrees() && total == |q.unread|
      requires Join(chunks) == q.unread + data && count == |data|
      modifies `total, `totalRead, `totalWritten, `synced, `blocks, `chunks, `outcomes, `q, `requests,
               Nodes, Dests(requests)
      ensures InSection() && q == Accept(old(q), data)
      ensures Answered(old(requests), old(|q.log|))
      ensures |requests| == old(|requests|) && old(blocks != [] && chunks != []) ==>
                FrontIs(old(blocks[0]), old(blocks[0].read), old(chunks[0]))
    {
      hide Join, Parts, Agrees, InSection, Fulfill, Filled, FrontIs;
      CountIn(count, data);
      FulfillOutstanding();
    }

    method CountIn(count: nat, ghost data: seq<Byte>)
      requires Parts() && Agrees() && total == |q.unread|
      requires Join(chunks) == q.unread + data && count == |data|
      modifies `total, `totalWritten, `q
      ensures InSection()
      ensures q == old(q).(unread := old(q).unread + data, accepted := old(q).accepted + data)
    {
      hide Join, Parts, Outcomes, Delivered;
      total := total + count;
      totalWritten := totalWritten + count;
      q := q.(unread := q.unread + data, accepted := q.accepted + data);
    }

    // Memory for the writer to fill: a logic error if some is already handed out.
    method Alloc(count: nat) returns (r: Allocation)
      requires Valid()
      modifies `allocBlock, `alloced
      ensures Valid()
      ensures r == if old(alloced) then Refused else if !canWrite then NoMemory
                   else if allocBlock == null then NoMemory else Granted(allocBlock.data)
      ensures r.Granted? ==> alloced && fresh(r.at) && r.at.Length == count
      ensures !old(alloced) && canWrite ==> r.Granted?
      ensures !r.Granted? ==> alloced == old(alloced) && allocBlock == old(allocBlock)
    {
      hide Join, BlocksOk, Outcomes, Delivered, Run;
      if alloced {
        r := Refused;
      } else if !canWrite {
        r := NoMemory;
      } else {
        allocBlock := new Block(count);
        alloced := true;
        r := Granted(allocBlock.data);
      }
    }

    // Hands the first `count` characters of the allocated memory over to the readers; a logic
    // error (false) if no memory is handed out.
    method Commit(count: nat) returns (ok: bool)
      requires Valid() && (allocBlock != null ==> count <= allocBlock.data.Length)
      modifies this, Nodes, allocBlock, Dests(requests)
      ensures Valid() && ok == old(alloced)
      ensures !ok ==> q == old(q) && requests == old(requests) && ops == old(ops)
      ensures ok ==> !alloced && q == Accept(old(q), old(allocBlock.data[..count]))
      ensures ok ==> ops == old(ops) + [Op.Commit(old(allocBlock.data[..count]))]
      ensures ok ==> q.accepted == old(q.accepted) + old(allocBlock.data[..count])
      ensures Answered(old(requests), old(|q.log|))
      ensures |requests| == old(|requests|) && old(blocks != [] && chunks != []) ==>
                FrontIs(old(blocks[0]), old(blocks[0].read), old(chunks[0]))
      ensures fresh(Nodes - old(Nodes) - {old(allocBlock)})
      ensures ok ==> Memory == old(Memory) + {old(allocBlock).data}
    {
      hide Shape, Fulfill, Run, Filled, Outcomes, Delivered, FrontIs;
      NoneAnswered();
      FrontNow();
      ok := alloced;
      if ok {
        ghost var was, data := q, allocBlock.data[..count];
        CommitLocked(count);
        BufferLaws.StepAccepts(was, Op.Commit(data));
        Took(Op.Commit(data), was);
      }
    }

    // The locked section of a commit.
    method CommitLocked(count: nat)
      requires InSection() && allocBlock != null && count <= allocBlock.data.Length
      modifies `total, `totalRead, `totalWritten, `synced, `blocks, `chunks, `outcomes, `q, `requests, `allocBlock,
               `alloced, `Nodes, `Memory, Nodes, allocBlock, Dests(requests)
      ensures InSection() && !alloced
      ensures q == Accept(old(q), old(allocBlock.data[..count]))
      ensures Answered(old(requests), old(|q.log|))
      ensures |requests| == old(|requests|) && old(blocks != [] && chunks != []) ==>
                FrontIs(old(blocks[0]), old(blocks[0].read), old(chunks[0]))
      ensures Nodes == old(Nodes) + {old(allocBlock)} && Memory == old(Memory) + {old(allocBlock).data}
    {
      hide Join, BlocksOk, Outcomes, Delivered, Fulfill, Filled;
      var b := allocBlock;
      b.UpdateWriteHead(count);
      allocBlock, alloced := null, false;
      PushBlock(b, b.data[..count]);
      UpdateWriteHead(count, b.data[..count]);
    }
  }

  // The characters s are at the start of dest.
  ghost predicate CopiedTo(s: seq<Byte>, dest: array<Byte>)
    reads dest
  {
    |s| <= dest.Length && forall k :: 0 <= k < |s| ==> dest[k] == s[k]
  }

  ghost function Dests(rs: seq<ReadRequest>): set<array<Byte>> {
    set r <- rs | r.dest != null :: r.dest
  }

  // None of the first n requests behind request i reads into the same memory.
  ghost predicate LastInto(rs: seq<ReadRequest>, n: nat, i: nat)
    requires i < n <= |rs|
  {
    forall j :: i < j < n ==> rs[j].dest != rs[i].dest
  }

  // The first n requests have been answered by the last n log entries, from `from` on: the
  // memory of each read holds what its entry says it was handed, unless a later read was
  // given the same memory.
  ghost predicate Filled(rs: seq<ReadRequest>, n: nat, log: seq<Entry>, from: nat)
    reads Dests(rs)
  {
    && n <= |rs| && |log| == from + n
    && (forall i :: 0 <= i < n ==> log[from + i].reader == Queued(rs[i].ticket))
    && (forall i :: 0 <= i < n && rs[i].dest != null && LastInto(rs, n, i) ==> CopiedTo(log[from + i].seen, rs[i].dest))
  }

  lemma NoneFilled(rs: seq<ReadRequest>, log: seq<Entry>)
    ensures Filled(rs, 0, log, |log|)
  {
  }

  lemma CompleteFrame(q: Q, reader: Reader, k: Kind)
    ensures var r := Complete(q, reader, k);
            var n := |TicketEntry(q, reader, k).taken|;
            && n <= |q.unread|
            && r == q.(unread := r.unread, synced := r.synced, log := r.log)
            && r.synced == if q.synced > n then q.synced - n else 0
  {
  }

  // Answering a request records what it was handed.
  lemma CompleteLog(q: Q, reader: Reader, k: Kind)
    ensures var e := TicketEntry(q, reader, k);
            Complete(q, reader, k).log == q.log + [e] && e.reader == reader && e.seen == Front(q, Size(k))
  {
  }

  lemma JoinLast(us: seq<seq<Byte>>, s: seq<Byte>)
    requires us != []
    ensures Join(us[|us| - 1 := us[|us| - 1] + s]) == Join(us) + s
  {
    var n := |us| - 1;
    assert us == us[..n] + [us[n]] && us[n := us[n] + s] == us[..n] + [us[n] + s];
    JoinSnoc(us[..n], us[n]);
    JoinSnoc(us[..n], us[n] + s);
  }

  // What a read that is not a request does to the accounts.
  lemma ReadFacts(q: Q, reader: Reader, count: nat, advance: bool)
    requires !reader.Queued? && !reader.Prompt?
    ensures var n := Min(count, |q.unread|);
            var r := Record(q, ReadEntry(q, reader, count, advance));
            && r.unread == Rest(q.unread, n, advance)
            && |Delivered(r.log)| == |Delivered(q.log)| + (if advance then n else 0)
            && Outcomes(r.log) == Outcomes(q.log)
  {
    LogSnoc(q.log, ReadEntry(q, reader, count, advance));
    OutcomesSnoc(q.log, ReadEntry(q, reader, count, advance));
  }

  lemma ReleaseDelivers(q: Q, count: nat)
    requires count <= |q.unread|
    ensures Delivered(Release(q, count).log) == Delivered(q.log) + q.unread[..count]
  {
    LogSnoc(q.log, ReadEntry(q, Window, count, true));
  }

  lemma JoinFront(us: seq<seq<Byte>>, n: nat)
    requires us != [] && n <= |us[0]|
    ensures n <= |Join(us)| && Join(us[0 := us[0][n..]]) == Rest(Join(us), n, true)
  {
    assert us[0 := us[0][n..]][1..] == us[1..];
  }

  // What completing a request does to the accounts.
  lemma CompleteFacts(q: Q, reader: Reader, k: Kind)
    requires reader.Queued? || reader.Prompt?
    ensures var e := TicketEntry(q, reader, k);
            var n := Min(Size(k), |q.unread|);
            var r := Complete(q, reader, k);
            && |e.taken| == (if k.Getc? then 0 else n)
            && r.unread == Rest(q.unread, n, !k.Getc?)
            && |Delivered(r.log)| == |Delivered(q.log)| + |e.taken|
            && Outcomes(r.log) == Outcomes(q.log) + [Outcome(reader.ticket.id, e.result)]
  {
    LogSnoc(q.log, TicketEntry(q, reader, k));
    OutcomesSnoc(q.log, TicketEntry(q, reader, k));
  }

  // The unread characters of block b are s.
  ghost predicate Holds(b: Block, s: seq<Byte>)
    reads b, b.data
  {
    b.Valid() && b.Unread() == s
  }

  ghost predicate Apart(bs: seq<Block>) {
    forall i, j :: 0 <= i < j < |bs| ==> bs[i] != bs[j] && bs[i].data != bs[j].data
  }
}
