/** A stream buffer over a container, open for reading or for writing, with one position. */
module ContainerBuffer {
  import opened Bytes

  // ---------------------------------------------------------------- an output buffer's history

  // What happened to an output buffer: characters written at a position, or the write head
  // moved to one.
  datatype Change = Wrote(at: nat, chars: seq<Byte>) | Sought(to: nat)

  function End(c: Change): nat {
    match c
    case Wrote(at, chars) => at + |chars|
    case Sought(to) => to
  }

  // The largest of the initial size and every position written or sought to.
  function SizeAfter(size: nat, changes: seq<Change>): nat {
    if changes == [] then size
    else Max(SizeAfter(size, changes[..|changes| - 1]), End(changes[|changes| - 1]))
  }

  // The latest write that covers position i, else the initial character, else the default.
  function CharAt(initial: seq<Byte>, changes: seq<Change>, i: nat): Byte {
    if changes == [] then if i < |initial| then initial[i] else 0
    else
      var c := changes[|changes| - 1];
      if c.Wrote? && c.at <= i < c.at + |c.chars| then c.chars[i - c.at]
      else CharAt(initial, changes[..|changes| - 1], i)
  }

  // The container that a history leaves behind.
  function ContentsAfter(initial: seq<Byte>, changes: seq<Change>): (r: seq<Byte>)
    ensures |r| == SizeAfter(|initial|, changes)
    ensures forall i :: 0 <= i < |r| ==> r[i] == CharAt(initial, changes, i)
  {
    seq(SizeAfter(|initial|, changes), i requires 0 <= i => CharAt(initial, changes, i))
  }

  lemma {:induction false} SizeOnlyGrows(initial: seq<Byte>, changes: seq<Change>, i: nat)
    ensures SizeAfter(|initial|, changes) >= |initial|
    ensures i >= SizeAfter(|initial|, changes) ==> CharAt(initial, changes, i) == 0
  {
    if changes != [] {
      SizeOnlyGrows(initial, changes[..|changes| - 1], i);
    }
  }

  // The size is the initial size or the end of some change, and no smaller than any of them.
  lemma {:induction false} SizeIs(size: nat, changes: seq<Change>)
    ensures SizeAfter(size, changes) >= size
    ensures forall k :: 0 <= k < |changes| ==> SizeAfter(size, changes) >= End(changes[k])
    ensures || SizeAfter(size, changes) == size
            || exists k :: 0 <= k < |changes| && SizeAfter(size, changes) == End(changes[k])
  {
    if changes != [] {
      var n := |changes| - 1;
      SizeIs(size, changes[..n]);
      assert forall k :: 0 <= k < n ==> changes[..n][k] == changes[k];
      if SizeAfter(size, changes) != End(changes[n]) && SizeAfter(size, changes[..n]) != size {
        var k :| 0 <= k < n && SizeAfter(size, changes[..n]) == End(changes[..n][k]);
        assert SizeAfter(size, changes) == End(changes[k]);
      }
    }
  }

  predicate Covers(c: Change, i: nat) {
    c.Wrote? && c.at <= i < c.at + |c.chars|
  }

  // A position holds what the last write that covers it put there ...
  lemma {:induction false} CharIsLatest(initial: seq<Byte>, changes: seq<Change>, i: nat, k: nat)
    requires k < |changes| && Covers(changes[k], i)
    requires forall j :: k < j < |changes| ==> !Covers(changes[j], i)
    ensures CharAt(initial, changes, i) == changes[k].chars[i - changes[k].at]
  {
    if k < |changes| - 1 {
      CharIsLatest(initial, changes[..|changes| - 1], i, k);
    }
  }

  // ... and if there is none, the initial character, or 0 behind those.
  lemma {:induction false} CharIsInitial(initial: seq<Byte>, changes: seq<Change>, i: nat)
    requires forall k :: 0 <= k < |changes| ==> !Covers(changes[k], i)
    ensures CharAt(initial, changes, i) == if i < |initial| then initial[i] else 0
  {
    if changes != [] {
      CharIsInitial(initial, changes[..|changes| - 1], i);
    }
  }

  // The container resized for a position; new characters have the default value.
  function Resized(data: seq<Byte>, newSize: nat): (r: seq<Byte>)
    ensures |r| == Max(|data|, newSize)
    ensures forall i :: 0 <= i < |r| ==> r[i] == if i < |data| then data[i] else 0
  {
    if newSize > |data| then data + seq(newSize - |data|, _ => 0) else data
  }

  lemma ResizeIs(initial: seq<Byte>, changes: seq<Change>, to: nat)
    ensures ContentsAfter(initial, changes + [Sought(to)]) == Resized(ContentsAfter(initial, changes), to)
  {
    var more := changes + [Sought(to)];
    assert more[..|more| - 1] == changes;
    forall i: nat | i < SizeAfter(|initial|, more)
      ensures ContentsAfter(initial, more)[i] == Resized(ContentsAfter(initial, changes), to)[i]
    {
      SizeOnlyGrows(initial, changes, i);
    }
  }

  // The container with characters copied over it.
  function Overwritten(data: seq<Byte>, at: nat, chars: seq<Byte>): (r: seq<Byte>)
    requires at + |chars| <= |data|
    ensures |r| == |data|
    ensures forall i :: 0 <= i < |r| ==> r[i] == if at <= i < at + |chars| then chars[i - at] else data[i]
  {
    data[..at] + chars + data[at + |chars|..]
  }

  lemma WriteIs(initial: seq<Byte>, changes: seq<Change>, at: nat, chars: seq<Byte>)
    requires at <= SizeAfter(|initial|, changes)
    ensures ContentsAfter(initial, changes + [Wrote(at, chars)]) ==
            Overwritten(Resized(ContentsAfter(initial, changes), at + |chars|), at, chars)
  {
    hide CharAt, ContentsAfter, Resized, Overwritten;
    var more := changes + [Wrote(at, chars)];
    assert more[..|more| - 1] == changes;
    var end := Overwritten(Resized(ContentsAfter(initial, changes), at + |chars|), at, chars);
    forall i: nat | i < SizeAfter(|initial|, more)
      ensures ContentsAfter(initial, more)[i] == end[i]
    {
      LatestWrite(initial, changes, at, chars, i);
      SizeOnlyGrows(initial, changes, i);
    }
  }

  // A write is visible, and disturbs nothing else.
  lemma LatestWrite(initial: seq<Byte>, changes: seq<Change>, at: nat, chars: seq<Byte>, i: nat)
    ensures CharAt(initial, changes + [Wrote(at, chars)], i) ==
            if at <= i < at + |chars| then chars[i - at] else CharAt(initial, changes, i)
  {
    assert (changes + [Wrote(at, chars)])[..|changes + [Wrote(at, chars)]| - 1] == changes;
  }

  // ---------------------------------------------------------------- the class

  datatype Way = Begin | Current | AtEnd

  // Where a relative seek starts from.
  function Origin(way: Way, pos: nat, size: nat): nat {
    match way
    case Begin => 0
    case Current => pos
    case AtEnd => size
  }

  class Buffer {
    var data: seq<Byte>
    var pos: nat
    var canRead: bool
    var canWrite: bool

    ghost const initial: seq<Byte>
    ghost var changes: seq<Change>

    // Open for reading or for writing, not both; the position never passes the end; and the
    // container is what the history says.
    ghost predicate Valid()
      reads this
    {
      !(canRead && canWrite) && pos <= |data| && data == ContentsAfter(initial, changes)
    }

    constructor (data: seq<Byte>, forReading: bool)
      ensures Valid() && this.data == data == initial && changes == []
      ensures canRead == forReading && canWrite == !forReading
      ensures pos == if forReading then 0 else |data|
    {
      this.data, initial, changes := data, data, [];
      canRead, canWrite := forReading, !forReading;
      pos := if forReading then 0 else |data|;
      new;
      assert ContentsAfter(data, []) == data;
    }

    function InAvail(): nat
      requires Valid()
      reads this
    {
      |data| - pos
    }

    method Close()
      requires Valid()
      modifies `canRead, `canWrite
      ensures Valid() && !canRead && !canWrite
    {
      canRead, canWrite := false, false;
    }

    // Writes all of the characters, or nothing when closed.
    method Write(chars: seq<Byte>) returns (count: nat)
      requires Valid()
      modifies `data, `pos, `changes
      ensures Valid() && count == if canWrite then |chars| else 0
      ensures count > 0 ==> changes == old(changes) + [Wrote(old(pos), chars)] && pos == old(pos) + |chars|
      ensures count == 0 ==> data == old(data) && pos == old(pos) && changes == old(changes)
    {
      if !canWrite || chars == [] {
        return 0;
      }
      var newSize := pos + |chars|;
      WriteIs(initial, changes, pos, chars);
      changes := changes + [Wrote(pos, chars)];
      data := Resized(data, newSize);
      data := Overwritten(data, pos, chars);
      pos := newSize;
      count := |chars|;
    }

    method Putc(ch: Byte) returns (r: int)
      requires Valid()
      modifies `data, `pos, `changes
      ensures Valid() && r == if canWrite then ch else EOF
      ensures canWrite ==> changes == old(changes) + [Wrote(old(pos), [ch])] && pos == old(pos) + 1
      ensures !canWrite ==> data == old(data) && pos == old(pos) && changes == old(changes)
    {
      var n := Write([ch]);
      r := if n == 1 then ch else EOF;
    }

    // Moves the position: for reading up to the end, for writing anywhere.
    method SeekPos(position: int, forIn: bool, forOut: bool) returns (r: int)
      requires Valid()
      modifies `data, `pos, `changes
      ensures Valid()
      ensures r != EOF <==>
              position >= 0 && ((forIn && canRead && position <= |old(data)|) || (forOut && canWrite))
      ensures r != EOF ==> r == pos == position
      ensures r == EOF ==> data == old(data) && pos == old(pos) && changes == old(changes)
      ensures canRead ==> data == old(data) && changes == old(changes)
      ensures r != EOF && canWrite ==> changes == old(changes) + [Sought(position)]
    {
      if position >= 0 {
        if forIn && canRead && position <= |data| {
          pos := position;
          return pos;
        }
        if forOut && canWrite {
          ResizeIs(initial, changes, position);
          changes := changes + [Sought(position)];
          data := Resized(data, position);
          pos := position;
          return pos;
        }
      }
      r := EOF;
    }

    method SeekOff(offset: int, way: Way, forIn: bool, forOut: bool) returns (r: int)
      requires Valid()
      modifies `data, `pos, `changes
      ensures Valid()
      ensures var target := offset + if way.Begin? then 0 else if way.Current? then old(pos) else |old(data)|;
              && (r != EOF ==> r == pos == target && target >= 0)
              && (r != EOF && canWrite ==> changes == old(changes) + [Sought(target)])
              && (r != EOF <==> target >= 0 && ((forIn && canRead && target <= |old(data)|) || (forOut && canWrite)))
      ensures r == EOF ==> data == old(data) && pos == old(pos) && changes == old(changes)
    {
      match way
      case Begin => r := SeekPos(offset, forIn, forOut);
      case Current => r := SeekPos(pos + offset, forIn, forOut);
      case AtEnd => r := SeekPos(|data| + offset, forIn, forOut);
    }

    // Reads up to `count` characters.
    method Read(count: nat, advance: bool) returns (chars: seq<Byte>)
      requires Valid()
      modifies `pos
      ensures Valid() && |chars| == Min(count, |data| - old(pos)) && chars == data[old(pos)..old(pos) + |chars|]
      ensures pos == old(pos) + if advance then |chars| else 0
    {
      if InAvail() == 0 {
        return [];
      }
      var newPos := pos + Min(count, InAvail());
      chars := data[pos..newPos];
      if advance {
        pos := newPos;
      }
    }
  }

  // ---------------------------------------------------------------- runs of an output buffer

  datatype Op = Put(chars: seq<Byte>) | Seek(position: int) | SeekBy(way: Way, offset: int)

  // The history of a run that starts at position p of a container with `size` characters.
  function History(p: nat, size: nat, ops: seq<Op>): seq<Change>
    decreases |ops|
  {
    if ops == [] then []
    else
      match ops[0]
      case Put(chars) =>
        var end := p + |chars|;
        if chars == [] then History(p, size, ops[1..]) else [Wrote(p, chars)] + History(end, Max(size, end), ops[1..])
      case Seek(n) => if n < 0 then History(p, size, ops[1..]) else [Sought(n)] + History(n, Max(size, n), ops[1..])
      case SeekBy(way, offset) =>
        var n := Origin(way, p, size) + offset;
        if n < 0 then History(p, size, ops[1..]) else [Sought(n)] + History(n, Max(size, n), ops[1..])
  }

  // A relative seek goes to the offset itself, behind the position or behind the end.
  lemma SeekByIs(p: nat, size: nat, way: Way, offset: int, ops: seq<Op>)
    ensures var n := if way == Begin then offset else if way == Current then p + offset else size + offset;
            History(p, size, [SeekBy(way, offset)] + ops) == History(p, size, [Seek(n)] + ops)
  {
    assert ([SeekBy(way, offset)] + ops)[1..] == ops;
    assert forall n :: ([Seek(n)] + ops)[1..] == ops;
  }

  lemma SizeSnoc(size: nat, changes: seq<Change>, c: Change)
    ensures SizeAfter(size, changes + [c]) == Max(SizeAfter(size, changes), End(c))
  {
    assert (changes + [c])[..|changes + [c]| - 1] == changes;
  }

  // Runs the operations on a buffer that is open for writing: afterwards its size and every
  // character in it are what the history says.
  method Replay(b: Buffer, ops: seq<Op>)
    requires b.Valid() && b.canWrite
    modifies b
    ensures b.Valid() && b.changes == old(b.changes) + History(old(b.pos), |old(b.data)|, ops)
    ensures |b.data| == SizeAfter(|b.initial|, b.changes)
    ensures forall i :: 0 <= i < |b.data| ==> b.data[i] == CharAt(b.initial, b.changes, i)
  {
    hide SizeAfter, CharAt;
    for k := 0 to |ops|
      invariant b.Valid() && b.canWrite
      invariant b.changes + History(b.pos, |b.data|, ops[k..]) ==
                old(b.changes) + History(old(b.pos), |old(b.data)|, ops)
    {
      assert ops[k..][1..] == ops[k + 1..];
      ghost var was, size := b.changes, |b.data|;
      match ops[k] {
        case Put(chars) => var n := b.Write(chars);
        case Seek(n) => var r := b.SeekPos(n, false, true);
        case SeekBy(way, offset) => var r := b.SeekOff(offset, way, false, true);
      }
      if |b.changes| > |was| {
        SizeSnoc(|b.initial|, was, b.changes[|was|]);
      }
    }
  }
}
