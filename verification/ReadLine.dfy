/** basic_istream::read_line: characters up to a line end, through a chunk buffer, whatever the
    pattern in which they become available. */
module ReadLine {
  import opened Bytes
  import opened StreamSource

  const LF: Byte := 10
  const CR: Byte := 13
  const BUF_SIZE: nat := 16 * 1024

  // ---------------------------------------------------------------- lines

  function LineLength(s: seq<Byte>): (n: nat)
    ensures n <= |s|
  {
    if s == [] || s[0] == LF || s[0] == CR then 0 else 1 + LineLength(s[1..])
  }

  // LF, CR and CR LF each end a line.
  function TerminatorLength(s: seq<Byte>): (n: nat)
    ensures LineLength(s) + n <= |s|
  {
    var t := s[LineLength(s)..];
    if t == [] then 0 else if t[0] == CR && |t| > 1 && t[1] == LF then 2 else 1
  }

  function FirstLine(s: seq<Byte>): seq<Byte> {
    s[..LineLength(s)]
  }

  function AfterLine(s: seq<Byte>): seq<Byte> {
    s[LineLength(s) + TerminatorLength(s)..]
  }

  lemma {:induction false} LineLengthIs(s: seq<Byte>, k: nat)
    requires k <= |s| && forall i :: 0 <= i < k ==> s[i] != LF && s[i] != CR
    requires k < |s| ==> s[k] == LF || s[k] == CR
    ensures LineLength(s) == k
  {
    if k > 0 {
      LineLengthIs(s[1..], k - 1);
    }
  }

  // ---------------------------------------------------------------- the target

  // A stream buffer for writing; it may be closed by somebody else at any time, and then
  // accepts nothing any more.
  class Target {
    var contents: seq<Byte>
    var open: bool

    constructor ()
      ensures contents == [] && open
    {
      contents, open := [], true;
    }

    // Writes all characters, or none.
    method Putn(buf: array<Byte>, count: nat) returns (wrote: nat)
      requires count <= buf.Length
      modifies this
      ensures open ==> old(open) && contents == old(contents) + buf[..count]
      ensures old(contents) <= contents && wrote == |contents| - |old(contents)|
    {
      if * {
        open := false;
      }
      if open {
        contents := contents + buf[..count];
        wrote := count;
      } else {
        wrote := 0;
      }
    }
  }

  // ---------------------------------------------------------------- the helper

  class ReadHelper {
    const outbuf: array<Byte>
    const target: Target
    var total: nat
    var writePos: nat
    var sawCR: bool

    ghost const initial: seq<Byte>   // what the target held at first
    ghost var line: seq<Byte>        // what has been read of the line

    ghost predicate Valid()
      reads this, outbuf, target
    {
      && outbuf.Length == BUF_SIZE && writePos < BUF_SIZE && writePos <= |line|
      && (forall i :: 0 <= i < writePos ==> outbuf[i] == line[|line| - writePos + i])
      && initial <= target.contents && total == |target.contents| - |initial|
      && (target.open ==> target.contents == initial + line[..|line| - writePos])
    }

    constructor (target: Target)
      ensures Valid() && line == [] && !sawCR && fresh(outbuf)
      ensures this.target == target && initial == target.contents
    {
      outbuf := new Byte[BUF_SIZE];
      this.target := target;
      total, writePos, sawCR := 0, 0, false;
      initial, line := target.contents, [];
    }

    method Flush()
      requires outbuf.Length == BUF_SIZE && writePos <= BUF_SIZE && writePos <= |line|
      requires forall i :: 0 <= i < writePos ==> outbuf[i] == line[|line| - writePos + i]
      requires initial <= target.contents && total == |target.contents| - |initial|
      requires target.open ==> target.contents == initial + line[..|line| - writePos]
      modifies `total, `writePos, target
      ensures Valid() && writePos == 0
    {
      var wrote := target.Putn(outbuf, writePos);
      assert target.open ==> line == line[..|line| - writePos] + outbuf[..writePos];
      total := total + wrote;
      writePos := 0;
    }

    // Takes one character into the buffer, and empties the buffer when it is full.
    method Push(ch: Byte)
      requires Valid()
      modifies this, outbuf, target
      ensures Valid() && line == old(line) + [ch] && sawCR == old(sawCR)
    {
      outbuf[writePos] := ch;
      writePos := writePos + 1;
      line := line + [ch];
      if writePos == BUF_SIZE {
        Flush();
      }
    }

    // The reader has read k characters of s: a prefix of the line, or all of it and a CR.
    ghost predicate Reading(s: seq<Byte>, k: nat)
      reads this
    {
      k <= |s| &&
      if sawCR then k == |line| + 1 && line == FirstLine(s) && s[k - 1] == CR
      else line == s[..k] && forall i :: 0 <= i < k ==> s[i] != LF && s[i] != CR
    }

    ghost predicate Finished(s: seq<Byte>, k: nat)
      reads this
    {
      line == FirstLine(s) && k == LineLength(s) + TerminatorLength(s)
    }

    // Handles one character of the line, or its end; tells whether to go on.
    method Update(ch: int, ghost s: seq<Byte>, ghost k: nat) returns (more: bool)
      requires Valid() && !sawCR && Reading(s, k)
      requires ch == if k < |s| then s[k] else EOF
      modifies this, outbuf, target
      ensures Valid()
      ensures if more then k < |s| && Reading(s, k + 1) else Finished(s, if k < |s| then k + 1 else k)
    {
      if ch == EOF {
        LineLengthIs(s, k);
        return false;
      }
      if ch == LF {
        LineLengthIs(s, k);
        return false;
      }
      if ch == CR {
        LineLengthIs(s, k);
        sawCR := true;
        return true;
      }
      Push(ch);
      more := true;
    }
  }

  // ---------------------------------------------------------------- read_line

  // The characters available now; tells whether the line has ended.
  method TakeAvailable(h: ReadHelper, buffer: Source, ghost start: nat) returns (ended: bool)
    requires buffer.Valid() && h.Valid() && start <= buffer.pos
    requires h.Reading(buffer.data[start..], buffer.pos - start)
    modifies h, h.outbuf, h.target, buffer
    ensures buffer.Valid() && h.Valid() && old(buffer.pos) <= buffer.pos
    ensures if ended then h.Finished(buffer.data[start..], buffer.pos - start)
            else h.Reading(buffer.data[start..], buffer.pos - start)
    ensures !ended ==> buffer.pos == buffer.arrived
  {
    hide LineLength, TerminatorLength;
    ghost var s := buffer.data[start..];
    while true
      invariant buffer.Valid() && h.Valid() && start <= old(buffer.pos) <= buffer.pos
      invariant h.Reading(s, buffer.pos - start)
      decreases |buffer.data| - buffer.pos
    {
      var avail := buffer.InAvail();
      if avail == 0 {
        return false;
      }
      if h.sawCR {
        EndAfterCR(s, buffer.pos - start);
        var ch := buffer.Sgetc();
        if ch == LF {
          ch := buffer.Sbumpc();
        }
        return true;
      }
      var ch := buffer.Sbumpc();
      if ch == REQUIRES_ASYNC {
        return false;
      }
      var more := h.Update(ch, s, buffer.pos - 1 - start);
      if !more {
        return true;
      }
    }
  }

  // Behind a CR, a LF belongs to the line end.
  lemma EndAfterCR(s: seq<Byte>, k: nat)
    requires 0 < k <= |s| && s[k - 1] == CR && LineLength(s) == k - 1
    ensures LineLength(s) + TerminatorLength(s) == if k < |s| && s[k] == LF then k + 1 else k
  {
  }

  // One round of the asynchronous loop: what is available now, then one waiting read.
  method Round(h: ReadHelper, buffer: Source, ghost start: nat) returns (more: bool)
    requires buffer.Valid() && h.Valid() && start <= buffer.pos
    requires h.Reading(buffer.data[start..], buffer.pos - start)
    modifies h, h.outbuf, h.target, buffer
    ensures buffer.Valid() && h.Valid() && old(buffer.pos) <= buffer.pos
    ensures if more then buffer.pos > old(buffer.pos) && h.Reading(buffer.data[start..], buffer.pos - start)
            else h.Finished(buffer.data[start..], buffer.pos - start)
  {
    hide LineLength, TerminatorLength;
    var ended := TakeAvailable(h, buffer, start);
    if ended {
      return false;
    }
    ghost var s, k := buffer.data[start..], buffer.pos - start;
    if h.sawCR {
      EndAfterCR(s, k);
      var ch := buffer.Getc();
      if ch == LF {
        ch := buffer.Bumpc();
      }
      more := false;
    } else {
      var ch := buffer.Bumpc();
      more := h.Update(ch, s, k);
    }
  }

  // Reads one line into the target; the result is the number of characters put there.
  method ReadLine(buffer: Source, target: Target) returns (total: nat)
    requires buffer.Valid()
    modifies buffer, target
    ensures buffer.Valid() && buffer.Rest() == AfterLine(old(buffer.Rest()))
    ensures old(target.contents) <= target.contents && total == |target.contents| - |old(target.contents)|
    ensures target.open ==> target.contents == old(target.contents) + FirstLine(old(buffer.Rest()))
  {
    ghost var start := buffer.pos;
    var h := new ReadHelper(target);
    var more := true;
    while more
      invariant buffer.Valid() && h.Valid() && start <= buffer.pos
      invariant h.target == target && h.initial == old(target.contents) && fresh(h) && fresh(h.outbuf)
      invariant if more then h.Reading(buffer.data[start..], buffer.pos - start)
                else h.Finished(buffer.data[start..], buffer.pos - start)
      decreases more, |buffer.data| - buffer.pos
    {
      more := Round(h, buffer, start);
    }
    h.Flush();
    total := h.total;
  }

  // ---------------------------------------------------------------- reading all lines

  // What read_line yields when it is called until the source is exhausted.
  function Lines(s: seq<Byte>): seq<seq<Byte>>
    decreases |s|
  {
    if s == [] then [] else
      assert |AfterLine(s)| < |s|;
      [FirstLine(s)] + Lines(AfterLine(s))
  }

  // The text with every line end written as LF.
  function Normalize(s: seq<Byte>): seq<Byte>
    decreases |s|
  {
    if s == [] then []
    else if s[0] == CR then [LF] + Normalize(if |s| > 1 && s[1] == LF then s[2..] else s[1..])
    else [s[0]] + Normalize(s[1..])
  }

  function UpToLF(s: seq<Byte>): (n: nat)
    ensures n <= |s|
  {
    if s == [] || s[0] == LF then 0 else 1 + UpToLF(s[1..])
  }

  // A text whose lines end in LF.
  function SplitLF(s: seq<Byte>): seq<seq<Byte>>
    decreases |s|
  {
    if s == [] then []
    else
      var n := UpToLF(s);
      [s[..n]] + if n == |s| then [] else SplitLF(s[n + 1..])
  }

  // Normalizing goes line by line.
  lemma {:induction false} NormalizeLine(s: seq<Byte>)
    requires s != []
    ensures Normalize(s) == FirstLine(s) + if TerminatorLength(s) == 0 then [] else [LF] + Normalize(AfterLine(s))
    ensures TerminatorLength(s) == 0 ==> AfterLine(s) == []
  {
    hide LineLength, TerminatorLength, FirstLine, AfterLine;
    if s[0] == LF || s[0] == CR {
      EmptyLine(s);
    } else {
      OneMore(s);
      if s[1..] == [] {
        NoLine();
      } else {
        NormalizeLine(s[1..]);
      }
    }
  }

  lemma NoLine()
    ensures FirstLine([]) == [] && TerminatorLength([]) == 0 && AfterLine([]) == []
  {
  }

  lemma EmptyLine(s: seq<Byte>)
    requires s != [] && (s[0] == LF || s[0] == CR)
    ensures FirstLine(s) == [] && TerminatorLength(s) > 0
    ensures AfterLine(s) == if s[0] == CR && |s| > 1 && s[1] == LF then s[2..] else s[1..]
  {
  }

  lemma OneMore(s: seq<Byte>)
    requires s != [] && s[0] != LF && s[0] != CR
    ensures TerminatorLength(s) == TerminatorLength(s[1..]) && AfterLine(s) == AfterLine(s[1..])
    ensures FirstLine(s) == [s[0]] + FirstLine(s[1..])
  {
    assert s[LineLength(s)..] == s[1..][LineLength(s[1..])..];
  }

  lemma {:induction false} UpToLFIs(line: seq<Byte>, rest: seq<Byte>)
    requires LF !in line && (rest == [] || rest[0] == LF)
    ensures UpToLF(line + rest) == |line|
  {
    if line == [] {
      assert line + rest == rest;
    } else {
      assert (line + rest)[1..] == line[1..] + rest;
      UpToLFIs(line[1..], rest);
    }
  }

  lemma {:induction false} FirstLineHasNoLF(s: seq<Byte>)
    ensures LF !in FirstLine(s)
  {
    if s != [] && s[0] != LF && s[0] != CR {
      OneMore(s);
      FirstLineHasNoLF(s[1..]);
    }
  }

  // LF, CR and CR LF each end a line, and nothing else does.
  lemma {:induction false} LinesAreLines(s: seq<Byte>)
    ensures Lines(s) == SplitLF(Normalize(s))
    decreases |s|
  {
    if s != [] {
      hide LineLength, TerminatorLength, FirstLine, Normalize, UpToLF, AfterLine;
      var line := FirstLine(s);
      var rest := if TerminatorLength(s) == 0 then [] else [LF] + Normalize(AfterLine(s));
      NormalizeLine(s);
      FirstLineHasNoLF(s);
      UpToLFIs(line, rest);
      LinesAreLines(AfterLine(s));
      assert (line + rest)[..|line|] == line;
      assert rest != [] ==> (line + rest)[|line| + 1..] == Normalize(AfterLine(s));
    }
  }

  lemma LinesStep(s: seq<Byte>)
    requires s != []
    ensures Lines(s) == [FirstLine(s)] + Lines(AfterLine(s)) && |AfterLine(s)| < |s|
  {
  }

  // Calls read_line until the source is exhausted, each time with a target of its own. Unless
  // somebody closed a target, the targets hold the lines of the text; and there are as many.
  method ReadAllLines(buffer: Source) returns (lines: seq<seq<Byte>>, open: bool)
    requires buffer.Valid()
    modifies buffer
    ensures buffer.Valid() && buffer.Rest() == []
    ensures |lines| == |SplitLF(Normalize(old(buffer.Rest())))|
    ensures open ==> lines == SplitLF(Normalize(old(buffer.Rest())))
  {
    hide Lines, FirstLine, AfterLine, SplitLF, Normalize;
    ghost var done := [];
    LinesAreLines(buffer.Rest());
    lines, open := [], true;
    var ch := buffer.Getc();
    while ch != EOF
      invariant buffer.Valid() && ch == if buffer.pos < |buffer.data| then buffer.data[buffer.pos] else EOF
      invariant Lines(old(buffer.Rest())) == done + Lines(buffer.Rest())
      invariant |lines| == |done| && (open ==> lines == done)
      decreases |buffer.Rest()|
    {
      LinesStep(buffer.Rest());
      ghost var line := FirstLine(buffer.Rest());
      assert [] + line == line;
      done := done + [line];
      var target := new Target();
      var total := ReadLine(buffer, target);
      lines, open := lines + [target.contents], open && target.open;
      ch := buffer.Getc();
    }
    NoLines();
  }

  predicate Plain(line: seq<Byte>) {
    10 !in line && 13 !in line
  }

  // What a line is: it holds neither 10 nor 13, and 10, or 13 and 10, or 13 alone ends it.
  lemma FirstOf(line: seq<Byte>, rest: seq<Byte>)
    requires Plain(line) && (rest == [] || rest[0] == 10 || rest[0] == 13)
    ensures FirstLine(line + rest) == line
    ensures AfterLine(line + rest) ==
            if rest == [] then [] else if |rest| > 1 && rest[0] == 13 && rest[1] == 10 then rest[2..] else rest[1..]
  {
    var s := line + rest;
    LineLengthIs(s, |line|);
    assert s[..|line|] == line && s[|line|..] == rest;
    assert rest != [] ==> s[|line| + 1..] == rest[1..];
    assert |rest| > 1 ==> s[|line| + 2..] == rest[2..];
  }

  // So splitting takes off a first line and its end, and leaves nothing behind the last one.
  lemma SplitIs(line: seq<Byte>, rest: seq<Byte>)
    requires Plain(line)
    ensures SplitLF(Normalize([])) == []
    ensures line != [] ==> SplitLF(Normalize(line)) == [line]
    ensures SplitLF(Normalize(line + [10] + rest)) == [line] + SplitLF(Normalize(rest))
    ensures SplitLF(Normalize(line + [13, 10] + rest)) == [line] + SplitLF(Normalize(rest))
    ensures rest == [] || rest[0] != 10 ==>
              SplitLF(Normalize(line + [13] + rest)) == [line] + SplitLF(Normalize(rest))
  {
    hide FirstLine, AfterLine, Lines, SplitLF, Normalize;
    NoLines();
    LinesAreLines([]);
    LinesAreLines(rest);
    SplitFirst(line, [10] + rest);
    SplitFirst(line, [13, 10] + rest);
    SplitFirst(line, [13] + rest);
    assert line + [10] + rest == line + ([10] + rest) && ([10] + rest)[1..] == rest;
    assert line + [13, 10] + rest == line + ([13, 10] + rest) && ([13, 10] + rest)[2..] == rest;
    assert line + [13] + rest == line + ([13] + rest) && ([13] + rest)[1..] == rest;
    if line != [] {
      SplitFirst(line, []);
      assert line + [] == line;
    }
  }

  lemma SplitFirst(line: seq<Byte>, rest: seq<Byte>)
    requires Plain(line) && line + rest != [] && (rest == [] || rest[0] == 10 || rest[0] == 13)
    ensures SplitLF(Normalize(line + rest)) == [line] + Lines(
              if rest == [] then [] else if |rest| > 1 && rest[0] == 13 && rest[1] == 10 then rest[2..] else rest[1..])
  {
    hide FirstLine, AfterLine, Lines, SplitLF, Normalize;
    FirstOf(line, rest);
    LinesStep(line + rest);
    LinesAreLines(line + rest);
  }

  lemma NoLines()
    ensures Lines([]) == []
  {
  }
}
