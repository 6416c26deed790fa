/** A stream buffer seen by its reader: characters arrive over time, and nothing is known
    about when. */
module StreamSource {
  import opened Bytes

  class Source {
    const data: seq<Byte>   // everything that will ever arrive
    var pos: nat            // the read position
    var arrived: nat        // how much has arrived so far

    ghost predicate Valid()
      reads this
    {
      pos <= arrived <= |data|
    }

    ghost function Rest(): seq<Byte>
      requires Valid()
      reads this
    {
      data[pos..]
    }

    constructor (data: seq<Byte>)
      ensures Valid() && pos == 0 && this.data == data
    {
      this.data := data;
      pos, arrived := 0, 0;
    }

    // Meanwhile, any number of characters may arrive.
    method Arrive()
      requires Valid()
      modifies `arrived
      ensures Valid() && arrived >= old(arrived)
    {
      var n :| arrived <= n <= |data|;
      arrived := n;
    }

    method InAvail() returns (n: nat)
      requires Valid()
      modifies `arrived
      ensures Valid() && n == arrived - pos
    {
      Arrive();
      n := arrived - pos;
    }

    // Peeking without waiting: the next character if it has arrived; otherwise the end of the
    // stream, if that is known already, or a request to wait.
    method Sgetc() returns (ch: int)
      requires Valid()
      modifies `arrived
      ensures Valid() && arrived >= old(arrived)
      ensures pos < arrived ==> ch == data[pos]
      ensures pos == arrived ==> ch == REQUIRES_ASYNC || (ch == EOF && pos == |data|)
    {
      Arrive();
      if pos < arrived {
        ch := data[pos];
      } else if pos < |data| {
        ch := REQUIRES_ASYNC;
      } else if * {
        ch := EOF;
      } else {
        ch := REQUIRES_ASYNC;
      }
    }

    // The same, and on to the next character.
    method Sbumpc() returns (ch: int)
      requires Valid()
      modifies `arrived, `pos
      ensures Valid() && arrived >= old(arrived)
      ensures old(pos) < old(arrived) ==> ch >= 0
      ensures ch >= 0 ==> old(pos) < |data| && ch == data[old(pos)] && pos == old(pos) + 1
      ensures ch < 0 ==> pos == old(pos) && (ch == REQUIRES_ASYNC || (ch == EOF && pos == |data|))
    {
      ch := Sgetc();
      if ch >= 0 {
        pos := pos + 1;
      }
    }

    // Waits for the next character, or the end of the stream.
    method Getc() returns (ch: int)
      requires Valid()
      modifies `arrived
      ensures Valid()
      ensures ch == if pos < |data| then data[pos] else EOF
      ensures pos < |data| ==> pos < arrived
    {
      if pos < |data| {
        Arrive();
        if arrived == pos {
          arrived := pos + 1;
        }
        ch := data[pos];
      } else {
        ch := EOF;
      }
    }

    method Bumpc() returns (ch: int)
      requires Valid()
      modifies `arrived, `pos
      ensures Valid()
      ensures ch == if old(pos) < |data| then data[old(pos)] else EOF
      ensures pos == old(pos) + if old(pos) < |data| then 1 else 0
    {
      ch := Getc();
      if ch != EOF {
        pos := pos + 1;
      }
    }

    // Moves on, then peeks.
    method Nextc() returns (ch: int)
      requires Valid()
      modifies `arrived, `pos
      ensures Valid()
      ensures pos == old(pos) + if old(pos) < |data| then 1 else 0
      ensures ch == if pos < |data| then data[pos] else EOF
    {
      ch := Bumpc();
      ch := Getc();
    }
  }
}
