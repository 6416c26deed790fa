/** Extracting integers from a stream: white space, then characters as long as the parser's
    state machine accepts them. */
module IntegerParser {
  import opened Bytes
  import opened Decimals
  import opened StreamSource

  datatype Result = Value(v: int) | RangeError

  const PLUS: Byte := 43
  const MINUS: Byte := 45
  const ZERO: Byte := 48

  predicate IsDigit(c: Byte) {
    48 <= c <= 57
  }

  predicate IsSpace(c: int) {
    c == 32 || 9 <= c <= 13
  }

  // How many white-space characters the text begins with.
  function SpaceCount(s: seq<Byte>): (n: nat)
    ensures n <= |s|
  {
    if s != [] && IsSpace(s[0]) then 1 + SpaceCount(s[1..]) else 0
  }

  // ---------------------------------------------------------------- the two loops

  method SkipWhitespace(buffer: Source)
    requires buffer.Valid()
    modifies buffer
    ensures buffer.Valid() && buffer.Rest() == old(buffer.Rest())[SpaceCount(old(buffer.Rest()))..]
  {
    hide SpaceCount;
    ghost var s, start := buffer.Rest(), buffer.pos;
    var more := true;
    while more
      invariant buffer.Valid() && start <= buffer.pos && s == buffer.data[start..]
      invariant buffer.pos - start <= SpaceCount(s)
      invariant !more ==> buffer.pos - start == SpaceCount(s)
      decreases more, |buffer.data| - buffer.pos
    {
      more := SkipAvailable(buffer, s, start);
      if more {
        SpaceCountAt(s, buffer.pos - start);
        var ch := buffer.Getc();
        more := SkipOne(buffer, ch);
      }
    }
    assert s[buffer.pos - start..] == buffer.Rest();
  }

  // The characters that can be looked at without waiting; false if one of them is no space.
  method SkipAvailable(buffer: Source, ghost s: seq<Byte>, ghost start: nat) returns (more: bool)
    requires buffer.Valid() && start <= buffer.pos && buffer.pos - start <= SpaceCount(s)
    requires s == buffer.data[start..]
    modifies buffer
    ensures buffer.Valid() && old(buffer.pos) <= buffer.pos && buffer.pos - start <= SpaceCount(s)
    ensures !more ==> buffer.pos - start == SpaceCount(s)
  {
    hide SpaceCount;
    while true
      invariant buffer.Valid() && start <= old(buffer.pos) <= buffer.pos && buffer.pos - start <= SpaceCount(s)
      decreases |buffer.data| - buffer.pos
    {
      var avail := buffer.InAvail();
      if avail == 0 {
        return true;
      }
      var ch := buffer.Sgetc();
      if ch == REQUIRES_ASYNC {
        return true;
      }
      SpaceCountAt(s, buffer.pos - start);
      more := SkipOne(buffer, ch);
      if !more {
        return false;
      }
    }
  }

  // Consumes the character that was just peeked, if it is a space.
  method SkipOne(buffer: Source, ch: int) returns (space: bool)
    requires buffer.Valid() && ch == if buffer.pos < |buffer.data| then buffer.data[buffer.pos] else EOF
    modifies buffer
    ensures buffer.Valid() && space == IsSpace(ch)
    ensures buffer.pos == old(buffer.pos) + if space then 1 else 0
  {
    space := IsSpace(ch);
    if space {
      var c := buffer.Sbumpc();
      if c == REQUIRES_ASYNC {
        c := buffer.Nextc();
      }
    }
  }

  lemma {:induction false} SpaceCountAt(s: seq<Byte>, k: nat)
    requires k <= SpaceCount(s)
    ensures k < SpaceCount(s) <==> k < |s| && IsSpace(s[k])
  {
    if k > 0 {
      SpaceCountAt(s[1..], k - 1);
    }
  }

  // What a parser does with the characters s: the state it ends in, and how many it takes.
  function Scan<S>(s: seq<Byte>, state: S, accept: (S, Byte) -> (S, bool)): (r: (S, nat))
    ensures r.1 <= |s|
  {
    if s == [] then (state, 0)
    else
      var (next, ok) := accept(state, s[0]);
      if !ok then (next, 0)
      else
        var (last, n) := Scan(s[1..], next, accept);
        (last, n + 1)
  }

  // Scanning, with n characters taken and `state` reached; still going on, or over.
  function ScanOn<S>(s: seq<Byte>, n: nat, state: S, accept: (S, Byte) -> (S, bool), more: bool): (S, nat)
    requires n <= |s|
  {
    if !more then (state, n) else var (last, m) := Scan(s[n..], state, accept); (last, n + m)
  }

  lemma ScanOver<S>(s: seq<Byte>, n: nat, state: S, accept: (S, Byte) -> (S, bool))
    requires n <= |s|
    ensures ScanOn(s, n, state, accept, false) == (state, n)
  {
  }

  lemma ScanStart<S>(s: seq<Byte>, state: S, accept: (S, Byte) -> (S, bool))
    ensures ScanOn(s, 0, state, accept, true) == Scan(s, state, accept)
  {
    assert s[0..] == s;
  }

  lemma ScanAt<S>(s: seq<Byte>, n: nat, state: S, accept: (S, Byte) -> (S, bool))
    requires n <= |s|
    ensures ScanOn(s, n, state, accept, true) ==
            if n == |s| then ScanOn(s, n, state, accept, false)
            else
              var (next, ok) := accept(state, s[n]);
              ScanOn(s, if ok then n + 1 else n, next, accept, ok)
  {
    if n < |s| {
      assert s[n..][1..] == s[n + 1..];
    }
  }

  method ParseInput<S>(buffer: Source, initial: S, accept: (S, Byte) -> (S, bool)) returns (state: S)
    requires buffer.Valid()
    modifies buffer
    ensures var s := old(buffer.Rest())[SpaceCount(old(buffer.Rest()))..];
            var (last, n) := Scan(s, initial, accept);
            buffer.Valid() && state == last && buffer.Rest() == s[n..]
  {
    hide Scan, SpaceCount;
    SkipWhitespace(buffer);
    state := TakeAccepted(buffer, initial, accept);
  }

  // Peeks at each character, and moves on only if it is accepted.
  method TakeAccepted<S>(buffer: Source, initial: S, accept: (S, Byte) -> (S, bool)) returns (state: S)
    requires buffer.Valid()
    modifies buffer
    ensures var s := old(buffer.Rest());
            var (last, n) := Scan(s, initial, accept);
            buffer.Valid() && state == last && buffer.Rest() == s[n..]
  {
    hide Scan, ScanOn;
    ghost var s, n := buffer.Rest(), 0;
    ScanStart(s, initial, accept);
    state := initial;
    var more := true;
    while more
      invariant buffer.Valid() && n <= |s| && buffer.Rest() == s[n..]
      invariant Scan(s, initial, accept) == ScanOn(s, n, state, accept, more)
      decreases more, |s| - n
    {
      ScanAt(s, n, state, accept);
      var ch := buffer.Getc();
      if ch == EOF {
        more := false;
      } else {
        assert ch == s[n];
        var r := accept(state, ch);
        state, more := r.0, r.1;
        if more {
          ch := buffer.Bumpc();
          n := n + 1;
        }
      }
    }
    ScanOver(s, n, state, accept);
  }

  // ---------------------------------------------------------------- 64-bit arithmetic

  const TWO63: int := 0x8000_0000_0000_0000
  const TWO64: int := 0x1_0000_0000_0000_0000

  function Wrap64(x: int): (r: int)
    ensures -TWO63 <= r < TWO63
    ensures -TWO63 <= x < TWO63 ==> r == x
  {
    (x + TWO63) % TWO64 - TWO63
  }

  function DigitValue(c: Byte): int {
    c - ZERO
  }

  // The number that a string of digits denotes.
  function Magnitude(digits: seq<Byte>): int {
    Denoted(digits, DigitValue)
  }

  predicate Digits(s: seq<Byte>) {
    forall c <- s :: IsDigit(c)
  }

  // ---------------------------------------------------------------- int64

  datatype Sign = NoSign | Plus | Minus
  datatype Int64State = Int64State(result: int, correct: bool, sign: Sign)

  function AcceptInt64(st: Int64State, ch: Byte): (Int64State, bool) {
    if !IsDigit(ch) && (st.sign != NoSign || (ch != PLUS && ch != MINUS)) then (st, false)
    else if ch == PLUS then (st.(correct := true, sign := Plus), true)
    else if ch == MINUS then (st.(correct := true, sign := Minus), true)
    else
      var result := Wrap64(Wrap64(st.result * 10) + (ch - ZERO));
      var sign := if st.sign == NoSign then Plus else st.sign;
      if (result >= 0) != (st.result >= 0) then (Int64State(result, false, sign), false)
      else (Int64State(result, true, sign), true)
  }

  function ExtractInt64(st: Int64State): Result {
    if !st.correct then RangeError else Value(if st.sign == Minus then -st.result else st.result)
  }

  const INT64_START := Int64State(0, false, NoSign)

  function Int64Of(s: seq<Byte>): Result {
    ExtractInt64(Scan(s[SpaceCount(s)..], INT64_START, AcceptInt64).0)
  }

  // The text behind what the parser takes.
  function Int64Left(s: seq<Byte>): seq<Byte> {
    s[SpaceCount(s)..][Scan(s[SpaceCount(s)..], INT64_START, AcceptInt64).1..]
  }

  method ParseInt64(buffer: Source) returns (r: Result)
    requires buffer.Valid()
    modifies buffer
    ensures buffer.Valid() && r == Int64Of(old(buffer.Rest())) && buffer.Rest() == Int64Left(old(buffer.Rest()))
  {
    var state := ParseInput(buffer, INT64_START, AcceptInt64);
    r := ExtractInt64(state);
  }

  // The overloads for narrower signed types.
  method ParseSigned(buffer: Source, min: int, max: int) returns (r: Result)
    requires buffer.Valid()
    modifies buffer
    ensures buffer.Valid() && r == InRange(Int64Of(old(buffer.Rest())), min, max)
    ensures buffer.Rest() == Int64Left(old(buffer.Rest()))
  {
    var val := ParseInt64(buffer);
    r := InRange(val, min, max);
  }

  function InRange(r: Result, min: int, max: int): Result {
    if r.Value? && min <= r.v <= max then r else RangeError
  }

  // ---------------------------------------------------------------- uint64

  datatype Uint64State = Uint64State(result: int, correct: bool)

  function AcceptUint64(st: Uint64State, ch: Byte): (Uint64State, bool) {
    if !IsDigit(ch) then (st, false)
    else (Uint64State((st.result * 10 % TWO64 + (ch - ZERO)) % TWO64, true), true)
  }

  function ExtractUint64(st: Uint64State): Result {
    if !st.correct then RangeError else Value(st.result)
  }

  const UINT64_START := Uint64State(0, false)

  function Uint64Of(s: seq<Byte>): Result {
    ExtractUint64(Scan(s[SpaceCount(s)..], UINT64_START, AcceptUint64).0)
  }

  function Uint64Left(s: seq<Byte>): seq<Byte> {
    s[SpaceCount(s)..][Scan(s[SpaceCount(s)..], UINT64_START, AcceptUint64).1..]
  }

  method ParseUint64(buffer: Source) returns (r: Result)
    requires buffer.Valid()
    modifies buffer
    ensures buffer.Valid() && r == Uint64Of(old(buffer.Rest())) && buffer.Rest() == Uint64Left(old(buffer.Rest()))
  {
    var state := ParseInput(buffer, UINT64_START, AcceptUint64);
    r := ExtractUint64(state);
  }

  method ParseUnsigned(buffer: Source, max: int) returns (r: Result)
    requires buffer.Valid()
    modifies buffer
    ensures buffer.Valid() && r == InRange(Uint64Of(old(buffer.Rest())), 0, max)
    ensures buffer.Rest() == Uint64Left(old(buffer.Rest()))
  {
    var val := ParseUint64(buffer);
    r := if val.Value? && val.v <= max then val else RangeError;
    Uint64InRange(old(buffer.Rest()));
  }

  // ---------------------------------------------------------------- what the parsers compute

  lemma {:induction false} SpacesSkipped(ws: seq<Byte>, t: seq<Byte>)
    requires (forall c <- ws :: IsSpace(c)) && (t == [] || !IsSpace(t[0]))
    ensures SpaceCount(ws + t) == |ws| && (ws + t)[|ws|..] == t
  {
    if ws == [] {
      assert ws + t == t;
    } else {
      assert (ws + t)[1..] == ws[1..] + t;
      SpacesSkipped(ws[1..], t);
    }
  }

  // The text goes on with something that is no digit, or ends.
  predicate Stops(rest: seq<Byte>) {
    rest == [] || !IsDigit(rest[0])
  }

  function Reading(m: int, sign: Sign): Int64State {
    Int64State(m, true, sign)
  }

  lemma MagnitudeSnoc(d: seq<Byte>, c: Byte)
    ensures Magnitude(d + [c]) == Magnitude(d) * 10 + (c - ZERO)
  {
    DenotedSnoc(d, c, DigitValue);
  }

  // The accumulator never looks negative while the digits are read.
  predicate Unnoticed(digits: seq<Byte>) {
    forall k :: 0 <= k <= |digits| ==> Magnitude(digits[..k]) % TWO64 < TWO63
  }

  lemma UnnoticedSnoc(d: seq<Byte>, c: Byte)
    ensures Unnoticed(d + [c]) <==> Unnoticed(d) && Magnitude(d + [c]) % TWO64 < TWO63
  {
    hide Magnitude;
    var e := d + [c];
    assert e[..|e|] == e;
    assert forall k :: 0 <= k <= |d| ==> e[..k] == d[..k];
  }

  lemma UnnoticedPrefix(a: seq<Byte>, b: seq<Byte>)
    requires Unnoticed(a + b)
    ensures Unnoticed(a)
  {
    hide Magnitude;
    assert forall k :: 0 <= k <= |a| ==> (a + b)[..k] == a[..k];
  }

  // Wrapping keeps the residue, and shows its upper half as negative numbers.
  lemma WrapResidue(x: int)
    ensures Wrap64(x) % TWO64 == x % TWO64
    ensures Wrap64(x) == if x % TWO64 < TWO63 then x % TWO64 else x % TWO64 - TWO64
  {
  }

  // One more digit, when m was read so far and did not look negative.
  lemma AcceptDigit(m: int, sign: Sign, c: Byte)
    requires 0 <= m && m % TWO64 < TWO63 && IsDigit(c)
    ensures var next := (m * 10 + (c - ZERO)) % TWO64;
            var (st, ok) := AcceptInt64(Reading(m % TWO64, sign), c);
            if next < TWO63 then st == Reading(next, if sign == NoSign then Plus else sign) && ok
            else !st.correct && !ok
  {
    hide Wrap64;
    var r, d := m % TWO64, c - ZERO;
    WrapResidue(r * 10);
    WrapResidue(Wrap64(r * 10) + d);
    ModStep(m, d);
  }

  // The digits behind those in `before`, up to their end or to the first one that makes the
  // accumulator look negative.
  lemma {:induction false} ScanDigits64(before: seq<Byte>, digits: seq<Byte>, rest: seq<Byte>, sign: Sign)
    requires Digits(digits) && sign != NoSign && 0 <= Magnitude(before) && Unnoticed(before) && Stops(rest)
    ensures var (last, n) := Scan(digits + rest, Reading(Magnitude(before) % TWO64, sign), AcceptInt64);
            if Unnoticed(before + digits) then
              last == Reading(Magnitude(before + digits) % TWO64, sign) && n == |digits|
            else
              && !last.correct && n < |digits|
              && Unnoticed(before + digits[..n]) && !Unnoticed(before + digits[..n + 1])
    decreases |digits|
  {
    hide AcceptInt64, Magnitude, Unnoticed;
    if digits == [] {
      assert digits + rest == rest && before + digits == before;
      StopScan(rest, Reading(Magnitude(before) % TWO64, sign));
    } else {
      var c := digits[0];
      var next := before + [c];
      assert c in digits;
      assert (digits + rest)[1..] == digits[1..] + rest;
      MagnitudeSnoc(before, c);
      WholeIsPrefix(before);
      AcceptDigit(Magnitude(before), sign, c);
      UnnoticedSnoc(before, c);
      assert next + digits[1..] == before + digits;
      if Unnoticed(next) {
        ScanDigits64(next, digits[1..], rest, sign);
        var n := Scan(digits[1..] + rest, Reading(Magnitude(next) % TWO64, sign), AcceptInt64).1;
        if !Unnoticed(before + digits) {
          assert next + digits[1..][..n] == before + digits[..n + 1];
          assert next + digits[1..][..n + 1] == before + digits[..n + 2];
        }
      } else {
        if Unnoticed(before + digits) {
          UnnoticedPrefix(next, digits[1..]);
        }
        assert before + digits[..0] == before && digits[..1] == [c];
      }
    }
  }

  lemma StopScan(rest: seq<Byte>, st: Int64State)
    requires Stops(rest) && st.sign != NoSign
    ensures Scan(rest, st, AcceptInt64) == (st, 0)
  {
  }

  // The first character: a sign, or the first digit.
  lemma ScanFirst(s: seq<Byte>)
    requires s != []
    ensures s[0] == PLUS || s[0] == MINUS ==>
              var (last, n) := Scan(s[1..], Reading(0, if s[0] == MINUS then Minus else Plus), AcceptInt64);
              Scan(s, INT64_START, AcceptInt64) == (last, n + 1)
    ensures IsDigit(s[0]) ==>
              var (last, n) := Scan(s[1..], Reading(s[0] - ZERO, Plus), AcceptInt64);
              Scan(s, INT64_START, AcceptInt64) == (last, n + 1)
  {
  }

  lemma {:induction false} MagnitudeGrows(a: seq<Byte>, digits: seq<Byte>)
    requires Digits(digits) && Magnitude(a) >= 0
    ensures Magnitude(a) <= Magnitude(a + digits)
    decreases |digits|
  {
    if digits == [] {
      assert a + digits == a;
    } else {
      var k := |digits| - 1;
      MagnitudeGrows(a, digits[..k]);
      assert (a + digits)[..|a + digits| - 1] == a + digits[..k];
      assert digits[k] in digits;
    }
  }

  // Whatever is scanned, a state that is accepted holds a number from 0 to 2^63 - 1.
  lemma {:induction false} ScanBounded64(s: seq<Byte>, st: Int64State)
    requires 0 <= st.result < TWO63
    ensures var last := Scan(s, st, AcceptInt64).0; last.correct ==> 0 <= last.result < TWO63
    decreases |s|
  {
    if s != [] {
      var (next, ok) := AcceptInt64(st, s[0]);
      if ok {
        ScanBounded64(s[1..], next);
      }
    }
  }

  // Whatever the text, the parser's results lie strictly between -2^63 and 2^63: the negation
  // behind a minus sign never overflows.
  lemma Int64Range(s: seq<Byte>)
    ensures Int64Of(s).Value? ==> -TWO63 < Int64Of(s).v < TWO63
  {
    ScanBounded64(s[SpaceCount(s)..], INT64_START);
  }

  // An optional sign.
  predicate IsSignText(sign: seq<Byte>) {
    sign == [] || sign == [PLUS] || sign == [MINUS]
  }

  function Signed(sign: seq<Byte>, m: int): int {
    if sign == [MINUS] then -m else m
  }

  function SignOf(sign: seq<Byte>): Sign {
    if sign == [MINUS] then Minus else Plus
  }

  lemma MagnitudeNone()
    ensures Magnitude([]) == 0 && Unnoticed([])
  {
  }

  // Digits behind a sign.
  lemma ScanAfterSign(digits: seq<Byte>, rest: seq<Byte>, sign: Sign)
    requires Digits(digits) && Stops(rest) && sign != NoSign
    ensures var (last, n) := Scan(digits + rest, Reading(0, sign), AcceptInt64);
            if Unnoticed(digits) then last == Reading(Magnitude(digits) % TWO64, sign) && n == |digits|
            else !last.correct && n < |digits| && Unnoticed(digits[..n]) && !Unnoticed(digits[..n + 1])
  {
    hide Magnitude, Unnoticed, Scan, AcceptInt64, Reading;
    MagnitudeNone();
    ScanDigits64([], digits, rest, sign);
    var n := Scan(digits + rest, Reading(0, sign), AcceptInt64).1;
    assert [] + digits == digits;
    if !Unnoticed(digits) {
      assert [] + digits[..n] == digits[..n] && [] + digits[..n + 1] == digits[..n + 1];
    }
  }

  // Digits without a sign.
  lemma ScanUnsigned(digits: seq<Byte>, rest: seq<Byte>)
    requires digits != [] && Digits(digits) && Stops(rest)
    ensures var (last, n) := Scan(digits[1..] + rest, Reading(digits[0] - ZERO, Plus), AcceptInt64);
            if Unnoticed(digits) then last == Reading(Magnitude(digits) % TWO64, Plus) && n + 1 == |digits|
            else !last.correct && n + 1 < |digits| && Unnoticed(digits[..n + 1]) && !Unnoticed(digits[..n + 2])
  {
    hide Magnitude, Unnoticed, Scan, AcceptInt64, Reading;
    FirstDigit(digits);
    ScanDigits64([digits[0]], digits[1..], rest, Plus);
    var n := Scan(digits[1..] + rest, Reading(digits[0] - ZERO, Plus), AcceptInt64).1;
    if !Unnoticed(digits) {
      assert [digits[0]] + digits[1..][..n] == digits[..n + 1];
      assert [digits[0]] + digits[1..][..n + 1] == digits[..n + 2];
    }
  }

  // A sign and digits.
  lemma ScanNumber64(sign: seq<Byte>, digits: seq<Byte>, rest: seq<Byte>)
    requires IsSignText(sign) && digits != [] && Digits(digits) && Stops(rest)
    ensures var (last, n) := Scan(sign + digits + rest, INT64_START, AcceptInt64);
            if Unnoticed(digits) then last == Reading(Magnitude(digits) % TWO64, SignOf(sign)) && n == |sign + digits|
            else
              && !last.correct && |sign| <= n < |sign + digits|
              && Unnoticed(digits[..n - |sign|]) && !Unnoticed(digits[..n - |sign| + 1])
  {
    hide AcceptInt64, Scan, Magnitude, Unnoticed, Reading;
    var s := sign + digits + rest;
    ScanFirst(s);
    if sign == [] {
      FirstDigit(digits);
      assert s == digits + rest && s[1..] == digits[1..] + rest;
      ScanUnsigned(digits, rest);
    } else {
      assert s[1..] == digits + rest;
      ScanAfterSign(digits, rest, SignOf(sign));
    }
  }

  lemma FirstDigit(digits: seq<Byte>)
    requires digits != [] && Digits(digits)
    ensures IsDigit(digits[0]) && [digits[0]] + digits[1..] == digits
    ensures Magnitude([digits[0]]) == digits[0] - ZERO && Unnoticed([digits[0]])
  {
    assert digits[0] in digits;
    MagnitudeSnoc([], digits[0]);
    assert [] + [digits[0]] == [digits[0]];
    MagnitudeNone();
    UnnoticedSnoc([], digits[0]);
  }

  // What the parser makes of white space, an optional sign and digits, in front of anything
  // that is no digit. It keeps the residue modulo 2^64, and reports an error exactly if one of
  // the prefixes of the digits leaves a residue of 2^63 or more; the last digit of the first
  // such prefix and all behind it are left unread.
  lemma Int64Returns(ws: seq<Byte>, sign: seq<Byte>, digits: seq<Byte>, rest: seq<Byte>)
    requires forall c <- ws :: IsSpace(c)
    requires IsSignText(sign) && digits != [] && Digits(digits) && Stops(rest)
    ensures var s := ws + (sign + digits + rest);
            if Unnoticed(digits) then
              Int64Of(s) == Value(Signed(sign, Magnitude(digits) % TWO64)) && Int64Left(s) == rest
            else
              && Int64Of(s) == RangeError
              && exists n :: 0 <= n < |digits| && Unnoticed(digits[..n]) && !Unnoticed(digits[..n + 1])
                             && Int64Left(s) == digits[n..] + rest
  {
    hide AcceptInt64, Scan, Magnitude, SpaceCount, Unnoticed;
    var t := sign + digits + rest;
    assert digits[0] in digits;
    assert t[0] == if sign == [] then digits[0] else sign[0];
    SpacesSkipped(ws, t);
    ScanNumber64(sign, digits, rest);
    var n := Scan(t, INT64_START, AcceptInt64).1;
    if Unnoticed(digits) {
      assert t[|sign + digits|..] == rest;
    } else {
      assert t[n..] == digits[n - |sign|..] + rest;
    }
  }

  // Every text has this form, or has no digits (see SignAlone).
  lemma EveryText(s: seq<Byte>) returns (ws: seq<Byte>, sign: seq<Byte>, digits: seq<Byte>, rest: seq<Byte>)
    ensures s == ws + (sign + digits + rest)
    ensures (forall c <- ws :: IsSpace(c)) && IsSignText(sign) && Digits(digits) && Stops(rest)
    ensures sign == digits == [] ==> NoNumber(rest)
  {
    hide SpaceCount;
    SpacesAre(s);
    var t := s[SpaceCount(s)..];
    sign := if t != [] && (t[0] == PLUS || t[0] == MINUS) then t[..1] else [];
    ws := s[..SpaceCount(s)];
    digits, rest := DigitsThenRest(t[|sign|..]);
    assert s == ws + t && t == sign + t[|sign|..];
  }

  lemma {:induction false} DigitsThenRest(t: seq<Byte>) returns (digits: seq<Byte>, rest: seq<Byte>)
    ensures t == digits + rest && Digits(digits) && Stops(rest)
  {
    if t == [] || !IsDigit(t[0]) {
      digits, rest := [], t;
    } else {
      digits, rest := DigitsThenRest(t[1..]);
      digits := [t[0]] + digits;
    }
  }

  lemma {:induction false} SpacesAre(s: seq<Byte>)
    ensures forall c <- s[..SpaceCount(s)] :: IsSpace(c)
    ensures var t := s[SpaceCount(s)..]; t == [] || !IsSpace(t[0])
  {
    if s != [] && IsSpace(s[0]) {
      SpacesAre(s[1..]);
      assert s[..SpaceCount(s)] == [s[0]] + s[1..][..SpaceCount(s[1..])];
      assert s[SpaceCount(s)..] == s[1..][SpaceCount(s[1..])..];
    }
  }

  // Below 2^63 no prefix looks negative.
  lemma SmallIsUnnoticed(digits: seq<Byte>)
    requires Digits(digits) && Magnitude(digits) < TWO63
    ensures Unnoticed(digits) && 0 <= Magnitude(digits)
  {
    hide Magnitude;
    MagnitudeNone();
    forall k | 0 <= k <= |digits|
      ensures 0 <= Magnitude(digits[..k]) <= Magnitude(digits)
    {
      MagnitudeGrows([], digits[..k]);
      assert [] + digits[..k] == digits[..k];
      MagnitudeGrows(digits[..k], digits[k..]);
      assert digits[..k] + digits[k..] == digits;
    }
    assert digits[..|digits|] == digits;
  }

  lemma MagnitudeIsNat(digits: seq<Byte>)
    requires Digits(digits)
    ensures 0 <= Magnitude(digits)
  {
    MagnitudeNone();
    MagnitudeGrows([], digits);
    assert [] + digits == digits;
  }

  // So the parser returns the number exactly when its magnitude is below 2^63; and then it
  // leaves the text behind the digits unread.
  lemma Int64Exactly(ws: seq<Byte>, sign: seq<Byte>, digits: seq<Byte>, rest: seq<Byte>)
    requires forall c <- ws :: IsSpace(c)
    requires IsSignText(sign) && digits != [] && Digits(digits) && Stops(rest)
    ensures var s := ws + (sign + digits + rest);
            && (Int64Of(s) == Value(Signed(sign, Magnitude(digits))) <==> Magnitude(digits) < TWO63)
            && (Magnitude(digits) < TWO63 ==> Int64Left(s) == rest)
  {
    hide Magnitude, Unnoticed, SpaceCount;
    Int64Returns(ws, sign, digits, rest);
    WholeIsPrefix(digits);
    MagnitudeIsNat(digits);
    if Magnitude(digits) < TWO63 {
      SmallIsUnnoticed(digits);
    }
  }

  lemma WholeIsPrefix(digits: seq<Byte>)
    ensures Unnoticed(digits) ==> Magnitude(digits) % TWO64 < TWO63
  {
    hide Magnitude;
    assert digits[..|digits|] == digits;
  }

  // From 2^63 on it reports an error exactly if a prefix looks negative; otherwise it returns a
  // wrong number.
  lemma OverflowMissed(ws: seq<Byte>, sign: seq<Byte>, digits: seq<Byte>, rest: seq<Byte>)
    requires forall c <- ws :: IsSpace(c)
    requires IsSignText(sign) && Digits(digits) && Stops(rest) && TWO63 <= Magnitude(digits)
    ensures var r := Int64Of(ws + (sign + digits + rest));
            && (r == RangeError <==> !Unnoticed(digits))
            && r != Value(Signed(sign, Magnitude(digits)))
  {
    hide Magnitude, Unnoticed, SpaceCount;
    MagnitudeNone();
    Int64Returns(ws, sign, digits, rest);
    Int64Exactly(ws, sign, digits, rest);
  }

  // For example whenever the last digit takes a number from below 2^63 past a multiple of 2^64
  // by less than 2^63.
  lemma MissedByLastDigit(digits: seq<Byte>, c: Byte)
    requires Digits(digits) && IsDigit(c) && Magnitude(digits) < TWO63
    ensures Unnoticed(digits + [c]) <==> Magnitude(digits + [c]) % TWO64 < TWO63
  {
    SmallIsUnnoticed(digits);
    UnnoticedSnoc(digits, c);
  }

  // For instance a 2, or a 4, and nineteen zeros.
  lemma OverflowHappens()
    ensures Missed(20_000_000_000_000_000_000, 1_553_255_926_290_448_384)
    ensures Missed(40_000_000_000_000_000_000, 3_106_511_852_580_896_768)
  {
    NineteenZeros(2);
    NineteenZeros(4);
  }

  // A number that is read as another one.
  ghost predicate Missed(m: int, v: int) {
    exists digits: seq<Byte> :: Digits(digits) && Magnitude(digits) == m && Int64Of(digits) == Value(v) && v != m
  }

  lemma NineteenZeros(d: int)
    requires d == 2 || d == 4
    ensures Missed(d * 10_000_000_000_000_000_000, d * 10_000_000_000_000_000_000 % TWO64)
  {
    hide Magnitude, Unnoticed;
    var digits := DigitAndZeros(d, 18);
    MagnitudeSnoc(digits, ZERO);
    MissedByLastDigit(digits, ZERO);
    var all := digits + [ZERO];
    Int64Returns([], [], all, []);
    assert [] + ([] + all + []) == all;
    assert Digits(all) && Magnitude(all) == d * 10_000_000_000_000_000_000;
  }

  lemma {:induction false} DigitAndZeros(d: int, n: nat) returns (digits: seq<Byte>)
    requires 0 < d < 10 && n <= 18
    ensures digits != [] && Digits(digits) && Magnitude(digits) == d * Pow10(n)
    ensures n == 18 ==> Magnitude(digits) == d * 1_000_000_000_000_000_000
  {
    if n == 0 {
      digits := [ZERO + d];
      FirstDigit(digits);
    } else {
      var fewer := DigitAndZeros(d, n - 1);
      digits := fewer + [ZERO];
      MagnitudeSnoc(fewer, ZERO);
    }
    assert Pow10(9) == 1_000_000_000;
    assert Pow10(18) == 1_000_000_000_000_000_000;
  }

  // The narrower overloads return the residue when it was not refused and is in range, so they
  // return the number exactly when its magnitude is below 2^63 and it is in range.
  lemma NarrowExactly(ws: seq<Byte>, sign: seq<Byte>, digits: seq<Byte>, rest: seq<Byte>, min: int, max: int)
    requires forall c <- ws :: IsSpace(c)
    requires IsSignText(sign) && digits != [] && Digits(digits) && Stops(rest)
    ensures var r := InRange(Int64Of(ws + (sign + digits + rest)), min, max);
            var v, w := Signed(sign, Magnitude(digits)), Signed(sign, Magnitude(digits) % TWO64);
            && r == (if Unnoticed(digits) && min <= w <= max then Value(w) else RangeError)
            && (r == Value(v) <==> Magnitude(digits) < TWO63 && min <= v <= max)
            && (Magnitude(digits) < TWO63 ==> r == if min <= v <= max then Value(v) else RangeError)
  {
    hide Magnitude, Unnoticed, SpaceCount;
    Int64Returns(ws, sign, digits, rest);
    Int64Exactly(ws, sign, digits, rest);
  }

  // Nothing that could begin a number.
  predicate NoNumber(rest: seq<Byte>) {
    rest == [] || (!IsSpace(rest[0]) && !IsDigit(rest[0]) && rest[0] != PLUS && rest[0] != MINUS)
  }

  // Without digits it is an error exactly if there is no sign either; a sign alone is read as 0.
  lemma SignAlone(ws: seq<Byte>, sign: seq<Byte>, rest: seq<Byte>)
    requires (forall c <- ws :: IsSpace(c)) && IsSignText(sign) && Stops(rest)
    requires sign == [] ==> NoNumber(rest)
    ensures Int64Of(ws + (sign + rest)) == if sign == [] then RangeError else Value(0)
    ensures Int64Left(ws + (sign + rest)) == rest
  {
    hide AcceptInt64, SpaceCount;
    var s := sign + rest;
    SpacesSkipped(ws, s);
    if sign == [] {
      assert s == rest;
      Refused(rest);
    } else {
      assert s[0] == sign[0] && s[1..] == rest;
      ScanFirst(s);
      StopScan(rest, Reading(0, SignOf(sign)));
    }
  }

  lemma Refused(rest: seq<Byte>)
    requires NoNumber(rest)
    ensures Scan(rest, INT64_START, AcceptInt64) == (INT64_START, 0)
  {
  }

  // White space is tab, line feed, vertical tab, form feed, carriage return and space; digits
  // are the characters 48 to 57, with the values 0 to 9.
  lemma CharactersAre(c: Byte, digits: seq<Byte>)
    ensures IsSpace(c) <==> c == 9 || c == 10 || c == 11 || c == 12 || c == 13 || c == 32
    ensures IsDigit(c) <==> 48 <= c <= 57
    ensures Magnitude([]) == 0 && Magnitude(digits + [c]) == Magnitude(digits) * 10 + (c - 48)
  {
    MagnitudeNone();
    MagnitudeSnoc(digits, c);
  }

  // A minus (45) negates, a plus (43) does not, and neither does the absence of a sign.
  lemma SignsAre(digits: seq<Byte>, rest: seq<Byte>)
    requires digits != [] && Digits(digits) && Stops(rest) && Magnitude(digits) < 9_223_372_036_854_775_808
    ensures Int64Of([45] + digits + rest) == Value(-Magnitude(digits))
    ensures Int64Of([43] + digits + rest) == Value(Magnitude(digits))
    ensures Int64Of([] + digits + rest) == Value(Magnitude(digits))
  {
    hide Magnitude, Int64Of, Digits, Stops;
    SignIs([MINUS], digits, rest);
    SignIs([PLUS], digits, rest);
    SignIs([], digits, rest);
  }

  lemma SignIs(sign: seq<Byte>, digits: seq<Byte>, rest: seq<Byte>)
    requires IsSignText(sign)
    requires digits != [] && Digits(digits) && Stops(rest) && Magnitude(digits) < TWO63
    ensures Int64Of(sign + digits + rest) == Value(Signed(sign, Magnitude(digits)))
  {
    hide Magnitude, Int64Of, Int64Left, Digits, Stops;
    Int64Exactly([], sign, digits, rest);
    assert [] + (sign + digits + rest) == sign + digits + rest;
  }

  lemma {:induction false} ScanDigitsU64(before: seq<Byte>, digits: seq<Byte>, rest: seq<Byte>, correct: bool)
    requires Digits(digits) && Stops(rest)
    ensures var (last, n) := Scan(digits + rest, Uint64State(Magnitude(before) % TWO64, correct), AcceptUint64);
            last == Uint64State(Magnitude(before + digits) % TWO64, correct || digits != []) && n == |digits|
    decreases |digits|
  {
    if digits == [] {
      assert digits + rest == rest && before + digits == before;
    } else {
      var next := before + [digits[0]];
      assert next + digits[1..] == before + digits;
      assert (digits + rest)[1..] == digits[1..] + rest;
      assert next[..|before|] == before;
      assert digits[0] in digits;
      ModStep(Magnitude(before), digits[0] - ZERO);
      ScanDigitsU64(next, digits[1..], rest, true);
    }
  }

  lemma ModStep(m: int, d: int)
    ensures ((m % TWO64) * 10 % TWO64 + d) % TWO64 == (m * 10 + d) % TWO64
  {
    var q := m / TWO64;
    assert m == q * TWO64 + m % TWO64;
    var r := (m % TWO64) * 10;
    assert m * 10 + d == (q * 10 + r / TWO64) * TWO64 + (r % TWO64 + d);
  }

  lemma {:induction false} Uint64InRange(s: seq<Byte>)
    ensures Uint64Of(s).Value? ==> 0 <= Uint64Of(s).v < TWO64
  {
    ScanBoundedU64(s[SpaceCount(s)..], UINT64_START);
  }

  lemma {:induction false} ScanBoundedU64(s: seq<Byte>, st: Uint64State)
    requires 0 <= st.result < TWO64
    ensures 0 <= Scan(s, st, AcceptUint64).0.result < TWO64
    decreases |s|
  {
    if s != [] {
      var (next, ok) := AcceptUint64(st, s[0]);
      if ok {
        ScanBoundedU64(s[1..], next);
      }
    }
  }

  // For white space and digits the unsigned parser returns the number modulo 2^64, so the
  // number itself exactly when it is below 2^64.
  lemma Uint64Exactly(ws: seq<Byte>, digits: seq<Byte>, rest: seq<Byte>)
    requires (forall c <- ws :: IsSpace(c)) && digits != [] && Digits(digits) && Stops(rest)
    ensures var s := ws + (digits + rest);
            && Uint64Of(s) == Value(Magnitude(digits) % TWO64)
            && (Uint64Of(s) == Value(Magnitude(digits)) <==> Magnitude(digits) < TWO64)
            && Uint64Left(s) == rest
  {
    hide AcceptUint64, Scan, Magnitude, SpaceCount;
    assert digits[0] in digits;
    SpacesSkipped(ws, digits + rest);
    assert [] + digits == digits;
    MagnitudeNone();
    ScanDigitsU64([], digits, rest, false);
    assert (digits + rest)[|digits|..] == rest;
    MagnitudeGrows([], digits);
  }

  // Without digits it is an error, and nothing but the white space is taken.
  lemma Uint64NoDigits(ws: seq<Byte>, rest: seq<Byte>)
    requires (forall c <- ws :: IsSpace(c)) && Stops(rest) && (rest == [] || !IsSpace(rest[0]))
    ensures Uint64Of(ws + rest) == RangeError && Uint64Left(ws + rest) == rest
  {
    hide SpaceCount;
    SpacesSkipped(ws, rest);
  }

  // 20000000000000000000 is read as another number here, too.
  lemma Uint64Wraps()
    ensures exists digits: seq<Byte> ::
              && Digits(digits) && Magnitude(digits) == 20_000_000_000_000_000_000
              && Uint64Of(digits) == Value(1_553_255_926_290_448_384)
  {
    hide Magnitude;
    var digits := DigitAndZeros(2, 18);
    MagnitudeSnoc(digits, ZERO);
    var all := digits + [ZERO];
    assert [] + (all + []) == all;
    Uint64Exactly([], all, []);
    assert Digits(all) && Magnitude(all) == 20_000_000_000_000_000_000;
  }

  lemma NarrowUnsignedExactly(ws: seq<Byte>, digits: seq<Byte>, rest: seq<Byte>, max: int)
    requires (forall c <- ws :: IsSpace(c)) && digits != [] && Digits(digits) && Stops(rest)
    ensures var r := InRange(Uint64Of(ws + (digits + rest)), 0, max);
            var m := Magnitude(digits);
            && r == (if m % TWO64 <= max then Value(m % TWO64) else RangeError)
            && (r == Value(m) <==> m < TWO64 && m <= max)
            && (m < TWO64 ==> r == if m <= max then Value(m) else RangeError)
  {
    hide Magnitude, SpaceCount;
    Uint64Exactly(ws, digits, rest);
    MagnitudeIsNat(digits);
  }
}
