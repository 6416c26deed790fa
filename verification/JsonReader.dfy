/** A reader of JSON texts, written from sections 2 to 7 of RFC 8259, and the proof that it
    recovers what the printer printed. Numbers with a fraction or an exponent, and escaped
    surrogates, are outside the values modelled here; the reader refuses them. */
module JsonReader {
  import opened Decimals
  import opened JsonValue
  import opened JsonPrinter

  // A value and the text behind it, or a syntax error.
  datatype Read<T> = Got(value: T, rest: string) | Bad

  // ---------------------------------------------------------------- section 2: white space

  predicate IsWs(c: char) {
    c == ' ' || c == '\t' || c == '\n' || c == '\r'
  }

  function SkipWs(s: string): (r: string)
    ensures |r| <= |s|
  {
    if s != "" && IsWs(s[0]) then SkipWs(s[1..]) else s
  }

  predicate StartsWith(s: string, c: char) {
    s != "" && s[0] == c
  }

  // ---------------------------------------------------------------- section 7: strings

  function HexValue(c: char): int {
    if '0' <= c <= '9' then c as int - '0' as int
    else if 'a' <= c <= 'f' then c as int - 'a' as int + 10
    else if 'A' <= c <= 'F' then c as int - 'A' as int + 10
    else -1
  }

  // The four hex digits behind "\u".
  function ReadHex4(s: string): (r: Read<char>)
    ensures r.Got? ==> |r.rest| < |s|
  {
    if |s| < 4 || HexValue(s[0]) < 0 || HexValue(s[1]) < 0 || HexValue(s[2]) < 0 || HexValue(s[3]) < 0 then Bad
    else
      var n := HexValue(s[0]) * 0x1000 + HexValue(s[1]) * 0x100 + HexValue(s[2]) * 0x10 + HexValue(s[3]);
      if 0xD800 <= n < 0xE000 then Bad else Got(n as char, s[4..])
  }

  // One character of a string: unescaped, or an escape sequence.
  function ReadChar(s: string): (r: Read<char>)
    ensures r.Got? ==> |r.rest| < |s|
  {
    if s == "" || s[0] == '"' || s[0] < ' ' then Bad
    else if s[0] != '\\' then Got(s[0], s[1..])
    else if |s| == 1 then Bad
    else
      match s[1]
      case '"' => Got('"', s[2..])
      case '\\' => Got('\\', s[2..])
      case '/' => Got('/', s[2..])
      case 'b' => Got(8 as char, s[2..])
      case 'f' => Got(12 as char, s[2..])
      case 'n' => Got('\n', s[2..])
      case 'r' => Got('\r', s[2..])
      case 't' => Got('\t', s[2..])
      case 'u' => ReadHex4(s[2..])
      case _ => Bad
  }

  // The characters up to and including the closing quotation mark.
  function ReadChars(s: string): (r: Read<string>)
    ensures r.Got? ==> |r.rest| < |s|
    decreases |s|
  {
    if StartsWith(s, '"') then Got("", s[1..])
    else
      match ReadChar(s)
      case Bad => Bad
      case Got(c, t) =>
        match ReadChars(t)
        case Bad => Bad
        case Got(cs, u) => Got([c] + cs, u)
  }

  // ---------------------------------------------------------------- section 6: numbers

  predicate IsDigit(c: char) {
    '0' <= c <= '9'
  }

  // How many digits the text begins with.
  function DigitCount(s: string): (n: nat)
    ensures n <= |s|
  {
    if s != "" && IsDigit(s[0]) then 1 + DigitCount(s[1..]) else 0
  }

  function DigitValue(c: char): int {
    c as int - '0' as int
  }

  function NatOf(digits: string): int {
    Denoted(digits, DigitValue)
  }

  // A fraction or an exponent.
  predicate StartsFracOrExp(s: string) {
    || (StartsWith(s, '.') && |s| > 1 && IsDigit(s[1]))
    || ((StartsWith(s, 'e') || StartsWith(s, 'E')) &&
        ((|s| > 1 && IsDigit(s[1])) || (|s| > 2 && (s[1] == '+' || s[1] == '-') && IsDigit(s[2]))))
  }

  // int = zero / ( digit1-9 *DIGIT ), so a leading zero stands alone.
  function ReadInt(s: string): (r: Read<int>)
    ensures r.Got? ==> |r.rest| < |s|
  {
    var n := if StartsWith(s, '0') then 1 else DigitCount(s);
    if n == 0 || StartsFracOrExp(s[n..]) then Bad else Got(NatOf(s[..n]), s[n..])
  }

  function ReadNumber(s: string): (r: Read<int>)
    ensures r.Got? ==> |r.rest| < |s|
  {
    if StartsWith(s, '-') then
      match ReadInt(s[1..])
      case Bad => Bad
      case Got(n, t) => Got(-n, t)
    else ReadInt(s)
  }

  // ---------------------------------------------------------------- sections 3 to 5: values

  function ReadLiteral(s: string, word: string, d: Doc): (r: Read<Doc>)
    requires word != ""
    ensures r.Got? ==> |r.rest| < |s|
  {
    if word <= s then Got(d, s[|word|..]) else Bad
  }

  function ReadValue(s: string): (r: Read<Doc>)
    ensures r.Got? ==> |r.rest| < |s|
    decreases |s|, 0
  {
    if s == "" then Bad
    else if s[0] == 'n' then ReadLiteral(s, "null", DNull)
    else if s[0] == 't' then ReadLiteral(s, "true", DBool(true))
    else if s[0] == 'f' then ReadLiteral(s, "false", DBool(false))
    else if s[0] == '"' then
      match ReadChars(s[1..])
      case Bad => Bad
      case Got(cs, t) => Got(DStr(cs), t)
    else if s[0] == '[' then
      var t := SkipWs(s[1..]);
      if StartsWith(t, ']') then Got(DArr([]), t[1..])
      else
        match ReadElements(t)
        case Bad => Bad
        case Got(ds, u) => Got(DArr(ds), u)
    else if s[0] == '{' then
      var t := SkipWs(s[1..]);
      if StartsWith(t, '}') then Got(DObj([]), t[1..])
      else
        match ReadMembers(t)
        case Bad => Bad
        case Got(ms, u) => Got(DObj(ms), u)
    else
      match ReadNumber(s)
      case Bad => Bad
      case Got(n, t) => Got(DNum(n), t)
  }

  // value *( value-separator value ) end-array
  function ReadElements(s: string): (r: Read<seq<Doc>>)
    ensures r.Got? ==> |r.rest| < |s|
    decreases |s|, 1
  {
    match ReadValue(s)
    case Bad => Bad
    case Got(d, t) =>
      var u := SkipWs(t);
      if StartsWith(u, ']') then Got([d], u[1..])
      else if !StartsWith(u, ',') then Bad
      else
        match ReadElements(SkipWs(u[1..]))
        case Bad => Bad
        case Got(ds, w) => Got([d] + ds, w)
  }

  // string name-separator value
  function ReadMember(s: string): (r: Read<Member>)
    ensures r.Got? ==> |r.rest| < |s|
    decreases |s|, 1
  {
    if !StartsWith(s, '"') then Bad
    else
      match ReadChars(s[1..])
      case Bad => Bad
      case Got(name, t) =>
        var u := SkipWs(t);
        if !StartsWith(u, ':') then Bad
        else
          match ReadValue(SkipWs(u[1..]))
          case Bad => Bad
          case Got(d, w) => Got(Member(name, d), w)
  }

  // member *( value-separator member ) end-object
  function ReadMembers(s: string): (r: Read<seq<Member>>)
    ensures r.Got? ==> |r.rest| < |s|
    decreases |s|, 2
  {
    match ReadMember(s)
    case Bad => Bad
    case Got(m, t) =>
      var u := SkipWs(t);
      if StartsWith(u, '}') then Got([m], u[1..])
      else if !StartsWith(u, ',') then Bad
      else
        match ReadMembers(SkipWs(u[1..]))
        case Bad => Bad
        case Got(ms, w) => Got([m] + ms, w)
  }

  // JSON-text = ws value ws
  function ReadText(s: string): Read<Doc> {
    match ReadValue(SkipWs(s))
    case Bad => Bad
    case Got(d, t) => if SkipWs(t) == "" then Got(d, "") else Bad
  }

  // ---------------------------------------------------------------- strings come back

  lemma ReadEscapedChar(c: char, t: string)
    ensures ReadChar(EscapeChar(c) + t) == Got(c, t) && !StartsWith(EscapeChar(c) + t, '"')
  {
    hide ReadHex4, HexDigit;
    var e := EscapeChar(c);
    assert (e + t)[|e|..] == t;
    if |e| == 6 {
      ReadHexEscape(c as int / 16, c as int % 16, t);
      assert (e + t)[2..] == ['0', '0', HexDigit(c as int / 16), HexDigit(c as int % 16)] + t;
    }
  }

  lemma ReadHexEscape(hi: nat, lo: nat, t: string)
    requires hi < 2 && lo < 16
    ensures ReadHex4(['0', '0', HexDigit(hi), HexDigit(lo)] + t) == Got((hi * 16 + lo) as char, t)
  {
    var s := ['0', '0', HexDigit(hi), HexDigit(lo)] + t;
    assert HexValue(HexDigit(hi)) == hi && HexValue(HexDigit(lo)) == lo;
    assert s[4..] == t;
  }

  lemma {:induction false} ReadEscaped(s: string, rest: string)
    ensures ReadChars(Escape(s) + ("\"" + rest)) == Got(s, rest)
  {
    hide EscapeChar, ReadChar;
    if s == "" {
      assert Escape(s) + ("\"" + rest) == "\"" + rest;
      assert ("\"" + rest)[1..] == rest;
    } else {
      var tail := Escape(s[1..]) + ("\"" + rest);
      assert Escape(s) + ("\"" + rest) == EscapeChar(s[0]) + tail;
      ReadEscapedChar(s[0], tail);
      ReadEscaped(s[1..], rest);
      assert [s[0]] + s[1..] == s;
    }
  }

  // ---------------------------------------------------------------- numbers come back

  // The text goes on with characters that belong to a number.
  predicate ContinuesNumber(s: string) {
    (s != "" && IsDigit(s[0])) || StartsFracOrExp(s)
  }

  lemma NatOfSnoc(d: string, c: char)
    ensures NatOf(d + [c]) == NatOf(d) * 10 + DigitValue(c)
  {
    DenotedSnoc(d, c, DigitValue);
  }

  lemma {:induction false} DecimalBack(n: nat)
    ensures var d := Decimal(n);
            && |d| >= 1 && (forall c <- d :: IsDigit(c))
            && NatOf(d) == n
            && (d[0] == '0' ==> n == 0 && |d| == 1)
  {
    var d := Decimal(n);
    var digit := "0123456789"[n % 10];
    assert digit as int == '0' as int + n % 10;
    if n >= 10 {
      DecimalBack(n / 10);
      NatOfSnoc(Decimal(n / 10), digit);
    } else {
      NatOfSnoc("", digit);
    }
  }

  lemma {:induction false} DigitCountBack(d: string, rest: string)
    requires (forall c <- d :: IsDigit(c)) && (rest == "" || !IsDigit(rest[0]))
    ensures DigitCount(d + rest) == |d|
  {
    if d == "" {
      assert d + rest == rest;
    } else {
      assert (d + rest)[1..] == d[1..] + rest;
      DigitCountBack(d[1..], rest);
    }
  }

  lemma ReadIntBack(n: nat, rest: string)
    requires !ContinuesNumber(rest)
    ensures ReadInt(Decimal(n) + rest) == Got(n, rest)
    ensures IsDigit((Decimal(n) + rest)[0])
  {
    var d := Decimal(n);
    DecimalBack(n);
    DigitCountBack(d, rest);
    assert (d + rest)[..|d|] == d && (d + rest)[|d|..] == rest;
  }

  lemma ReadNumberBack(n: Number, rest: string)
    requires !ContinuesNumber(rest)
    ensures ReadNumber(PrintNumber(n) + rest) == Got(n.n, rest)
    ensures var s := PrintNumber(n) + rest; s != "" && (s[0] == '-' || IsDigit(s[0]))
  {
    hide Decimal, DigitCount, NatOf, ReadInt, StartsFracOrExp;
    if n.n < 0 {
      assert (PrintNumber(n) + rest)[1..] == Decimal(-n.n) + rest;
      ReadIntBack(-n.n, rest);
    } else {
      ReadIntBack(n.n, rest);
    }
  }

  // ---------------------------------------------------------------- values come back

  // A printed value begins neither with white space nor with a closing bracket.
  lemma Begins(v: Value, t: string)
    ensures Print(v) != "" && SkipWs(Print(v) + t) == Print(v) + t && !StartsWith(Print(v) + t, ']')
  {
    if v.Num? {
      NumberBegins(v.num);
    }
  }

  lemma NumberBegins(n: Number)
    ensures var s := PrintNumber(n); s != "" && (s[0] == '-' || IsDigit(s[0]))
  {
    ReadNumberBack(n, "");
    assert PrintNumber(n) + "" == PrintNumber(n);
  }

  lemma ReadWordBack(word: string, d: Doc, rest: string)
    requires word != ""
    ensures ReadLiteral(word + rest, word, d) == Got(d, rest)
  {
    assert (word + rest)[|word|..] == rest;
  }

  // The reader recovers the value and leaves the rest of the text untouched.
  lemma {:induction false} ReadBack(v: Value, rest: string)
    requires ValueOk(v) && (v.Num? ==> !ContinuesNumber(rest))
    ensures ReadValue(Print(v) + rest) == Got(Meaning(v), rest)
    decreases v, 0
  {
    hide PrintElements, PrintFields, PrintNumber, Escape, ValueOk, ReadNumber, ReadElements, ReadMembers, ReadChars;
    ValueOkParts(v);
    match v
    case Null => ReadWordBack("null", DNull, rest);
    case Bool(b) => ReadWordBack(if b then "true" else "false", DBool(b), rest);
    case Num(n) => ReadNumberBack(n, rest);
    case Str(cs, hasEscape) => ReadStringBack(cs, hasEscape, rest);
    case Arr(es) => ReadArrayBack(es, rest);
    case Obj(fs, keepOrder) => ReadObjectBack(fs, keepOrder, rest);
  }

  lemma ReadQuoted(cs: string, rest: string)
    ensures var s := Quote(Escape(cs)) + rest; StartsWith(s, '"') && ReadChars(s[1..]) == Got(cs, rest)
  {
    hide Escape, ReadChars;
    ReadEscaped(cs, rest);
    assert (Quote(Escape(cs)) + rest)[1..] == Escape(cs) + ("\"" + rest);
  }

  lemma ReadStringBack(cs: string, hasEscape: bool, rest: string)
    requires FlagOk(cs, hasEscape)
    ensures ReadValue(Print(Str(cs, hasEscape)) + rest) == Got(DStr(cs), rest)
  {
    EitherPath(cs, hasEscape);
    ReadQuoted(cs, rest);
  }

  // White space is never printed in front of a structural character.
  lemma SkipNothing(c: char, rest: string)
    requires c in "[]{},:"
    ensures SkipWs([c] + rest) == [c] + rest && ([c] + rest)[1..] == rest
  {
  }

  lemma PrintedArray(es: seq<Value>, rest: string)
    ensures var s := Print(Arr(es)) + rest; StartsWith(s, '[') && s[1..] == PrintElements(es) + ("]" + rest)
  {
  }

  lemma PrintedObject(fs: seq<Field>, keepOrder: bool, rest: string)
    ensures var s := Print(Obj(fs, keepOrder)) + rest; StartsWith(s, '{') && s[1..] == PrintFields(fs) + ("}" + rest)
  {
  }

  lemma {:induction false} ReadArrayBack(es: seq<Value>, rest: string)
    requires forall e <- es :: ValueOk(e)
    ensures ReadValue(Print(Arr(es)) + rest) == Got(DArr(Meanings(es)), rest)
    decreases es, 2
  {
    hide ReadElements, PrintElements, SkipWs, Meanings;
    var t := PrintElements(es) + ("]" + rest);
    PrintedArray(es, rest);
    if es == [] {
      NoElements();
      assert t == "]" + rest;
      SkipNothing(']', rest);
    } else {
      ElementsBegin(es, "]" + rest);
      ReadElementsBack(es, rest);
    }
  }

  lemma ElementsBegin(es: seq<Value>, t: string)
    requires es != []
    ensures SkipWs(PrintElements(es) + t) == PrintElements(es) + t && !StartsWith(PrintElements(es) + t, ']')
  {
    var more := if |es| == 1 then "" else "," + PrintElements(es[1..]);
    assert PrintElements(es) + t == Print(es[0]) + (more + t);
    Begins(es[0], more + t);
  }

  lemma {:induction false} ReadElementsBack(es: seq<Value>, rest: string)
    requires es != [] && forall e <- es :: ValueOk(e)
    ensures ReadElements(PrintElements(es) + ("]" + rest)) == Got(Meanings(es), rest)
    decreases es, 1
  {
    hide ReadValue, Print, SkipWs;
    var end := "]" + rest;
    if |es| == 1 {
      assert PrintElements(es) == Print(es[0]);
      ReadBack(es[0], end);
      SkipNothing(']', rest);
      assert Meanings(es) == [Meaning(es[0])];
    } else {
      var tail := "," + (PrintElements(es[1..]) + end);
      assert PrintElements(es) + end == Print(es[0]) + tail;
      ReadBack(es[0], tail);
      SkipNothing(',', PrintElements(es[1..]) + end);
      ElementsBegin(es[1..], end);
      ReadElementsBack(es[1..], rest);
    }
  }

  lemma {:induction false} ReadObjectBack(fs: seq<Field>, keepOrder: bool, rest: string)
    requires forall f <- fs :: ValueOk(f.value)
    ensures ReadValue(Print(Obj(fs, keepOrder)) + rest) == Got(DObj(MemberMeanings(fs)), rest)
    decreases fs, 3
  {
    hide ReadMembers, PrintFields, SkipWs, MemberMeanings;
    var t := PrintFields(fs) + ("}" + rest);
    PrintedObject(fs, keepOrder, rest);
    if fs == [] {
      NoElements();
      assert t == "}" + rest;
      SkipNothing('}', rest);
    } else {
      FieldsBegin(fs, "}" + rest);
      ReadMembersBack(fs, rest);
    }
  }

  lemma {:induction false} ReadMemberBack(f: Field, rest: string)
    requires ValueOk(f.value) && !ContinuesNumber(rest)
    ensures ReadMember(PrintField(f) + rest) == Got(Member(f.key, Meaning(f.value)), rest)
    decreases f, 1
  {
    hide Escape, ReadChars, ReadValue, Print, SkipWs, ContinuesNumber, Quote;
    var t := ":" + (Print(f.value) + rest);
    assert PrintField(f) + rest == Quote(Escape(f.key)) + t;
    ReadQuoted(f.key, t);
    SkipNothing(':', Print(f.value) + rest);
    Begins(f.value, rest);
    ReadBack(f.value, rest);
  }

  lemma {:induction false} ReadMembersBack(fs: seq<Field>, rest: string)
    requires fs != [] && forall f <- fs :: ValueOk(f.value)
    ensures ReadMembers(PrintFields(fs) + ("}" + rest)) == Got(MemberMeanings(fs), rest)
    decreases fs, 2
  {
    hide ReadMember, PrintField, SkipWs;
    var end := "}" + rest;
    if |fs| == 1 {
      assert PrintFields(fs) == PrintField(fs[0]);
      ReadMemberBack(fs[0], end);
      SkipNothing('}', rest);
      assert MemberMeanings(fs) == [Member(fs[0].key, Meaning(fs[0].value))];
    } else {
      var tail := "," + (PrintFields(fs[1..]) + end);
      assert PrintFields(fs) + end == PrintField(fs[0]) + tail;
      ReadMemberBack(fs[0], tail);
      SkipNothing(',', PrintFields(fs[1..]) + end);
      FieldsBegin(fs[1..], end);
      ReadMembersBack(fs[1..], rest);
    }
  }

  lemma FieldsBegin(fs: seq<Field>, t: string)
    requires fs != []
    ensures StartsWith(PrintFields(fs) + t, '"') && SkipWs(PrintFields(fs) + t) == PrintFields(fs) + t
  {
  }

  // ---------------------------------------------------------------- the main results

  // serialize() prints a JSON text, and it is the text of that value.
  lemma SerializeReads(v: Value)
    requires ValueOk(v)
    ensures ReadText(Print(v)) == Got(Meaning(v), "")
  {
    assert Print(v) + "" == Print(v);
    Begins(v, "");
    ReadBack(v, "");
  }

  // Two values are printed alike exactly when they compare equal.
  lemma SerializeInjective(v: Value, w: Value)
    requires ValueOk(v) && ValueOk(w)
    ensures Print(v) == Print(w) <==> Equal(v, w)
  {
    SerializeReads(v);
    SerializeReads(w);
    EqualIsSameMeaning(v, w);
    if Equal(v, w) {
      PrintOfMeaning(v, w);
    }
  }

  lemma {:induction false} PrintOfMeaning(v: Value, w: Value)
    requires ValueOk(v) && ValueOk(w) && Meaning(v) == Meaning(w)
    ensures Print(v) == Print(w)
    decreases v, 0
  {
    match v
    case Str(s, hasEscape) =>
      EitherPath(s, hasEscape);
      EitherPath(w.s, w.hasEscape);
    case Arr(es) => ElementsOfMeaning(es, w.elements);
    case Obj(fs, _) => FieldsOfMeaning(fs, w.fields);
    case _ =>
  }

  lemma {:induction false} ElementsOfMeaning(a: seq<Value>, b: seq<Value>)
    requires (forall e <- a :: ValueOk(e)) && (forall e <- b :: ValueOk(e)) && Meanings(a) == Meanings(b)
    ensures PrintElements(a) == PrintElements(b)
    decreases a, 1
  {
    assert |a| == |Meanings(a)| == |b|;
    if a != [] {
      assert Meaning(a[0]) == Meanings(a)[0] == Meaning(b[0]);
      PrintOfMeaning(a[0], b[0]);
      assert Meanings(a[1..]) == Meanings(a)[1..] == Meanings(b[1..]);
      ElementsOfMeaning(a[1..], b[1..]);
    }
  }

  lemma {:induction false} FieldsOfMeaning(a: seq<Field>, b: seq<Field>)
    requires (forall f <- a :: ValueOk(f.value)) && (forall f <- b :: ValueOk(f.value))
    requires MemberMeanings(a) == MemberMeanings(b)
    ensures PrintFields(a) == PrintFields(b)
    decreases a, 1
  {
    assert |a| == |MemberMeanings(a)| == |b|;
    if a != [] {
      assert MemberMeanings(a)[0] == MemberMeanings(b)[0];
      PrintOfMeaning(a[0].value, b[0].value);
      assert MemberMeanings(a[1..]) == MemberMeanings(a)[1..] == MemberMeanings(b[1..]);
      FieldsOfMeaning(a[1..], b[1..]);
    }
  }

  // Printed values can be told apart inside a longer text, too: no text begins with the
  // print-outs of two different values, unless one is a number that the text continues.
  lemma UniquelyDecodable(v: Value, s: string, w: Value, t: string)
    requires ValueOk(v) && ValueOk(w) && Print(v) + s == Print(w) + t
    requires (v.Num? ==> !ContinuesNumber(s)) && (w.Num? ==> !ContinuesNumber(t))
    ensures Equal(v, w) && s == t
  {
    ReadBack(v, s);
    ReadBack(w, t);
    EqualIsSameMeaning(v, w);
  }
}
