/** Printing JSON values by appending to a string. */
module JsonPrinter {
  import opened Decimals
  import opened JsonValue

  // ---------------------------------------------------------------- what is printed

  function HexDigit(n: nat): char
    requires n < 16
  {
    "0123456789ABCDEF"[n]
  }

  function EscapeChar(c: char): string {
    if c == '"' then "\\\""
    else if c == '\\' then "\\\\"
    else if c == BACKSPACE then "\\b"
    else if c == FORM_FEED then "\\f"
    else if c == '\r' then "\\r"
    else if c == '\n' then "\\n"
    else if c == '\t' then "\\t"
    else if c <= 31 as char then "\\u00" + [HexDigit(c as int / 16), HexDigit(c as int % 16)]
    else [c]
  }

  function Escape(s: string): string {
    if s == "" then "" else EscapeChar(s[0]) + Escape(s[1..])
  }

  function Quote(s: string): string {
    "\"" + s + "\""
  }

  // Decimal digits, as the C library prints an unsigned integer.
  function Decimal(n: nat): string {
    (if n < 10 then "" else Decimal(n / 10)) + ["0123456789"[n % 10]]
  }

  function PrintNumber(n: Number): string {
    if n.n < 0 then "-" + Decimal(-n.n) else Decimal(n.n)
  }

  function Print(v: Value): string
    decreases v, 0
  {
    match v
    case Null => "null"
    case Num(n) => PrintNumber(n)
    case Bool(b) => if b then "true" else "false"
    case Str(s, hasEscape) => Quote(if hasEscape then Escape(s) else s)
    case Arr(es) => "[" + PrintElements(es) + "]"
    case Obj(fs, _) => "{" + PrintFields(fs) + "}"
  }

  // Separated by commas.
  function PrintElements(es: seq<Value>): string
    decreases es, 0
  {
    if es == [] then "" else Print(es[0]) + if |es| == 1 then "" else "," + PrintElements(es[1..])
  }

  function PrintField(f: Field): string
    decreases f, 1
  {
    Quote(Escape(f.key)) + ":" + Print(f.value)
  }

  function PrintFields(fs: seq<Field>): string
    decreases fs, 2
  {
    if fs == [] then "" else PrintField(fs[0]) + if |fs| == 1 then "" else "," + PrintFields(fs[1..])
  }

  // ---------------------------------------------------------------- the fast path

  // A string without characters to escape is its own escaped form.
  lemma {:induction false} FastPath(s: string)
    requires forall c <- s :: !NeedsEscape(c)
    ensures Escape(s) == s
  {
    hide EscapeChar, NeedsEscape;
    if s != "" {
      assert s[0] in s;
      PlainChar(s[0]);
      FastPath(s[1..]);
    }
  }

  lemma PlainChar(c: char)
    requires !NeedsEscape(c)
    ensures EscapeChar(c) == [c]
  {
  }

  // With a correct flag it does not matter which path is taken.
  lemma EitherPath(s: string, hasEscape: bool)
    requires FlagOk(s, hasEscape)
    ensures Print(Str(s, hasEscape)) == Quote(Escape(s))
  {
    if !hasEscape {
      FastPath(s);
    }
  }

  // The short escapes, the six-character ones with upper-case digits, and nothing else.
  lemma EscapesAre(c: char)
    ensures EscapeChar('"') == "\\\"" && EscapeChar('\\') == "\\\\" && EscapeChar(8 as char) == "\\b"
    ensures EscapeChar(9 as char) == "\\t" && EscapeChar(10 as char) == "\\n"
    ensures EscapeChar(12 as char) == "\\f" && EscapeChar(13 as char) == "\\r"
    ensures EscapeChar(0 as char) == "\\u0000" && EscapeChar(11 as char) == "\\u000B"
    ensures EscapeChar(27 as char) == "\\u001B" && EscapeChar(31 as char) == "\\u001F"
    ensures c <= 31 as char && c !in [8 as char, 9 as char, 10 as char, 12 as char, 13 as char] ==>
              && |EscapeChar(c)| == 6 && EscapeChar(c)[..4] == "\\u00"
              && EscapeChar(c)[4] in "01" && EscapeChar(c)[5] in "0123456789ABCDEF"
    ensures c > 31 as char && c != '"' && c != '\\' ==> EscapeChar(c) == [c]
  {
  }

  predicate IsBlank(c: char) {
    c == ' ' || c == '\t' || c == '\n' || c == '\r'
  }

  predicate NoBlank(s: string) {
    forall c <- s :: !IsBlank(c)
  }

  // The strings and names in a value are without spaces.
  predicate NoSpaces(v: Value) {
    match v
    case Str(s, _) => ' ' !in s
    case Arr(es) => forall e <- es :: NoSpaces(e)
    case Obj(fs, _) => forall f <- fs :: ' ' !in f.key && NoSpaces(f.value)
    case _ => true
  }

  lemma {:induction false} EscapeNoBlank(s: string)
    requires ' ' !in s
    ensures NoBlank(Escape(s))
  {
    hide EscapeChar;
    if s != "" {
      assert s[0] in s;
      CharNoBlank(s[0]);
      EscapeNoBlank(s[1..]);
    }
  }

  lemma CharNoBlank(c: char)
    requires c != ' '
    ensures NoBlank(EscapeChar(c))
  {
  }

  lemma {:induction false} DecimalNoBlank(n: nat)
    ensures NoBlank(Decimal(n))
  {
    if n >= 10 {
      DecimalNoBlank(n / 10);
    }
  }

  // Printing adds no white space anywhere.
  lemma {:induction false} PrintsCompactly(v: Value)
    requires ValueOk(v) && NoSpaces(v)
    ensures NoBlank(Print(v))
    decreases v, 0
  {
    match v
    case Null =>
    case Num(n) => DecimalNoBlank(if n.n < 0 then -n.n else n.n);
    case Bool(b) =>
    case Str(s, hasEscape) =>
      EitherPath(s, hasEscape);
      EscapeNoBlank(s);
    case Arr(es) => ElementsCompact(es);
    case Obj(fs, _) => FieldsCompact(fs);
  }

  lemma {:induction false} ElementsCompact(es: seq<Value>)
    requires forall e <- es :: ValueOk(e) && NoSpaces(e)
    ensures NoBlank(PrintElements(es))
    decreases es, 1
  {
    hide Print, ValueOk, NoSpaces;
    if es != [] {
      PrintsCompactly(es[0]);
      ElementsCompact(es[1..]);
    }
  }

  lemma {:induction false} FieldsCompact(fs: seq<Field>)
    requires forall f <- fs :: ValueOk(f.value) && ' ' !in f.key && NoSpaces(f.value)
    ensures NoBlank(PrintFields(fs))
    decreases fs, 1
  {
    hide Print, Escape, ValueOk, NoSpaces;
    if fs != [] {
      EscapeNoBlank(fs[0].key);
      PrintsCompactly(fs[0].value);
      FieldsCompact(fs[1..]);
    }
  }

  // ---------------------------------------------------------------- number width

  lemma {:induction false} DecimalLength(n: nat, k: nat)
    requires k > 0 && n < Pow10(k)
    ensures 1 <= |Decimal(n)| <= k
  {
    if n >= 10 {
      DecimalLength(n / 10, k - 1);
    }
  }

  // Digits of the largest 64-bit number, one more, the sign and the terminating null.
  const TEMP_SIZE: nat := 22

  // The temporary buffer of the integer branch is large enough: nothing is truncated.
  lemma NumberFits(n: Number)
    requires NumberOk(n)
    ensures |PrintNumber(n)| + 1 <= 22 == TEMP_SIZE
  {
    assert Pow10(10) == 10_000_000_000;
    assert Pow10(20) == 100_000_000_000_000_000_000;
    DecimalLength(if n.n < 0 then -n.n else n.n, 20);
  }

  // ---------------------------------------------------------------- the printer

  // The string that format functions append to.
  class StringBuffer {
    var text: string

    constructor ()
      ensures text == ""
    {
      text := "";
    }

    method PushBack(c: char)
      modifies this
      ensures text == old(text) + [c]
    {
      text := text + [c];
    }

    method Append(s: string)
      modifies this
      ensures text == old(text) + s
    {
      text := text + s;
    }
  }

  lemma {:induction false} EscapeSnoc(s: string, i: nat)
    requires i < |s|
    ensures Escape(s[..i + 1]) == Escape(s[..i]) + EscapeChar(s[i])
  {
    if i == 0 {
      assert s[..1] == [s[0]] && s[..1][1..] == "" && s[..0] == "";
    } else {
      EscapeSnoc(s[1..], i - 1);
      assert s[..i + 1][1..] == s[1..][..i] && s[..i][1..] == s[1..][..i - 1];
    }
  }

  method AppendEscapeString(str: StringBuffer, escaped: string)
    modifies str
    ensures str.text == old(str.text) + Escape(escaped)
  {
    hide EscapeChar;
    for i := 0 to |escaped|
      invariant str.text == old(str.text) + Escape(escaped[..i])
    {
      EscapeSnoc(escaped, i);
      AppendEscapedChar(str, escaped[i]);
    }
    assert escaped[..|escaped|] == escaped;
  }

  // A backslash and a character.
  method PushPair(str: StringBuffer, c: char)
    modifies str
    ensures str.text == old(str.text) + ['\\', c]
  {
    str.PushBack('\\');
    str.PushBack(c);
  }

  method AppendEscapedChar(str: StringBuffer, ch: char)
    modifies str
    ensures str.text == old(str.text) + EscapeChar(ch)
  {
    if ch == '"' {
      PushPair(str, '"');
    } else if ch == '\\' {
      PushPair(str, '\\');
    } else if ch == BACKSPACE {
      PushPair(str, 'b');
    } else if ch == FORM_FEED {
      PushPair(str, 'f');
    } else if ch == '\r' {
      PushPair(str, 'r');
    } else if ch == '\n' {
      PushPair(str, 'n');
    } else if ch == '\t' {
      PushPair(str, 't');
    } else if ch <= 31 as char {
      PushHex(str, ch as int);
    } else {
      str.PushBack(ch);
    }
  }

  method PushHex(str: StringBuffer, code: int)
    requires 0 <= code < 0x100
    modifies str
    ensures str.text == old(str.text) + ("\\u00" + [HexDigit(code / 16), HexDigit(code % 16)])
  {
    hide HexDigit;
    PushPair(str, 'u');
    str.PushBack('0');
    str.PushBack('0');
    str.PushBack(HexDigit(code / 16));
    str.PushBack(HexDigit(code % 16));
  }

  method FormatString(key: string, str: StringBuffer)
    modifies str
    ensures str.text == old(str.text) + Quote(Escape(key))
  {
    hide Escape;
    str.PushBack('"');
    AppendEscapeString(str, key);
    str.PushBack('"');
  }

  // The integer branch: into a temporary buffer first, then the whole of it.
  method FormatNumber(n: Number, str: StringBuffer)
    requires NumberOk(n)
    modifies str
    ensures str.text == old(str.text) + PrintNumber(n)
  {
    var digits := PrintNumber(n);
    var tempBuffer := digits[..if |digits| < TEMP_SIZE then |digits| else TEMP_SIZE - 1];
    NumberFits(n);
    str.Append(tempBuffer);
  }

  lemma ValueOkParts(v: Value)
    requires ValueOk(v)
    ensures v.Num? ==> NumberOk(v.num)
    ensures v.Str? ==> FlagOk(v.s, v.hasEscape)
    ensures v.Arr? ==> forall e <- v.elements :: ValueOk(e)
    ensures v.Obj? ==> forall f <- v.fields :: ValueOk(f.value)
  {
  }

  method Format(v: Value, str: StringBuffer)
    requires ValueOk(v)
    modifies str
    ensures str.text == old(str.text) + Print(v)
    decreases v, 0
  {
    hide Escape, PrintNumber, PrintElements, PrintFields, ValueOk;
    ValueOkParts(v);
    match v
    case Null => str.Append("null");
    case Num(n) => FormatNumber(n, str);
    case Bool(b) => str.Append(if b then "true" else "false");
    case Str(s, hasEscape) =>
      str.PushBack('"');
      if hasEscape {
        AppendEscapeString(str, s);
      } else {
        str.Append(s);
      }
      str.PushBack('"');
    case Arr(es) => FormatArray(es, str);
    case Obj(fs, _) => FormatObject(fs, str);
  }

  lemma MoreElements(text: string, es: seq<Value>, i: nat)
    requires i < |es|
    ensures text + PrintElements(es[i..]) ==
            if i == |es| - 1 then text + Print(es[i]) else (text + Print(es[i]) + ",") + PrintElements(es[i + 1..])
  {
    assert es[i..][1..] == es[i + 1..];
  }

  lemma MoreFields(text: string, fs: seq<Field>, i: nat)
    requires i < |fs|
    ensures text + PrintFields(fs[i..]) ==
            if i == |fs| - 1 then text + PrintField(fs[i])
            else (text + PrintField(fs[i]) + ",") + PrintFields(fs[i + 1..])
  {
    assert fs[i..][1..] == fs[i + 1..];
  }

  // The loops: all elements but the last with a comma, then the last one.
  method FormatArray(es: seq<Value>, str: StringBuffer)
    requires forall e <- es :: ValueOk(e)
    modifies str
    ensures str.text == old(str.text) + "[" + PrintElements(es) + "]"
    decreases es, 1
  {
    hide Print, PrintElements;
    str.PushBack('[');
    if es == [] {
      NoElements();
    } else {
      ghost var whole := str.text + PrintElements(es);
      var last := |es| - 1;
      assert es[0..] == es;
      for i := 0 to last
        invariant str.text + PrintElements(es[i..]) == whole
      {
        MoreElements(str.text, es, i);
        Format(es[i], str);
        str.PushBack(',');
      }
      MoreElements(str.text, es, last);
      Format(es[last], str);
    }
    str.PushBack(']');
  }

  method FormatObject(fs: seq<Field>, str: StringBuffer)
    requires forall f <- fs :: ValueOk(f.value)
    modifies str
    ensures str.text == old(str.text) + "{" + PrintFields(fs) + "}"
    decreases fs, 2
  {
    hide PrintField, PrintFields;
    str.PushBack('{');
    if fs == [] {
      NoElements();
    } else {
      ghost var whole := str.text + PrintFields(fs);
      var last := |fs| - 1;
      assert fs[0..] == fs;
      for i := 0 to last
        invariant str.text + PrintFields(fs[i..]) == whole
      {
        MoreFields(str.text, fs, i);
        FormatField(fs[i], str);
        str.PushBack(',');
      }
      MoreFields(str.text, fs, last);
      FormatField(fs[last], str);
    }
    str.PushBack('}');
  }

  lemma NoElements()
    ensures PrintElements([]) == "" && PrintFields([]) == ""
  {
  }

  method FormatField(f: Field, str: StringBuffer)
    requires ValueOk(f.value)
    modifies str
    ensures str.text == old(str.text) + PrintField(f)
    decreases f, 1
  {
    hide Print, Escape, Quote, ValueOk;
    FormatString(f.key, str);
    str.PushBack(':');
    Format(f.value, str);
  }

  // value::serialize
  method Serialize(v: Value) returns (text: string)
    requires ValueOk(v)
    ensures text == Print(v)
  {
    var str := new StringBuffer();
    Format(v, str);
    text := str.text;
  }
}
