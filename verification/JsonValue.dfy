/** JSON values without doubles, as the library stores them, and what they mean. */
module JsonValue {
  const INT64_MIN: int := -0x8000_0000_0000_0000
  const INT64_MAX: int := 0x7fff_ffff_ffff_ffff
  const UINT64_MAX: int := 0xffff_ffff_ffff_ffff

  // Only negative integers are stored as signed.
  datatype Number = Signed(n: int) | Unsigned(n: int)

  datatype Field = Field(key: string, value: Value)

  // `hasEscape` and `keepOrder` steer printing and lookup; they are not part of the value.
  datatype Value =
    | Null
    | Num(num: Number)
    | Bool(b: bool)
    | Str(s: string, hasEscape: bool)
    | Arr(elements: seq<Value>)
    | Obj(fields: seq<Field>, keepOrder: bool)

  function FromInt64(v: int): (r: Number)
    requires INT64_MIN <= v <= INT64_MAX
    ensures NumberOk(r) && r.n == v
  {
    if v < 0 then Signed(v) else Unsigned(v)
  }

  function FromUint64(v: int): (r: Number)
    requires 0 <= v <= UINT64_MAX
    ensures NumberOk(r) && r.n == v
  {
    Unsigned(v)
  }

  // The invariant that the constructors establish.
  predicate NumberOk(n: Number) {
    match n
    case Signed(k) => INT64_MIN <= k < 0
    case Unsigned(k) => 0 <= k <= UINT64_MAX
  }

  // ... and establish for nothing else: there is one stored form for each integer.
  lemma StoredOnce(n: Number)
    ensures NumberOk(n) <==>
            || (INT64_MIN <= n.n <= INT64_MAX && n == FromInt64(n.n))
            || (0 <= n.n <= UINT64_MAX && n == FromUint64(n.n))
  {
  }

  // ---------------------------------------------------------------- escape flag

  const BACKSPACE: char := 8 as char
  const FORM_FEED: char := 12 as char

  predicate NeedsEscape(c: char) {
    c <= 31 as char || c == '"' || c == '\\'
  }

  // The test that sets the flag; where char is signed, bytes from 128 on are below 32 too.
  predicate HasEscapeChars(s: string, charIsSigned: bool) {
    exists c <- s :: c <= 31 as char || (charIsSigned && c >= 128 as char) || c == '"' || c == '\\'
  }

  predicate FlagOk(s: string, hasEscape: bool) {
    (exists c <- s :: NeedsEscape(c)) ==> hasEscape
  }

  // A string value made without stating the flag.
  function FromString(s: string, charIsSigned: bool): (v: Value)
    ensures v.Str? && v.s == s && ValueOk(v)
  {
    Str(s, HasEscapeChars(s, charIsSigned))
  }

  predicate ValueOk(v: Value) {
    match v
    case Num(n) => NumberOk(n)
    case Str(s, hasEscape) => FlagOk(s, hasEscape)
    case Arr(es) => forall e <- es :: ValueOk(e)
    case Obj(fs, _) => forall f <- fs :: ValueOk(f.value)
    case _ => true
  }

  // ---------------------------------------------------------------- equality

  // operator==: same type, then same contents, in order.
  predicate Equal(v: Value, w: Value) {
    match (v, w)
    case (Null, Null) => true
    case (Num(m), Num(n)) => m == n
    case (Bool(a), Bool(b)) => a == b
    case (Str(s, _), Str(t, _)) => s == t
    case (Arr(a), Arr(b)) => |a| == |b| && forall i :: 0 <= i < |a| ==> Equal(a[i], b[i])
    case (Obj(a, _), Obj(b, _)) =>
      |a| == |b| && forall i :: 0 <= i < |a| ==> a[i].key == b[i].key && Equal(a[i].value, b[i].value)
    case _ => false
  }

  // A JSON document, as section 3 of RFC 8259 sees it: numbers are numbers, strings are
  // strings, objects are name/value pairs in order.
  datatype Doc =
    | DNull
    | DNum(n: int)
    | DBool(b: bool)
    | DStr(s: string)
    | DArr(elements: seq<Doc>)
    | DObj(members: seq<Member>)
  datatype Member = Member(name: string, value: Doc)

  function Meaning(v: Value): Doc {
    match v
    case Null => DNull
    case Num(n) => DNum(n.n)
    case Bool(b) => DBool(b)
    case Str(s, _) => DStr(s)
    case Arr(es) => DArr(Meanings(es))
    case Obj(fs, _) => DObj(MemberMeanings(fs))
  }

  function Meanings(es: seq<Value>): (ds: seq<Doc>)
    ensures |ds| == |es| && forall i :: 0 <= i < |es| ==> ds[i] == Meaning(es[i])
  {
    if es == [] then [] else [Meaning(es[0])] + Meanings(es[1..])
  }

  function MemberMeanings(fs: seq<Field>): (ms: seq<Member>)
    ensures |ms| == |fs|
    ensures forall i :: 0 <= i < |fs| ==> ms[i] == Member(fs[i].key, Meaning(fs[i].value))
  {
    if fs == [] then [] else [Member(fs[0].key, Meaning(fs[0].value))] + MemberMeanings(fs[1..])
  }

  // The values that compare equal are those that mean the same document.
  lemma {:induction false} EqualIsSameMeaning(v: Value, w: Value)
    requires ValueOk(v) && ValueOk(w)
    ensures Equal(v, w) <==> Meaning(v) == Meaning(w)
  {
    match (v, w)
    case (Arr(a), Arr(b)) =>
      forall i | 0 <= i < |a| && i < |b| ensures Equal(a[i], b[i]) <==> Meanings(a)[i] == Meanings(b)[i] {
        EqualIsSameMeaning(a[i], b[i]);
      }
    case (Obj(a, _), Obj(b, _)) =>
      forall i | 0 <= i < |a| && i < |b|
        ensures (a[i].key == b[i].key && Equal(a[i].value, b[i].value)) <==>
                MemberMeanings(a)[i] == MemberMeanings(b)[i]
      {
        EqualIsSameMeaning(a[i].value, b[i].value);
      }
    case _ =>
  }
}
