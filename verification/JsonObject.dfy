/** The field store of a JSON object: a vector that is either sorted by key and searched by
    bisection, or kept in insertion order and searched from the front. Both are the same
    finite map. */
module JsonObject {
  import opened JsonValue
  import TokenList

  // ---------------------------------------------------------------- key order

  // Lexicographic order on keys.
  predicate Less(a: string, b: string) {
    b != "" && (a == "" || a[0] < b[0] || (a[0] == b[0] && Less(a[1..], b[1..])))
  }

  lemma {:induction false} LessTotal(a: string, b: string)
    ensures Less(a, b) || a == b || Less(b, a)
    ensures !(Less(a, b) && Less(b, a)) && (a == b ==> !Less(a, b))
  {
    if a != "" && b != "" {
      LessTotal(a[1..], b[1..]);
      assert a == [a[0]] + a[1..] && b == [b[0]] + b[1..];
    }
  }

  lemma {:induction false} LessTransitive(a: string, b: string, c: string)
    requires Less(a, b) && Less(b, c)
    ensures Less(a, c)
  {
    if a != "" && a[0] == b[0] == c[0] {
      LessTransitive(a[1..], b[1..], c[1..]);
    }
  }

  // The smaller character at the first difference decides; a proper prefix comes first.
  lemma {:induction false} LessIs(a: string, b: string, i: nat)
    requires i <= |a| && i <= |b| && a[..i] == b[..i]
    ensures i < |a| && i < |b| && a[i] < b[i] ==> Less(a, b) && !Less(b, a)
    ensures i == |a| < |b| ==> Less(a, b) && !Less(b, a)
  {
    if i > 0 {
      assert a[0] == a[..i][0] && b[0] == b[..i][0];
      assert a[1..][..i - 1] == a[..i][1..] && b[1..][..i - 1] == b[..i][1..];
      LessIs(a[1..], b[1..], i - 1);
    }
  }

  // ---------------------------------------------------------------- the store as a value

  predicate DistinctKeys(fs: seq<Field>) {
    forall i, j :: 0 <= i < j < |fs| ==> fs[i].key != fs[j].key
  }

  predicate Sorted(fs: seq<Field>) {
    forall i, j :: 0 <= i < j < |fs| ==> Less(fs[i].key, fs[j].key)
  }

  predicate StoreOk(fs: seq<Field>, keepOrder: bool) {
    DistinctKeys(fs) && (!keepOrder ==> Sorted(fs))
  }

  // Whether the search from the front has not got there yet.
  predicate Before(f: Field, keepOrder: bool, key: string) {
    if keepOrder then f.key != key else Less(f.key, key)
  }

  // find_insert_location: the first field that is not before the key.
  function Location(fs: seq<Field>, keepOrder: bool, key: string): (i: nat)
    ensures i <= |fs|
  {
    if fs == [] || !Before(fs[0], keepOrder, key) then 0 else 1 + Location(fs[1..], keepOrder, key)
  }

  lemma {:induction false} LocationIs(fs: seq<Field>, keepOrder: bool, key: string, i: nat)
    requires i <= |fs|
    requires forall j :: 0 <= j < i ==> Before(fs[j], keepOrder, key)
    requires i < |fs| ==> !Before(fs[i], keepOrder, key)
    ensures Location(fs, keepOrder, key) == i
  {
    if i > 0 {
      LocationIs(fs[1..], keepOrder, key, i - 1);
    }
  }

  lemma {:induction false} LocationFacts(fs: seq<Field>, keepOrder: bool, key: string)
    ensures var i := Location(fs, keepOrder, key);
            && (forall j :: 0 <= j < i ==> Before(fs[j], keepOrder, key))
            && (i < |fs| ==> !Before(fs[i], keepOrder, key))
  {
    if fs != [] && Before(fs[0], keepOrder, key) {
      LocationFacts(fs[1..], keepOrder, key);
      assert forall j :: 0 < j < |fs| ==> fs[j] == fs[1..][j - 1];
    }
  }

  predicate Holds(fs: seq<Field>, keepOrder: bool, key: string) {
    var i := Location(fs, keepOrder, key);
    i < |fs| && fs[i].key == key
  }

  // operator[]: an entry for the key, with a null value if it is new.
  function Touch(fs: seq<Field>, keepOrder: bool, key: string): seq<Field> {
    var i := Location(fs, keepOrder, key);
    if Holds(fs, keepOrder, key) then fs else fs[..i] + [Field(key, Null)] + fs[i..]
  }

  // operator[] and an assignment to what it returned.
  function Assign(fs: seq<Field>, keepOrder: bool, key: string, v: Value): seq<Field> {
    var ts := Touch(fs, keepOrder, key);
    var i := Location(fs, keepOrder, key);
    if i < |ts| then ts[i := Field(key, v)] else ts
  }

  function Erase(fs: seq<Field>, keepOrder: bool, key: string): seq<Field> {
    var i := Location(fs, keepOrder, key);
    if Holds(fs, keepOrder, key) then fs[..i] + fs[i + 1..] else fs
  }

  // The finite map that the store stands for.
  function AsMap(fs: seq<Field>): map<string, Value> {
    if fs == [] then map[] else AsMap(fs[..|fs| - 1])[fs[|fs| - 1].key := fs[|fs| - 1].value]
  }

  // The map m holds exactly the fields fs.
  ghost predicate Represents(fs: seq<Field>, m: map<string, Value>) {
    && (forall f <- fs :: f.key in m && m[f.key] == f.value)
    && (forall k <- m :: Field(k, m[k]) in fs)
  }

  lemma {:induction false} AsMapFacts(fs: seq<Field>)
    requires DistinctKeys(fs)
    ensures Represents(fs, AsMap(fs))
  {
    if fs != [] {
      var init, last := fs[..|fs| - 1], fs[|fs| - 1];
      AsMapFacts(init);
      assert fs == init + [last];
      assert forall f <- init :: f.key != last.key;
      forall k <- AsMap(fs) ensures Field(k, AsMap(fs)[k]) in fs {
        assert k == last.key || Field(k, AsMap(init)[k]) in init;
      }
    }
  }

  // A search, by bisection or from the front, finds the key exactly if it is in the map.
  lemma SearchIsLookup(fs: seq<Field>, keepOrder: bool, key: string)
    requires StoreOk(fs, keepOrder)
    ensures Holds(fs, keepOrder, key) <==> key in AsMap(fs)
    ensures Holds(fs, keepOrder, key) ==> fs[Location(fs, keepOrder, key)].value == AsMap(fs)[key]
  {
    var i := Location(fs, keepOrder, key);
    LocationFacts(fs, keepOrder, key);
    AsMapFacts(fs);
    if key in AsMap(fs) {
      assert Field(key, AsMap(fs)[key]) in fs;
      LessTotal(key, key);
    }
  }

  lemma SameMap(fs: seq<Field>, m: map<string, Value>)
    requires DistinctKeys(fs) && Represents(fs, m)
    ensures AsMap(fs) == m
  {
    AsMapFacts(fs);
    forall k ensures (k in m <==> k in AsMap(fs)) && (k in m ==> m[k] == AsMap(fs)[k]) {
      if k in m {
        assert Field(k, m[k]) in fs;
      }
      if k in AsMap(fs) {
        assert Field(k, AsMap(fs)[k]) in fs;
      }
    }
  }

  // Inserting a new field at its location.
  lemma InsertKeeps(fs: seq<Field>, keepOrder: bool, f: Field)
    requires StoreOk(fs, keepOrder) && !Holds(fs, keepOrder, f.key)
    ensures var i := Location(fs, keepOrder, f.key);
            var gs := fs[..i] + [f] + fs[i..];
            StoreOk(gs, keepOrder) && AsMap(gs) == AsMap(fs)[f.key := f.value]
  {
    hide Location, AsMap, Holds, DistinctKeys, Sorted, Less;
    var i := Location(fs, keepOrder, f.key);
    NotHeld(fs, keepOrder, f.key);
    InsertDistinct(fs, i, f);
    if !keepOrder {
      InsertSorted(fs, i, f);
    }
  }

  lemma NotHeld(fs: seq<Field>, keepOrder: bool, key: string)
    requires StoreOk(fs, keepOrder) && !Holds(fs, keepOrder, key)
    ensures forall g <- fs :: g.key != key
    ensures var i := Location(fs, keepOrder, key);
            !keepOrder ==> (forall j :: 0 <= j < i ==> Less(fs[j].key, key)) && (i < |fs| ==> !Less(fs[i].key, key))
  {
    LocationFacts(fs, keepOrder, key);
    SearchIsLookup(fs, keepOrder, key);
    AsMapFacts(fs);
  }

  lemma InsertDistinct(fs: seq<Field>, i: nat, f: Field)
    requires DistinctKeys(fs) && i <= |fs| && forall g <- fs :: g.key != f.key
    ensures var gs := fs[..i] + [f] + fs[i..];
            DistinctKeys(gs) && AsMap(gs) == AsMap(fs)[f.key := f.value]
  {
    hide AsMap, DistinctKeys;
    var gs := fs[..i] + [f] + fs[i..];
    AsMapFacts(fs);
    DistinctAfter(fs, i, f);
    SameMap(gs, AsMap(fs)[f.key := f.value]);
  }

  lemma DistinctAfter(fs: seq<Field>, i: nat, f: Field)
    requires DistinctKeys(fs) && i <= |fs| && forall g <- fs :: g.key != f.key
    ensures var gs := fs[..i] + [f] + fs[i..];
            DistinctKeys(gs) && forall g :: g in gs <==> g in fs || g == f
  {
    assert fs == fs[..i] + fs[i..];
  }

  lemma InsertSorted(fs: seq<Field>, i: nat, f: Field)
    requires Sorted(fs) && i <= |fs| && forall g <- fs :: g.key != f.key
    requires (forall j :: 0 <= j < i ==> Less(fs[j].key, f.key)) && (i < |fs| ==> !Less(fs[i].key, f.key))
    ensures Sorted(fs[..i] + [f] + fs[i..])
  {
    forall j | i <= j < |fs| ensures Less(f.key, fs[j].key) {
      LessTotal(fs[i].key, f.key);
      if i < j {
        LessTransitive(f.key, fs[i].key, fs[j].key);
      }
    }
  }

  lemma TouchKeeps(fs: seq<Field>, keepOrder: bool, key: string)
    requires StoreOk(fs, keepOrder)
    ensures var ts := Touch(fs, keepOrder, key);
            && StoreOk(ts, keepOrder)
            && AsMap(ts) == (if key in AsMap(fs) then AsMap(fs) else AsMap(fs)[key := Null])
            && Location(fs, keepOrder, key) < |ts| && ts[Location(fs, keepOrder, key)].key == key
  {
    hide AsMap, Location, StoreOk;
    SearchIsLookup(fs, keepOrder, key);
    if !Holds(fs, keepOrder, key) {
      InsertKeeps(fs, keepOrder, Field(key, Null));
    }
  }

  lemma AssignKeeps(fs: seq<Field>, keepOrder: bool, key: string, v: Value)
    requires StoreOk(fs, keepOrder)
    ensures var gs := Assign(fs, keepOrder, key, v);
            StoreOk(gs, keepOrder) && AsMap(gs) == AsMap(fs)[key := v]
  {
    hide AsMap, Location, Touch;
    TouchKeeps(fs, keepOrder, key);
    ReplaceKeeps(Touch(fs, keepOrder, key), keepOrder, Location(fs, keepOrder, key), v);
  }

  // The other fields are those with other keys.
  lemma Others(fs: seq<Field>, i: nat)
    requires DistinctKeys(fs) && i < |fs|
    ensures forall g :: (g in fs[..i] || g in fs[i + 1..]) <==> (g in fs && g.key != fs[i].key)
  {
    forall g
      ensures (g in fs[..i] || g in fs[i + 1..]) <==> (g in fs && g.key != fs[i].key)
    {
      if g in fs && g.key != fs[i].key {
        var j :| 0 <= j < |fs| && fs[j] == g;
        assert if j < i then fs[..i][j] == g else fs[i + 1..][j - i - 1] == g;
      }
    }
  }

  lemma ReplaceKeeps(ts: seq<Field>, keepOrder: bool, i: nat, v: Value)
    requires StoreOk(ts, keepOrder) && i < |ts|
    ensures var gs := ts[i := Field(ts[i].key, v)];
            StoreOk(gs, keepOrder) && AsMap(gs) == AsMap(ts)[ts[i].key := v]
  {
    hide AsMap, DistinctKeys, StoreOk;
    var f := Field(ts[i].key, v);
    var gs := ts[i := f];
    ReplaceOk(ts, keepOrder, i, v);
    AsMapFacts(ts);
    Others(ts, i);
    assert gs == ts[..i] + [f] + ts[i + 1..];
    SameMap(gs, AsMap(ts)[f.key := v]);
  }

  lemma ReplaceOk(ts: seq<Field>, keepOrder: bool, i: nat, v: Value)
    requires StoreOk(ts, keepOrder) && i < |ts|
    ensures var gs := ts[i := Field(ts[i].key, v)];
            StoreOk(gs, keepOrder) && DistinctKeys(gs) && DistinctKeys(ts)
  {
    hide Less;
  }

  lemma EraseKeeps(fs: seq<Field>, keepOrder: bool, key: string)
    requires StoreOk(fs, keepOrder)
    ensures var gs := Erase(fs, keepOrder, key);
            StoreOk(gs, keepOrder) && AsMap(gs) == AsMap(fs) - {key}
  {
    hide AsMap, StoreOk, Location;
    SearchIsLookup(fs, keepOrder, key);
    if Holds(fs, keepOrder, key) {
      WithoutKeeps(fs, keepOrder, Location(fs, keepOrder, key));
    } else {
      assert AsMap(fs) - {key} == AsMap(fs);
    }
  }

  lemma WithoutKeeps(fs: seq<Field>, keepOrder: bool, i: nat)
    requires StoreOk(fs, keepOrder) && i < |fs|
    ensures var gs := fs[..i] + fs[i + 1..];
            StoreOk(gs, keepOrder) && AsMap(gs) == AsMap(fs) - {fs[i].key}
  {
    hide AsMap, StoreOk, DistinctKeys;
    var gs := fs[..i] + fs[i + 1..];
    WithoutOk(fs, keepOrder, i);
    AsMapFacts(fs);
    Others(fs, i);
    SameMap(gs, AsMap(fs) - {fs[i].key});
  }

  lemma WithoutOk(fs: seq<Field>, keepOrder: bool, i: nat)
    requires StoreOk(fs, keepOrder) && i < |fs|
    ensures StoreOk(fs[..i] + fs[i + 1..], keepOrder) && DistinctKeys(fs[..i] + fs[i + 1..]) && DistinctKeys(fs)
  {
    hide Less;
  }

  // ---------------------------------------------------------------- runs

  datatype Op = Read(key: string) | Write(key: string, v: Value) | Remove(key: string)

  function Do(fs: seq<Field>, keepOrder: bool, op: Op): seq<Field> {
    match op
    case Read(k) => Touch(fs, keepOrder, k)
    case Write(k, v) => Assign(fs, keepOrder, k, v)
    case Remove(k) => Erase(fs, keepOrder, k)
  }

  function Run(fs: seq<Field>, keepOrder: bool, ops: seq<Op>): seq<Field>
    decreases |ops|
  {
    if ops == [] then fs else Run(Do(fs, keepOrder, ops[0]), keepOrder, ops[1..])
  }

  // The same operations on a finite map.
  function RunMap(m: map<string, Value>, ops: seq<Op>): map<string, Value>
    decreases |ops|
  {
    if ops == [] then m
    else
      RunMap(match ops[0]
             case Read(k) => if k in m then m else m[k := Null]
             case Write(k, v) => m[k := v]
             case Remove(k) => m - {k}, ops[1..])
  }

  // Over every run the keys stay distinct and, in sorted mode, strictly increasing; and the
  // store is the map.
  lemma {:induction false} RunIsMap(fs: seq<Field>, keepOrder: bool, ops: seq<Op>)
    requires StoreOk(fs, keepOrder)
    ensures StoreOk(Run(fs, keepOrder, ops), keepOrder)
    ensures AsMap(Run(fs, keepOrder, ops)) == RunMap(AsMap(fs), ops)
    decreases |ops|
  {
    hide StoreOk, Touch, Assign, Erase, AsMap;
    if ops != [] {
      match ops[0] {
        case Read(k) => TouchKeeps(fs, keepOrder, k);
        case Write(k, v) => AssignKeeps(fs, keepOrder, k, v);
        case Remove(k) => EraseKeeps(fs, keepOrder, k);
      }
      RunIsMap(Do(fs, keepOrder, ops[0]), keepOrder, ops[1..]);
    }
  }

  // So the two modes cannot be told apart by looking keys up.
  lemma ModesAgree(sorted: seq<Field>, ordered: seq<Field>, ops: seq<Op>, key: string)
    requires StoreOk(sorted, false) && StoreOk(ordered, true) && AsMap(sorted) == AsMap(ordered)
    ensures var s, o := Run(sorted, false, ops), Run(ordered, true, ops);
            && (Holds(s, false, key) <==> Holds(o, true, key))
            && (Holds(s, false, key) ==> s[Location(s, false, key)].value == o[Location(o, true, key)].value)
  {
    RunIsMap(sorted, false, ops);
    RunIsMap(ordered, true, ops);
    SearchIsLookup(Run(sorted, false, ops), false, key);
    SearchIsLookup(Run(ordered, true, ops), true, key);
  }

  // In keep-order mode a new key goes to the end, and no other operation moves a field.
  lemma InsertionOrder(fs: seq<Field>, key: string, v: Value)
    requires StoreOk(fs, true)
    ensures key !in AsMap(fs) ==> Assign(fs, true, key, v) == fs + [Field(key, v)]
    ensures key in AsMap(fs) ==>
              var gs := Assign(fs, true, key, v);
              |gs| == |fs| && forall i :: 0 <= i < |fs| ==> gs[i].key == fs[i].key
    ensures key in AsMap(fs) ==>
              exists i :: 0 <= i < |fs| && fs[i].key == key && Erase(fs, true, key) == fs[..i] + fs[i + 1..]
  {
    hide AsMap, Location;
    SearchIsLookup(fs, true, key);
    LocationFacts(fs, true, key);
  }

  function Keys(fs: seq<Field>): (ks: seq<string>)
    ensures |ks| == |fs| && forall i :: 0 <= i < |fs| ==> ks[i] == fs[i].key
  {
    seq(|fs|, i requires 0 <= i < |fs| => fs[i].key)
  }

  // A list of keys in the order in which they were first used since they were last removed.
  function KeysAfter(ks: seq<string>, op: Op): seq<string> {
    match op
    case Read(k) => if k in ks then ks else ks + [k]
    case Write(k, _) => if k in ks then ks else ks + [k]
    case Remove(k) => TokenList.Remove(ks, k)
  }

  function RunKeys(ks: seq<string>, ops: seq<Op>): seq<string>
    decreases |ops|
  {
    if ops == [] then ks else RunKeys(KeysAfter(ks, ops[0]), ops[1..])
  }

  lemma StepOrder(fs: seq<Field>, op: Op)
    ensures Keys(Do(fs, true, op)) == KeysAfter(Keys(fs), op)
  {
    hide Keys, Touch, Assign, Erase, Location;
    match op
    case Read(k) => TouchOrder(fs, k);
    case Write(k, v) => AssignOrder(fs, k, v);
    case Remove(k) => EraseOrder(fs, k);
  }

  // In keep-order mode a key is found at its place, or belongs at the end.
  lemma PlaceOfKey(fs: seq<Field>, key: string)
    ensures var i := Location(fs, true, key);
            && (key in Keys(fs) <==> i < |fs|)
            && (i < |fs| ==> Keys(fs)[i] == key && key !in Keys(fs)[..i])
  {
    hide Location;
    LocationFacts(fs, true, key);
    var i := Location(fs, true, key);
    if i < |fs| {
      assert Keys(fs)[i] == key;
    }
  }

  lemma TouchOrder(fs: seq<Field>, key: string)
    ensures Keys(Touch(fs, true, key)) == if key in Keys(fs) then Keys(fs) else Keys(fs) + [key]
  {
    hide Location;
    PlaceOfKey(fs, key);
  }

  lemma AssignOrder(fs: seq<Field>, key: string, v: Value)
    ensures Keys(Assign(fs, true, key, v)) == if key in Keys(fs) then Keys(fs) else Keys(fs) + [key]
  {
    hide Location, Touch;
    TouchOrder(fs, key);
    PlaceOfKey(fs, key);
    if key !in Keys(fs) {
      assert Keys(Touch(fs, true, key))[|fs|] == key;
    }
    assert Keys(Assign(fs, true, key, v)) == Keys(Touch(fs, true, key));
  }

  lemma EraseOrder(fs: seq<Field>, key: string)
    ensures Keys(Erase(fs, true, key)) == TokenList.Remove(Keys(fs), key)
  {
    hide Location, TokenList.Remove;
    PlaceOfKey(fs, key);
    if key in Keys(fs) {
      TokenList.RemoveAt(Keys(fs), key, Location(fs, true, key));
    } else {
      TokenList.RemoveAbsent(Keys(fs), key);
    }
  }

  // Over every run in keep-order mode the fields are in insertion order.
  lemma {:induction false} RunOrder(fs: seq<Field>, ops: seq<Op>)
    ensures Keys(Run(fs, true, ops)) == RunKeys(Keys(fs), ops)
    decreases |ops|
  {
    hide Keys, KeysAfter, Do;
    if ops != [] {
      StepOrder(fs, ops[0]);
      RunOrder(Do(fs, true, ops[0]), ops[1..]);
    }
  }

  // ---------------------------------------------------------------- the class

  datatype Result<T> = Success(value: T) | KeyNotFound

  class Object {
    var elements: seq<Field>
    const keepOrder: bool

    ghost predicate Valid()
      reads this
    {
      StoreOk(elements, keepOrder)
    }

    constructor (keepOrder: bool)
      ensures Valid() && elements == [] && this.keepOrder == keepOrder
    {
      elements := [];
      this.keepOrder := keepOrder;
    }

    method FindInsertLocation(key: string) returns (i: nat)
      requires Valid()
      ensures i == Location(elements, keepOrder, key)
    {
      if keepOrder {
        i := 0;
        while i < |elements| && elements[i].key != key
          invariant i <= |elements|
          invariant forall j :: 0 <= j < i ==> elements[j].key != key
        {
          i := i + 1;
        }
      } else {
        i := LowerBound(key);
      }
      LocationIs(elements, keepOrder, key, i);
    }

    // Bisection for the first key that is not less.
    method LowerBound(key: string) returns (first: nat)
      requires Sorted(elements)
      ensures first <= |elements|
      ensures forall j :: 0 <= j < first ==> Less(elements[j].key, key)
      ensures first < |elements| ==> !Less(elements[first].key, key)
    {
      first := 0;
      var count := |elements|;
      while count > 0
        invariant 0 <= count && first + count <= |elements|
        invariant forall j :: 0 <= j < first ==> Less(elements[j].key, key)
        invariant first + count < |elements| ==> !Less(elements[first + count].key, key)
      {
        var step := count / 2;
        var mid := first + step;
        if Less(elements[mid].key, key) {
          forall j | 0 <= j < mid ensures Less(elements[j].key, key) {
            LessTransitive(elements[j].key, elements[mid].key, key);
          }
          first := mid + 1;
          count := count - (step + 1);
        } else {
          count := step;
        }
      }
    }

    // The position of the key, or the number of elements.
    method FindByKey(key: string) returns (i: nat)
      requires Valid()
      ensures i < |elements| <==> key in AsMap(elements)
      ensures i < |elements| ==> elements[i] == Field(key, AsMap(elements)[key])
      ensures i <= |elements|
    {
      i := FindInsertLocation(key);
      SearchIsLookup(elements, keepOrder, key);
      if i < |elements| && key != elements[i].key {
        i := |elements|;
      }
    }

    method HasField(key: string) returns (found: bool)
      requires Valid()
      ensures found <==> key in AsMap(elements)
    {
      var i := FindByKey(key);
      found := i != |elements|;
    }

    method At(key: string) returns (r: Result<Value>)
      requires Valid()
      ensures r == if key in AsMap(elements) then Success(AsMap(elements)[key]) else KeyNotFound
    {
      var i := FindByKey(key);
      if i == |elements| {
        r := KeyNotFound;
      } else {
        r := Success(elements[i].value);
      }
    }

    // operator[]: the position of the field for this key, which is created if need be.
    method Index(key: string) returns (i: nat)
      requires Valid()
      modifies this
      ensures Valid() && elements == Touch(old(elements), keepOrder, key)
      ensures i == Location(old(elements), keepOrder, key) < |elements| && elements[i].key == key
      ensures AsMap(elements) ==
              if key in old(AsMap(elements)) then old(AsMap(elements)) else old(AsMap(elements))[key := Null]
    {
      TouchKeeps(elements, keepOrder, key);
      i := FindInsertLocation(key);
      if i == |elements| || key != elements[i].key {
        elements := elements[..i] + [Field(key, Null)] + elements[i..];
      }
    }

    // Assignment through the reference that operator[] returned.
    method Put(key: string, v: Value)
      requires Valid()
      modifies this
      ensures Valid() && elements == Assign(old(elements), keepOrder, key, v)
      ensures AsMap(elements) == old(AsMap(elements))[key := v]
    {
      AssignKeeps(elements, keepOrder, key, v);
      var i := Index(key);
      elements := elements[i := Field(key, v)];
    }

    method EraseKey(key: string) returns (r: Result<()>)
      requires Valid()
      modifies this
      ensures Valid() && elements == Erase(old(elements), keepOrder, key)
      ensures r.Success? <==> key in old(AsMap(elements))
      ensures AsMap(elements) == old(AsMap(elements)) - {key}
    {
      EraseKeeps(elements, keepOrder, key);
      SearchIsLookup(elements, keepOrder, key);
      var i := FindInsertLocation(key);
      if i < |elements| && key == elements[i].key {
        elements := elements[..i] + elements[i + 1..];
        r := Success(());
      } else {
        r := KeyNotFound;
      }
    }
  }
}
