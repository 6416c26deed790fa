/** HTTP headers: a map ordered by a comparison that ignores ASCII case. */
module HttpHeaders {
  import opened Bytes

  // A signed eight-bit character.
  type Char = c: int | -128 <= c < 128
  type Text = seq<Char>

  const UPPER_A: Char := 65
  const UPPER_Z: Char := 90
  const SEPARATOR: Text := [44, 32]

  // ---------------------------------------------------------------- the comparison

  function LowerChar(c: Char): Char {
    if UPPER_A <= c <= UPPER_Z then c + 32 else c
  }

  function Lower(s: Text): (r: Text)
    ensures |r| == |s| && forall i :: 0 <= i < |s| ==> r[i] == LowerChar(s[i])
  {
    seq(|s|, i requires 0 <= i < |s| => LowerChar(s[i]))
  }

  // Dictionary order: -1, 0 or 1.
  function Dictionary(a: Text, b: Text): int {
    if a == [] && b == [] then 0
    else if a == [] then -1
    else if b == [] then 1
    else if a[0] < b[0] then -1
    else if a[0] > b[0] then 1
    else Dictionary(a[1..], b[1..])
  }

  method Icmp(left: Text, right: Text) returns (r: int)
    ensures r == Dictionary(Lower(left), Lower(right))
  {
    var i := 0;
    while i < |left|
      invariant 0 <= i <= |left| && i <= |right|
      invariant Dictionary(Lower(left), Lower(right)) == Dictionary(Lower(left)[i..], Lower(right)[i..])
    {
      if i == |right| {
        return 1;
      }
      var l, r := LowerChar(left[i]), LowerChar(right[i]);
      if l > r {
        return 1;
      }
      if l < r {
        return -1;
      }
      assert Lower(left)[i..][1..] == Lower(left)[i + 1..];
      assert Lower(right)[i..][1..] == Lower(right)[i + 1..];
      i := i + 1;
    }
    r := if i < |right| then -1 else 0;
  }

  lemma {:induction false} DictionaryIsOrder(a: Text, b: Text)
    ensures Dictionary(a, b) == 0 <==> a == b
    ensures Dictionary(a, b) == -Dictionary(b, a)
  {
    if a != [] && b != [] && a[0] == b[0] {
      DictionaryIsOrder(a[1..], b[1..]);
      assert a == [a[0]] + a[1..] && b == [b[0]] + b[1..];
    }
  }

  lemma {:induction false} DictionaryIsTransitive(a: Text, b: Text, c: Text)
    requires Dictionary(a, b) < 0 && Dictionary(b, c) < 0
    ensures Dictionary(a, c) < 0
  {
    if a != [] && a[0] == b[0] == c[0] {
      DictionaryIsTransitive(a[1..], b[1..], c[1..]);
    }
  }

  ghost predicate Less(a: Text, b: Text) {
    Dictionary(Lower(a), Lower(b)) < 0
  }

  // Lower-casing changes the letters A to Z, 65 to 90, and no other character.
  lemma LowerIs(s: Text, i: nat)
    requires i < |s|
    ensures |Lower(s)| == |s| && Lower(s)[i] == if 65 <= s[i] <= 90 then s[i] + 32 else s[i]
  {
  }

  // The smaller character at the first difference decides; a proper prefix comes first.
  lemma {:induction false} DictionaryIs(a: Text, b: Text, i: nat)
    requires i <= |a| && i <= |b| && a[..i] == b[..i]
    ensures i < |a| && i < |b| && a[i] < b[i] ==> Dictionary(a, b) == -1 && Dictionary(b, a) == 1
    ensures i == |a| < |b| ==> Dictionary(a, b) == -1 && Dictionary(b, a) == 1
    ensures i == |a| == |b| ==> Dictionary(a, b) == 0
  {
    if i > 0 {
      assert a[0] == a[..i][0] && b[0] == b[..i][0];
      assert a[1..][..i - 1] == a[..i][1..] && b[1..][..i - 1] == b[..i][1..];
      DictionaryIs(a[1..], b[1..], i - 1);
    }
  }

  // The comparison is a strict weak order; names that it does not tell apart are those that are
  // equal without regard to case.
  lemma LessIsStrictWeakOrder(a: Text, b: Text, c: Text)
    ensures !Less(a, a)
    ensures Less(a, b) && Less(b, c) ==> Less(a, c)
    ensures !Less(a, b) && !Less(b, a) <==> Lower(a) == Lower(b)
    ensures !Less(a, b) && !Less(b, c) ==> !Less(a, c)
  {
    hide Dictionary, Lower;
    DictionaryIsOrder(Lower(a), Lower(a));
    DictionaryIsOrder(Lower(a), Lower(b));
    DictionaryIsOrder(Lower(b), Lower(c));
    DictionaryIsOrder(Lower(a), Lower(c));
    if Less(a, b) && Less(b, c) {
      DictionaryIsTransitive(Lower(a), Lower(b), Lower(c));
    }
    if Less(c, b) && Less(b, a) {
      DictionaryIsTransitive(Lower(c), Lower(b), Lower(a));
    }
  }

  // ---------------------------------------------------------------- what a run of changes means

  datatype Change = Add(name: Text, value: Text) | Remove(name: Text) | Clear

  // The values added for a lower-case name since it was last removed, in order.
  function Added(log: seq<Change>, key: Text): seq<Text> {
    if log == [] then [] else Amended(Added(log[..|log| - 1], key), log[|log| - 1], key)
  }

  function Amended(values: seq<Text>, c: Change, key: Text): seq<Text> {
    match c
    case Add(name, value) => if Lower(name) == key then values + [value] else values
    case Remove(name) => if Lower(name) == key then [] else values
    case Clear => []
  }

  // One comma-separated list, as section 3.2.2 of RFC 7230 has it.
  function CommaJoin(values: seq<Text>): Text {
    if values == [] then []
    else if |values| == 1 then values[0]
    else CommaJoin(values[..|values| - 1]) + SEPARATOR + values[|values| - 1]
  }

  // A single value stands alone.
  lemma CommaJoinOne(value: Text)
    ensures CommaJoin([value]) == value
  {
  }

  // Lists are joined by a comma (44) and a space (32).
  lemma {:induction false} CommaJoinIs(a: seq<Text>, b: seq<Text>)
    requires a != [] && b != []
    ensures CommaJoin(a + b) == CommaJoin(a) + [44, 32] + CommaJoin(b)
    decreases |b|
  {
    hide CommaJoin;
    var n := |b| - 1;
    var last := b[n];
    CommaJoinOne(last);
    assert b == b[..n] + [last] && a + b == (a + b[..n]) + [last];
    JoinAfter(a + b[..n], last);
    JoinAfter(b[..n], last);
    if n == 0 {
      assert a + b[..n] == a && b == [last];
    } else {
      CommaJoinIs(a, b[..n]);
      assert SEPARATOR == [44, 32];
    }
  }

  datatype Entry = Entry(name: Text, value: Text)

  ghost predicate Sorted(es: seq<Entry>) {
    forall i, j :: 0 <= i < j < |es| ==> Less(es[i].name, es[j].name)
  }

  ghost predicate Holds(es: seq<Entry>, key: Text) {
    exists i :: 0 <= i < |es| && Lower(es[i].name) == key
  }

  // One entry for each name that has values, and its text is the list of all of them.
  ghost predicate Matches(es: seq<Entry>, log: seq<Change>) {
    && (forall i :: 0 <= i < |es| ==> EntryMatches(es[i], log))
    && (forall key :: Added(log, key) != [] ==> Holds(es, key))
  }

  ghost predicate EntryMatches(e: Entry, log: seq<Change>) {
    Added(log, Lower(e.name)) != [] && e.value == CommaJoin(Added(log, Lower(e.name)))
  }

  lemma AddedAfter(log: seq<Change>, c: Change, key: Text)
    ensures Added(log + [c], key) == Amended(Added(log, key), c, key)
  {
    assert (log + [c])[..|log + [c]| - 1] == log;
  }

  lemma AddedEach(log: seq<Change>, c: Change)
    ensures forall key :: Added(log + [c], key) == Amended(Added(log, key), c, key)
  {
    forall key
      ensures Added(log + [c], key) == Amended(Added(log, key), c, key)
    {
      AddedAfter(log, c, key);
    }
  }

  lemma JoinAfter(values: seq<Text>, value: Text)
    ensures CommaJoin(values + [value]) == if values == [] then value else CommaJoin(values) + SEPARATOR + value
  {
    assert (values + [value])[..|values + [value]| - 1] == values;
  }

  // The place of a name: everything before it is less, nothing from it on is.
  ghost predicate IsPlace(es: seq<Entry>, name: Text, i: nat) {
    && i <= |es|
    && (forall k :: 0 <= k < i ==> Less(es[k].name, name))
    && (forall k :: i <= k < |es| ==> !Less(es[k].name, name))
  }

  lemma PlaceFinds(es: seq<Entry>, name: Text, i: nat)
    requires Sorted(es) && IsPlace(es, name, i)
    ensures forall k :: 0 <= k < |es| && Lower(es[k].name) == Lower(name) ==> k == i
    ensures Holds(es, Lower(name)) <==> i < |es| && !Less(name, es[i].name)
    ensures i < |es| && !Less(name, es[i].name) ==> Lower(es[i].name) == Lower(name)
  {
    hide Dictionary, Lower, Less;
    forall k | 0 <= k < |es|
      ensures Lower(es[k].name) == Lower(name) <==> !Less(es[k].name, name) && !Less(name, es[k].name)
    {
      LessIsStrictWeakOrder(es[k].name, name, name);
    }
    forall k | i < k < |es|
      ensures Less(name, es[k].name)
    {
      LessIsStrictWeakOrder(name, es[i].name, es[k].name);
      LessIsStrictWeakOrder(name, es[k].name, es[i].name);
      LessIsStrictWeakOrder(es[k].name, es[i].name, name);
    }
  }

  lemma AppendKeeps(es: seq<Entry>, log: seq<Change>, name: Text, value: Text, i: nat)
    requires Sorted(es) && Matches(es, log)
    requires IsPlace(es, name, i) && i < |es| && !Less(name, es[i].name)
    ensures var es' := es[i := es[i].(value := es[i].value + SEPARATOR + value)];
            Sorted(es') && Matches(es', log + [Add(name, value)])
  {
    hide Dictionary, Lower, Less, Added, CommaJoin, IsPlace;
    var log' := log + [Add(name, value)];
    var es' := es[i := es[i].(value := es[i].value + SEPARATOR + value)];
    PlaceFinds(es, name, i);
    forall k | 0 <= k < |es'|
      ensures EntryMatches(es'[k], log')
    {
      assert EntryMatches(es[k], log);
      AddedAfter(log, Add(name, value), Lower(es[k].name));
      JoinAfter(Added(log, Lower(es[k].name)), value);
    }
    forall key | Added(log', key) != []
      ensures Holds(es', key)
    {
      AddedAfter(log, Add(name, value), key);
      assert es'[i].name == es[i].name;
      if key != Lower(name) {
        var k :| 0 <= k < |es| && Lower(es[k].name) == key;
        assert es'[k].name == es[k].name;
      }
    }
  }

  lemma InsertSorted(es: seq<Entry>, name: Text, value: Text, i: nat)
    requires Sorted(es) && IsPlace(es, name, i) && !(i < |es| && !Less(name, es[i].name))
    ensures Sorted(es[..i] + [Entry(name, value)] + es[i..])
  {
    hide Dictionary, Lower, Less;
    forall k | i <= k < |es|
      ensures Less(name, es[k].name)
    {
      LessIsStrictWeakOrder(name, es[i].name, es[k].name);
    }
  }

  lemma InsertKeeps(es: seq<Entry>, log: seq<Change>, name: Text, value: Text, i: nat)
    requires Sorted(es) && Matches(es, log)
    requires IsPlace(es, name, i) && !(i < |es| && !Less(name, es[i].name))
    ensures var es' := es[..i] + [Entry(name, value)] + es[i..];
            Sorted(es') && Matches(es', log + [Add(name, value)])
  {
    hide Dictionary, Lower, Less, Added, CommaJoin, Sorted;
    var log' := log + [Add(name, value)];
    var es' := es[..i] + [Entry(name, value)] + es[i..];
    PlaceFinds(es, name, i);
    InsertSorted(es, name, value, i);
    assert !Holds(es, Lower(name));
    assert Added(log, Lower(name)) == [];
    AddedAfter(log, Add(name, value), Lower(name));
    JoinAfter([], value);
    forall k | 0 <= k < |es'|
      ensures EntryMatches(es'[k], log')
    {
      if k != i {
        var j := if k < i then k else k - 1;
        assert es'[k] == es[j] && EntryMatches(es[j], log);
        AddedAfter(log, Add(name, value), Lower(es[j].name));
      }
    }
    forall key | Added(log', key) != []
      ensures Holds(es', key)
    {
      AddedAfter(log, Add(name, value), key);
      assert es'[i].name == name;
      if key != Lower(name) {
        var k :| 0 <= k < |es| && Lower(es[k].name) == key;
        assert es'[if k < i then k else k + 1] == es[k];
      }
    }
  }

  lemma AbsentKeeps(es: seq<Entry>, log: seq<Change>, name: Text)
    requires Matches(es, log) && !Holds(es, Lower(name))
    ensures Matches(es, log + [Remove(name)])
  {
    hide Dictionary, Lower, Added, CommaJoin;
    forall i | 0 <= i < |es|
      ensures EntryMatches(es[i], log + [Remove(name)])
    {
      AddedAfter(log, Remove(name), Lower(es[i].name));
    }
    forall key | Added(log + [Remove(name)], key) != []
      ensures Holds(es, key)
    {
      AddedAfter(log, Remove(name), key);
    }
  }

  lemma RemoveKeeps(es: seq<Entry>, log: seq<Change>, name: Text, i: nat)
    requires Sorted(es) && Matches(es, log)
    requires IsPlace(es, name, i) && i < |es| && !Less(name, es[i].name)
    ensures Sorted(es[..i] + es[i + 1..]) && Matches(es[..i] + es[i + 1..], log + [Remove(name)])
  {
    hide Dictionary, Lower, Less, Added, CommaJoin, IsPlace;
    var log' := log + [Remove(name)];
    var es' := es[..i] + es[i + 1..];
    PlaceFinds(es, name, i);
    forall k | 0 <= k < |es'|
      ensures EntryMatches(es'[k], log')
    {
      var j := if k >= i then k + 1 else k;
      assert es'[k] == es[j] && EntryMatches(es[j], log);
      AddedAfter(log, Remove(name), Lower(es[j].name));
    }
    forall key | Added(log', key) != []
      ensures Holds(es', key)
    {
      AddedAfter(log, Remove(name), key);
      var k :| 0 <= k < |es| && Lower(es[k].name) == key;
      assert es'[if k >= i then k - 1 else k] == es[k];
    }
  }

  // ---------------------------------------------------------------- the headers

  class Headers {
    var entries: seq<Entry>
    ghost var log: seq<Change>

    ghost predicate Valid()
      reads this
    {
      Sorted(entries) && Matches(entries, log)
    }

    constructor ()
      ensures Valid() && log == [] && forall key :: Added(log, key) == []
    {
      entries, log := [], [];
    }

    // Where a name is or would be, found with the comparison alone.
    method Place(name: Text) returns (i: nat, found: bool)
      requires Valid()
      ensures IsPlace(entries, name, i)
      ensures found <==> i < |entries| && !Less(name, entries[i].name)
    {
      hide Dictionary, Lower, Less, Matches;
      i := 0;
      var c := -1;
      while i < |entries|
        invariant 0 <= i <= |entries|
        invariant forall k :: 0 <= k < i ==> Less(entries[k].name, name)
      {
        c := Icmp(entries[i].name, name);
        LessIs(entries[i].name, name);
        if c >= 0 {
          break;
        }
        i := i + 1;
      }
      forall k | i <= k < |entries|
        ensures !Less(entries[k].name, name)
      {
        LessIsStrictWeakOrder(entries[i].name, entries[k].name, name);
      }
      if i == |entries| {
        return i, false;
      }
      c := Icmp(name, entries[i].name);
      LessIs(name, entries[i].name);
      found := c >= 0;
    }

    method Has(name: Text) returns (r: bool)
      requires Valid()
      ensures r <==> Added(log, Lower(name)) != []
    {
      hide Dictionary, Lower, Less, Added, CommaJoin, IsPlace;
      var i, found := Place(name);
      PlaceFinds(entries, name, i);
      r := found;
    }

    // The stored value for a name in any case.
    method Find(name: Text) returns (r: seq<Text>)
      requires Valid()
      ensures r == if Added(log, Lower(name)) == [] then [] else [CommaJoin(Added(log, Lower(name)))]
    {
      hide Dictionary, Lower, Less, Added, CommaJoin, IsPlace;
      var i, found := Place(name);
      PlaceFinds(entries, name, i);
      if !found {
        return [];
      }
      assert EntryMatches(entries[i], log);
      r := [entries[i].value];
    }

    method Add(name: Text, value: Text)
      requires Valid()
      modifies this
      ensures Valid() && log == old(log) + [Change.Add(name, value)]
      ensures forall key ::
                Added(log, key) == if key == Lower(name) then old(Added(log, key)) + [value] else old(Added(log, key))
    {
      hide Dictionary, Lower, Less, Added, CommaJoin, Matches, Sorted;
      var i, found := Place(name);
      if found {
        AppendKeeps(entries, log, name, value, i);
        entries := entries[i := entries[i].(value := entries[i].value + SEPARATOR + value)];
      } else {
        InsertKeeps(entries, log, name, value, i);
        entries := entries[..i] + [Entry(name, value)] + entries[i..];
      }
      AddedEach(log, Change.Add(name, value));
      log := log + [Change.Add(name, value)];
    }

    method Remove(name: Text)
      requires Valid()
      modifies this
      ensures Valid() && log == old(log) + [Change.Remove(name)]
      ensures forall key :: Added(log, key) == if key == Lower(name) then [] else old(Added(log, key))
    {
      hide Dictionary, Lower, Less, Added, CommaJoin, Matches, Sorted;
      var i, found := Place(name);
      PlaceFinds(entries, name, i);
      if !found {
        AbsentKeeps(entries, log, name);
      } else {
        RemoveKeeps(entries, log, name, i);
        entries := entries[..i] + entries[i + 1..];
      }
      AddedEach(log, Change.Remove(name));
      log := log + [Change.Remove(name)];
    }

    method Clear()
      requires Valid()
      modifies this
      ensures Valid() && log == old(log) + [Change.Clear]
      ensures forall key :: Added(log, key) == []
    {
      forall key
        ensures Added(log + [Change.Clear], key) == []
      {
        AddedAfter(log, Change.Clear, key);
      }
      entries, log := [], log + [Change.Clear];
    }
  }

  lemma LessIs(a: Text, b: Text)
    ensures Less(a, b) <==> Dictionary(Lower(a), Lower(b)) < 0
  {
  }
}
