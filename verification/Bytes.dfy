/** Stream characters: unsigned bytes, with the two out-of-band results of the
    stream buffer interface kept apart from them. */
module Bytes {
  type Byte = x: int | 0 <= x < 256

  // traits::eof() and traits::requires_async()
  const EOF: int := -1
  const REQUIRES_ASYNC: int := -2

  function Min(a: nat, b: nat): nat {
    if a <= b then a else b
  }

  function Max(a: nat, b: nat): nat {
    if a >= b then a else b
  }

  // Concatenation of a sequence of pieces.
  function Join<T>(pieces: seq<seq<T>>): seq<T> {
    if pieces == [] then [] else pieces[0] + Join(pieces[1..])
  }

  lemma JoinAppend<T>(a: seq<seq<T>>, b: seq<seq<T>>)
    ensures Join(a + b) == Join(a) + Join(b)
  {
    if a == [] {
      assert a + b == b;
    } else {
      assert (a + b)[0] == a[0] && (a + b)[1..] == a[1..] + b;
      JoinAppend(a[1..], b);
    }
  }

  lemma JoinSnoc<T>(a: seq<seq<T>>, s: seq<T>)
    ensures Join(a + [s]) == Join(a) + s
  {
    JoinAppend(a, [s]);
    assert Join([s]) == s + Join<T>([]);
  }
}
