/** The hand-written singly linked list in which a cancellation token keeps its registrations. */
module TokenList {

  // The sequence without the first occurrence of x.
  function Remove<T(==)>(s: seq<T>, x: T): seq<T> {
    if s == [] then [] else if s[0] == x then s[1..] else [s[0]] + Remove(s[1..], x)
  }

  lemma {:induction false} RemoveAt<T>(s: seq<T>, x: T, i: nat)
    requires i < |s| && s[i] == x && x !in s[..i]
    ensures Remove(s, x) == s[..i] + s[i + 1..]
  {
    if s[0] == x {
    } else {
      assert s[..i] == [s[0]] + s[1..][..i - 1];
      RemoveAt(s[1..], x, i - 1);
    }
  }

  lemma {:induction false} RemoveAbsent<T>(s: seq<T>, x: T)
    requires x !in s
    ensures Remove(s, x) == s
  {
    if s != [] {
      RemoveAbsent(s[1..], x);
    }
  }

  class Node<T> {
    var token: T
    var next: Node?<T>

    constructor (token: T)
      ensures this.token == token && next == null
    {
      this.token, next := token, null;
    }
  }

  class TokenRegistrationContainer<T(==)> {
    var begin: Node?<T>
    var last: Node?<T>

    ghost var Contents: seq<T>
    ghost var nodes: seq<Node<T>>
    ghost var Repr: set<Node<T>>

    ghost predicate Valid()
      reads this, Repr
    {
      && begin == NodeAt(nodes, 0)
      && last == (if nodes == [] then null else nodes[|nodes| - 1])
      && Within(nodes, Repr)
      && Chain(nodes, Contents)
    }

    // The nodes are distinct, linked in order, and carry the tokens s.
    static ghost predicate Chain(ns: seq<Node<T>>, s: seq<T>)
      reads ns
    {
      Carry(ns, s) && Linked(ns) && Distinct(ns)
    }

    static ghost predicate Within(ns: seq<Node<T>>, repr: set<Node<T>>) {
      forall i :: 0 <= i < |ns| ==> ns[i] in repr
    }

    static ghost predicate Carry(ns: seq<Node<T>>, s: seq<T>)
      reads ns`token
    {
      |s| == |ns| && forall i :: 0 <= i < |ns| ==> ns[i].token == s[i]
    }

    static ghost predicate Linked(ns: seq<Node<T>>)
      reads ns`next
    {
      forall i :: 0 <= i < |ns| ==> ns[i].next == NodeAt(ns, i + 1)
    }

    static ghost predicate Distinct(ns: seq<Node<T>>) {
      forall i, j :: 0 <= i < j < |ns| ==> ns[i] != ns[j]
    }

    static ghost function NodeAt(ns: seq<Node<T>>, i: nat): Node?<T> {
      if i < |ns| then ns[i] else null
    }

    constructor ()
      ensures Valid() && Contents == [] && Repr == {}
    {
      begin, last := null, null;
      Contents, nodes, Repr := [], [], {};
    }

    predicate Empty()
      requires Valid()
      reads this, Repr
      ensures Empty() <==> Contents == []
    {
      begin == null
    }

    method PushBack(token: T)
      requires Valid()
      modifies this, Repr
      ensures Valid() && fresh(Repr - old(Repr))
      ensures Contents == old(Contents) + [token]
    {
      hide Carry, Distinct, Within, Linked;
      var node := new Node(token);
      Snoc(nodes, Contents, Repr, node);
      Append(node);
      Contents, nodes, Repr := Contents + [token], nodes + [node], Repr + {node};
    }

    // Links a new node behind the last one.
    method Append(node: Node<T>)
      requires begin == NodeAt(nodes, 0) && last == (if nodes == [] then null else nodes[|nodes| - 1])
      requires Linked(nodes) && Distinct(nodes) && node !in nodes && node.next == null
      requires Within(nodes, Repr)
      modifies `begin, `last, Repr`next
      ensures begin == NodeAt(nodes + [node], 0) && last == node && Linked(nodes + [node])
    {
      if begin == null {
        begin := node;
      } else {
        last.next := node;
      }
      last := node;
    }

    static lemma Snoc(ns: seq<Node<T>>, s: seq<T>, repr: set<Node<T>>, node: Node<T>)
      requires Carry(ns, s) && Distinct(ns) && Within(ns, repr) && node !in repr
      ensures Carry(ns + [node], s + [node.token]) && Distinct(ns + [node])
      ensures Within(ns + [node], repr + {node}) && node !in ns
    {
    }

    // Unlinks the first node that carries the token, if there is one.
    method RemoveToken(token: T)
      requires Valid()
      modifies this, Repr
      ensures Valid() && Repr == old(Repr)
      ensures Contents == Remove(old(Contents), token)
    {
      var node := begin;
      var prev: Node?<T> := null;
      ghost var i := 0;
      while node != null
        invariant i <= |nodes| && node == NodeAt(nodes, i)
        invariant prev == if i == 0 then null else nodes[i - 1]
        invariant token !in Contents[..i]
        decreases |nodes| - i
      {
        if node.token == token {
          RemoveAt(Contents, token, i);
          Unlink(prev, node, i);
          return;
        }
        prev := node;
        node := node.next;
        i := i + 1;
      }
      RemoveAbsent(Contents, token);
    }

    method Unlink(prev: Node?<T>, node: Node<T>, ghost i: nat)
      requires Valid() && i < |nodes| && node == nodes[i]
      requires prev == if i == 0 then null else nodes[i - 1]
      modifies this, Repr
      ensures Valid() && Repr == old(Repr)
      ensures Contents == old(Contents[..i] + Contents[i + 1..])
    {
      hide Carry, Distinct, Within, Linked;
      Without(nodes, Contents, Repr, i);
      Bypass(prev, node, i);
      Contents, nodes := Contents[..i] + Contents[i + 1..], nodes[..i] + nodes[i + 1..];
    }

    static lemma Without(ns: seq<Node<T>>, s: seq<T>, repr: set<Node<T>>, i: nat)
      requires Carry(ns, s) && Distinct(ns) && Within(ns, repr) && i < |ns|
      ensures var rest := ns[..i] + ns[i + 1..];
              && |s| == |ns| && Carry(rest, s[..i] + s[i + 1..]) && Distinct(rest) && Within(rest, repr)
    {
    }

    // Links the node before `node` to the one after it.
    method Bypass(prev: Node?<T>, node: Node<T>, ghost i: nat)
      requires i < |nodes| && begin == NodeAt(nodes, 0) && last == nodes[|nodes| - 1]
      requires Linked(nodes) && Distinct(nodes) && node == nodes[i] && Within(nodes, Repr)
      requires prev == if i == 0 then null else nodes[i - 1]
      modifies `begin, `last, Repr`next
      ensures var rest := nodes[..i] + nodes[i + 1..];
              && begin == NodeAt(rest, 0) && Linked(rest)
              && last == (if rest == [] then null else rest[|rest| - 1])
    {
      ghost var rest := nodes[..i] + nodes[i + 1..];
      if prev == null {
        begin := node.next;
      } else {
        prev.next := node.next;
      }
      if node.next == null {
        last := prev;
      }
    }

    // Exchanges the contents of two lists.
    method Swap(other: TokenRegistrationContainer<T>)
      requires Valid() && other.Valid()
      modifies this, other
      ensures Valid() && other.Valid()
      ensures Contents == old(other.Contents) && other.Contents == old(Contents)
      ensures Repr == old(other.Repr) && other.Repr == old(Repr)
    {
      hide Chain, NodeAt, Within;
      other.begin, begin, other.last, last := begin, other.begin, last, other.last;
      Contents, nodes, Repr, other.Contents, other.nodes, other.Repr :=
        other.Contents, other.nodes, other.Repr, Contents, nodes, Repr;
    }

    // The tokens in the order in which for_each visits them.
    method ForEach() returns (visited: seq<T>)
      requires Valid()
      ensures visited == Contents
    {
      var node := begin;
      visited := [];
      while node != null
        invariant |visited| <= |nodes| && node == NodeAt(nodes, |visited|)
        invariant visited == Contents[..|visited|]
        decreases |nodes| - |visited|
      {
        visited := visited + [node.token];
        node := node.next;
      }
    }
  }
}
