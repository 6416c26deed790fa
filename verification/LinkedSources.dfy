/** Cancellation on one thread: sources linked by create_linked_source form a graph, and
    cancelling one source runs the callbacks that cancel the others. */
module LinkedSources {

  // Which sources were ever linked to which.
  type Links<!T> = map<T, set<T>>

  ghost predicate WellFormed<T>(links: Links<T>) {
    forall p <- links :: links[p] <= links.Keys
  }

  ghost predicate Closed<T>(links: Links<T>, S: set<T>) {
    forall p <- S | p in links :: links[p] <= S
  }

  // Everything that can be reached from S over links.
  ghost function Close<T>(links: Links<T>, S: set<T>): set<T>
    requires WellFormed(links) && S <= links.Keys
    decreases links.Keys - S
  {
    var next := S + set p <- S, c <- links[p] :: c;
    if next == S then S else Close(links, next)
  }

  // It is the least set that holds S and is closed under links.
  lemma {:induction false} CloseIsLeast<T>(links: Links<T>, S: set<T>, C: set<T>)
    requires WellFormed(links) && S <= links.Keys
    ensures S <= Close(links, S) <= links.Keys && Closed(links, Close(links, S))
    ensures S <= C && Closed(links, C) ==> Close(links, S) <= C
    decreases links.Keys - S
  {
    var next := S + set p <- S, c <- links[p] :: c;
    if next != S {
      CloseIsLeast(links, next, C);
    }
  }

  class Source {
    var flag: int
    var registrations: seq<Source>   // the sources its callbacks will cancel

    constructor ()
      ensures flag == 0 && registrations == []
    {
      flag, registrations := 0, [];
    }
  }

  ghost function Cancelled(all: set<Source>): set<Source>
    reads all
  {
    set s <- all | s.flag != 0
  }

  // Every link joins known sources; a source that is not cancelled still holds all its
  // callbacks; a cancelled source has cancelled everything linked to it, unless it is one of
  // those in `busy`, whose callbacks are being run further up the call stack.
  ghost predicate Consistent(links: Links<Source>, all: set<Source>, busy: set<Source>)
    reads all
  {
    && links.Keys == all && WellFormed(links)
    && (forall p <- all :: 0 <= p.flag <= 2)
    && (forall p <- all | p.flag == 0 :: (set c <- p.registrations) == links[p])
    && (forall p <- all | p.flag != 0 && p !in busy :: links[p] <= Cancelled(all))
  }

  // Cancels a source and, through its callbacks, everything linked to it.
  method Cancel(s: Source, ghost links: Links<Source>, ghost all: set<Source>, ghost busy: set<Source>)
    requires s in all && Consistent(links, all, busy)
    modifies all
    ensures Consistent(links, all, busy) && s.flag != 0
    ensures old(Cancelled(all)) <= Cancelled(all) <= old(Cancelled(all)) + Close(links, {s})
    ensures forall p <- all :: p.flag == if old(p.flag) == 0 && p.flag != 0 then 2 else old(p.flag)
    decreases all - Cancelled(all), 0
  {
    hide Close, Consistent;
    LinksKnown(links, all, busy);
    ghost var reach := Close(links, {s});
    CloseIsLeast(links, {s}, {});
    if s.flag == 0 {
      var rundown := Begin(s, links, all, busy);
      RunCallbacks(rundown, links, all, busy + {s}, reach);
      End(s, links, all, busy);
    }
  }

  // The flag goes to 1 and the list is emptied.
  method Begin(s: Source, ghost links: Links<Source>, ghost all: set<Source>, ghost busy: set<Source>)
    returns (rundown: seq<Source>)
    requires s in all && s.flag == 0 && Consistent(links, all, busy)
    modifies s
    ensures s.flag == 1 && Consistent(links, all, busy + {s})
    ensures (set c <- rundown) == links[s] && Cancelled(all) == old(Cancelled(all)) + {s}
  {
    s.flag := 1;
    rundown := s.registrations;
    s.registrations := [];
  }

  method End(s: Source, ghost links: Links<Source>, ghost all: set<Source>, ghost busy: set<Source>)
    requires s in all && s.flag == 1 && Consistent(links, all, busy + {s})
    requires forall c <- links[s] :: c.flag != 0
    modifies s`flag
    ensures s.flag == 2 && Consistent(links, all, busy) && Cancelled(all) == old(Cancelled(all))
  {
    s.flag := 2;
    assert Cancelled(all) == old(Cancelled(all));
  }

  // The loop over the callbacks: each of them cancels one linked source.
  method RunCallbacks(rundown: seq<Source>, ghost links: Links<Source>, ghost all: set<Source>,
                      ghost busy: set<Source>, ghost reach: set<Source>)
    requires Consistent(links, all, busy)
    requires reach <= all && Closed(links, reach) && forall c <- rundown :: c in reach
    modifies all
    ensures Consistent(links, all, busy) && forall c <- rundown :: c.flag != 0
    ensures old(Cancelled(all)) <= Cancelled(all) <= old(Cancelled(all)) + reach
    ensures forall p <- all :: p.flag == if old(p.flag) == 0 && p.flag != 0 then 2 else old(p.flag)
    decreases all - Cancelled(all), 1
  {
    hide Close, Consistent, Closed;
    for i := 0 to |rundown|
      invariant Consistent(links, all, busy) && forall c <- rundown[..i] :: c.flag != 0
      invariant old(Cancelled(all)) <= Cancelled(all) <= old(Cancelled(all)) + reach
      invariant forall p <- all :: p.flag == if old(p.flag) == 0 && p.flag != 0 then 2 else old(p.flag)
    {
      LinksKnown(links, all, busy);
      CloseIsLeast(links, {rundown[i]}, reach);
      Cancel(rundown[i], links, all, busy);
    }
  }

  lemma LinksKnown(links: Links<Source>, all: set<Source>, busy: set<Source>)
    requires Consistent(links, all, busy)
    ensures links.Keys == all && WellFormed(links)
  {
  }

  // Cancelling a source when no callback is running: afterwards the cancelled sources are
  // exactly those that can be reached from it or were cancelled before, and the callbacks of
  // every newly cancelled one have been run to the end.
  method CancelSource(s: Source, ghost links: Links<Source>, ghost all: set<Source>)
    requires s in all && Consistent(links, all, {})
    modifies all
    ensures Consistent(links, all, {})
    ensures Cancelled(all) == Close(links, old(Cancelled(all)) + {s})
    ensures forall p <- all :: p.flag == if old(p.flag) == 0 && p.flag != 0 then 2 else old(p.flag)
  {
    hide Close;
    ghost var before := Cancelled(all) + {s};
    Cancel(s, links, all, {});
    CloseIsLeast(links, before, Cancelled(all));
    CloseIsLeast(links, {s}, Close(links, before));
  }

  ghost predicate Meets(ps: seq<Source>, S: set<Source>) {
    exists p <- ps :: p in S
  }

  // Creates a source that is cancelled when any of the given ones is; if one of them already
  // is, the new source is cancelled on the spot.
  method CreateLinkedSource(parents: seq<Source>, ghost links: Links<Source>, ghost all: set<Source>,
                            ghost busy: set<Source>)
    returns (s: Source, ghost links': Links<Source>)
    requires (forall p <- parents :: p in all) && Consistent(links, all, busy)
    modifies all
    ensures fresh(s) && Consistent(links', all + {s}, busy)
    ensures links' == Link(links, parents, s)
    ensures Cancelled(all + {s}) == old(Cancelled(all)) + if Meets(parents, old(Cancelled(all))) then {s} else {}
  {
    hide Consistent, Meets, Cancelled;
    s := AddSource(links, all, busy);
    links' := links[s := {}];
    ghost var was := Cancelled(all);
    NoneMeets(parents[..0], was);
    for i := 0 to |parents|
      invariant links' == Link(links, parents[..i], s) && links'.Keys == all + {s}
      invariant Consistent(links', all + {s}, busy)
      invariant Cancelled(all + {s}) == was + if Meets(parents[..i], was) then {s} else {}
    {
      MeetsSnoc(parents, was, i);
      LinkSnoc(links, parents, s, i);
      links' := RegisterCancel(parents[i], s, links', all + {s}, busy);
    }
    assert parents[..|parents|] == parents;
  }

  // The links with s added behind each of the parents.
  ghost function Link(links: Links<Source>, parents: seq<Source>, s: Source): Links<Source> {
    map p | p in links.Keys + {s} ::
      if p == s then {} else if p in parents then links[p] + {s} else links[p]
  }

  lemma LinkSnoc(links: Links<Source>, ps: seq<Source>, s: Source, i: nat)
    requires i < |ps| && ps[i] in links && ps[i] != s
    ensures var l := Link(links, ps[..i], s);
            ps[i] in l && l[s] == {} && Link(links, ps[..i + 1], s) == l[ps[i] := l[ps[i]] + {s}]
  {
    assert ps[..i + 1] == ps[..i] + [ps[i]];
  }

  method AddSource(ghost links: Links<Source>, ghost all: set<Source>, ghost busy: set<Source>) returns (s: Source)
    requires Consistent(links, all, busy)
    ensures fresh(s) && s.flag == 0 && links.Keys == all
    ensures links[s := {}] == Link(links, [], s)
    ensures Consistent(links[s := {}], all + {s}, busy) && Cancelled(all + {s}) == Cancelled(all)
  {
    s := new Source();
  }

  lemma NoneMeets(ps: seq<Source>, S: set<Source>)
    requires ps == []
    ensures !Meets(ps, S)
  {
  }

  lemma MeetsSnoc(ps: seq<Source>, S: set<Source>, i: nat)
    requires i < |ps|
    ensures Meets(ps[..i + 1], S) <==> Meets(ps[..i], S) || ps[i] in S
  {
    assert ps[..i + 1] == ps[..i] + [ps[i]];
  }

  lemma CloseOfLeaf(links: Links<Source>, s: Source)
    requires WellFormed(links) && s in links && links[s] == {}
    ensures Close(links, {s}) == {s}
  {
  }

  // Registers the callback that cancels s with the token of p: at once if p is cancelled.
  method RegisterCancel(p: Source, s: Source, ghost links: Links<Source>, ghost all: set<Source>,
                        ghost busy: set<Source>)
    returns (ghost links': Links<Source>)
    requires p in all && s in all && p != s && Consistent(links, all, busy) && links[s] == {}
    modifies all
    ensures links' == links[p := links[p] + {s}] && Consistent(links', all, busy)
    ensures Cancelled(all) == old(Cancelled(all)) + if p in old(Cancelled(all)) then {s} else {}
  {
    hide Close, Closed;
    links' := links[p := links[p] + {s}];
    if p.flag != 0 {
      CloseOfLeaf(links', s);
      Cancel(s, links', all, busy + {p});
    } else {
      p.registrations := p.registrations + [s];
    }
  }
}
