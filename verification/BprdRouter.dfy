/** router_update of src/router.c: backlogs, differentials, and the next hop of every commodity. */
module BprdRouter {
  import opened Basics
  import opened BprdTables
  import opened BprdTies

  /** The differential towards a neighbour; never below zero. */
  function Differential(mine: Uint32, theirs: Uint32): Uint32 {
    if mine >= theirs then mine - theirs else 0
  }

  /** clist_find on my own list */
  function FindMine<A(==)>(s: seq<Commodity<A>>, a: A): (i: nat)
    ensures i <= |s| && (i < |s| ==> s[i].addr == a) && forall j :: 0 <= j < i ==> s[j].addr != a
  {
    if s == [] || s[0].addr == a then 0 else 1 + FindMine(s[1..], a)
  }

  ghost predicate Distinct<T>(s: seq<T>) {
    forall i, j :: 0 <= i < j < |s| ==> s[i] != s[j]
  }

  // ---------------------------------------------------------------- backlogs

  /** The first loop: every backlog is read off its queue. */
  method UpdateBacklogs<A>(clist: seq<Commodity<A>>)
    modifies (set c | c in clist)`backlog
    ensures forall i :: 0 <= i < |clist| ==> clist[i].backlog == clist[i].queue.Waiting()
  {
    var i := 0;
    while i < |clist|
      invariant i <= |clist|
      invariant forall j :: 0 <= j < i ==> clist[j].backlog == clist[j].queue.Waiting()
    {
      var length := clist[i].queue.Length();
      clist[i].backlog := length;
      i := i + 1;
    }
  }

  // ---------------------------------------------------------------- differentials

  /** A neighbour's list after the update: only the differentials change. */
  ghost predicate Updated<A>(clist: seq<Commodity<A>>, was: seq<Heard<A>>, now: seq<Heard<A>>, n: nat)
    reads (set c | c in clist)`backlog
  {
    && |was| == |now| && n <= |now|
    && (forall i :: 0 <= i < |now| ==> now[i].addr == was[i].addr && now[i].backlog == was[i].backlog)
    && (forall i :: 0 <= i < n ==> var k := FindMine(clist, now[i].addr);
                                   k < |clist| && now[i].backdiff == Differential(clist[k].backlog, now[i].backlog))
  }

  /** Some neighbour announced a commodity that I do not know. */
  ghost predicate Unknown<A>(clist: seq<Commodity<A>>, s: seq<Heard<A>>) {
    exists i :: 0 <= i < |s| && FindMine(clist, s[i].addr) == |clist|
  }

  method UpdateNeighbor<A(==)>(clist: seq<Commodity<A>>, n: Neighbor<A>) returns (aborted: bool)
    modifies n`clist
    ensures aborted <==> Unknown(clist, old(n.clist))
    ensures !aborted ==> Updated(clist, old(n.clist), n.clist, |n.clist|)
  {
    var i := 0;
    while i < |n.clist|
      invariant i <= |n.clist| && Updated(clist, old(n.clist), n.clist, i)
    {
      var h := n.clist[i];
      var k := FindMine(clist, h.addr);
      if k == |clist| {
        assert FindMine(clist, old(n.clist)[i].addr) == |clist|;
        return true;
      }
      n.clist := n.clist[i := h.(backdiff := Differential(clist[k].backlog, h.backlog))];
      i := i + 1;
    }
    forall j | 0 <= j < |old(n.clist)| ensures FindMine(clist, old(n.clist)[j].addr) != |clist| {
      assert FindMine(clist, n.clist[j].addr) < |clist|;
    }
    return false;
  }

  /** The loop over the neighbours; an unknown commodity ends the process. */
  method UpdateDifferentials<A(==)>(clist: seq<Commodity<A>>, nlist: seq<Neighbor<A>>) returns (aborted: bool)
    requires Distinct(nlist)
    modifies (set n | n in nlist)`clist
    ensures aborted <==> exists i :: 0 <= i < |nlist| && Unknown(clist, old(nlist[i].clist))
    ensures !aborted ==> forall i :: 0 <= i < |nlist| ==>
      Updated(clist, old(nlist[i].clist), nlist[i].clist, |nlist[i].clist|)
  {
    var i := 0;
    while i < |nlist|
      invariant i <= |nlist|
      invariant forall j :: i <= j < |nlist| ==> nlist[j].clist == old(nlist[j].clist)
      invariant forall j :: 0 <= j < i ==> !Unknown(clist, old(nlist[j].clist))
      invariant forall j :: 0 <= j < i ==> Updated(clist, old(nlist[j].clist), nlist[j].clist, |nlist[j].clist|)
    {
      var failed := UpdateNeighbor(clist, nlist[i]);
      if failed {
        return true;
      }
      i := i + 1;
    }
    return false;
  }

  // ---------------------------------------------------------------- the next hop

  /** What the scan over the neighbours ends with. */
  datatype Choice = Abort | NoHop | Hop(index: nat, diff: Uint32)

  ghost predicate Lacks<A>(n: Neighbor<A>, a: A)
    reads n
  {
    FindHeard(n.clist, a) == |n.clist|
  }

  ghost predicate IsDestination<A>(n: Neighbor<A>, a: A)
    reads n
  {
    n.bidir && n.addr == a
  }

  ghost function DiffAt<A>(n: Neighbor<A>, a: A): Uint32
    reads n
  {
    var k := FindHeard(n.clist, a);
    if k < |n.clist| then n.clist[k].backdiff else 0
  }

  /** No neighbour before position i ends the scan. */
  ghost predicate ScanReaches<A>(nlist: seq<Neighbor<A>>, a: A, i: nat)
    requires i <= |nlist|
    reads nlist
  {
    forall j :: 0 <= j < i ==> !Lacks(nlist[j], a) && !IsDestination(nlist[j], a)
  }

  /** The choice that router_update owes to a commodity with destination a: it ends the process if a
      neighbour that is reached lacks the commodity; else the destination itself if it is a
      bidirectional neighbour; else a bidirectional neighbour of the largest differential; else none. */
  ghost predicate Right<A>(nlist: seq<Neighbor<A>>, a: A, c: Choice)
    reads nlist
  {
    match c
    case Abort => exists i :: 0 <= i < |nlist| && ScanReaches(nlist, a, i) && Lacks(nlist[i], a)
    case NoHop => ScanReaches(nlist, a, |nlist|) && forall j :: 0 <= j < |nlist| ==> !nlist[j].bidir
    case Hop(i, d) =>
      && i < |nlist| && nlist[i].bidir && !Lacks(nlist[i], a) && d == DiffAt(nlist[i], a)
      && if IsDestination(nlist[i], a) then ScanReaches(nlist, a, i)
         else
           && ScanReaches(nlist, a, |nlist|)
           && forall j :: 0 <= j < |nlist| && nlist[j].bidir ==> DiffAt(nlist[j], a) <= d
  }

  /** The differentials of the bidirectional neighbours, in order. */
  ghost function Weights<A>(nlist: seq<Neighbor<A>>, a: A): seq<nat>
    reads nlist
  {
    if nlist == [] then []
    else
      var k := |nlist| - 1;
      Weights(nlist[..k], a) + if nlist[k].bidir then [DiffAt(nlist[k], a)] else []
  }

  /** The position of candidate c among the neighbours. */
  ghost predicate IsCandidate<A>(nlist: seq<Neighbor<A>>, a: A, c: nat, i: nat)
    requires i < |nlist|
    reads nlist
  {
    nlist[i].bidir && |Weights(nlist[..i], a)| == c
  }

  /** The scan over the neighbours for one commodity.  draw(k) is call k of rand() over RAND_MAX.
      Unless a destination or an error ends it, the scan is the fair single-pass choice of Scan. */
  method ChooseHop<A(==)>(nlist: seq<Neighbor<A>>, a: A, draw: nat -> real, calls: nat)
    returns (choice: Choice, used: nat)
    requires forall k :: draw(k) >= 0.0
    ensures Right(nlist, a, choice) && calls <= used
    ensures ScanReaches(nlist, a, |nlist|) ==>
      var p := Scan(Weights(nlist, a), draw, calls);
      && used == p.1 && (choice == NoHop <==> p.0.chosen == -1)
      && (choice.Hop? ==> choice.diff == p.0.diff && p.0.chosen >= 0 && choice.index < |nlist|
                          && IsCandidate(nlist, a, p.0.chosen, choice.index))
  {
    hide Scan, ScanReaches, Weights, Threshold, FindHeard;
    var num, diffopt, nopt := 0, 0, -1;
    used := calls;
    var i := 0;
    ghost var chosen := -1;
    NoWeights(nlist, a, draw, calls);
    ScanStart(nlist, a);
    while i < |nlist|
      invariant i <= |nlist| && calls <= used && ScanReaches(nlist, a, i) && -1 <= nopt < i
      invariant nopt == -1 ==> num == 0 && diffopt == 0 && forall j :: 0 <= j < i ==> !nlist[j].bidir
      invariant nopt >= 0 ==> num > 0 && nlist[nopt].bidir && diffopt == DiffAt(nlist[nopt], a)
      invariant nopt >= 0 ==> forall j :: 0 <= j < i && nlist[j].bidir ==> DiffAt(nlist[j], a) <= diffopt
      invariant Scan(Weights(nlist[..i], a), draw, calls) == (Pick(diffopt, num, chosen), used)
      invariant (nopt == -1 <==> chosen == -1) && chosen >= -1
      invariant nopt >= 0 ==> IsCandidate(nlist, a, chosen, nopt)
    {
      var n := nlist[i];
      ScanOn(nlist, a, i);
      var k := FindHeard(n.clist, a);
      if k == |n.clist| {
        return Abort, used;
      }
      var backdiff := n.clist[k].backdiff;
      WeightsStep(nlist, a, i);
      FirstDraw();
      if n.bidir {
        if n.addr == a {
          return Hop(i, backdiff), used;
        }
        ScanStep(Weights(nlist[..i], a), backdiff, draw, calls);
        if backdiff >= diffopt {
          num := if backdiff == diffopt then num + 1 else 1;
          if draw(used) >= Threshold(num) {
            nopt, diffopt := i, backdiff;
            chosen := |Weights(nlist[..i], a)|;
          }
          used := used + 1;
        }
      }
      i := i + 1;
    }
    assert nlist[..i] == nlist;
    if nopt >= 0 { ScanOn(nlist, a, nopt); }
    choice := if nopt == -1 then NoHop else Hop(nopt, diffopt);
  }

  lemma {:induction false} ScanStart<A>(nlist: seq<Neighbor<A>>, a: A)
    ensures ScanReaches(nlist, a, 0)
  {
  }

  lemma {:induction false} ScanOn<A>(nlist: seq<Neighbor<A>>, a: A, i: nat)
    requires i < |nlist|
    ensures ScanReaches(nlist, a, i) ==>
      (ScanReaches(nlist, a, i + 1) <==> !Lacks(nlist[i], a) && !IsDestination(nlist[i], a))
    ensures ScanReaches(nlist, a, |nlist|) ==> !Lacks(nlist[i], a) && !IsDestination(nlist[i], a)
  {
  }

  lemma {:induction false} NoWeights<A>(nlist: seq<Neighbor<A>>, a: A, draw: nat -> real, calls: nat)
    ensures Weights(nlist[..0], a) == [] && Scan([], draw, calls) == (Pick(0, 0, -1), calls)
  {
  }

  /** The first of the largest so far is always taken. */
  lemma {:induction false} FirstDraw()
    ensures Threshold(1) == 0.0
  {
  }

  lemma {:induction false} WeightsStep<A>(nlist: seq<Neighbor<A>>, a: A, i: nat)
    requires i < |nlist|
    ensures Weights(nlist[..i + 1], a)
         == if nlist[i].bidir then Weights(nlist[..i], a) + [DiffAt(nlist[i], a)] else Weights(nlist[..i], a)
  {
    assert nlist[..i + 1][..i] == nlist[..i];
  }

  lemma {:induction false} ScanStep(ws: seq<nat>, w: nat, draw: nat -> real, calls: nat)
    ensures var b := Scan(ws, draw, calls);
            Scan(ws + [w], draw, calls) == if w < b.0.diff then b else (Step(b.0, w, |ws|, draw(b.1)), b.1 + 1)
  {
    assert (ws + [w])[..|ws|] == ws;
  }

  // ---------------------------------------------------------------- the whole update

  datatype Route<A> = Route(dst: A, hop: A)

  /** The calls of router_route_update that belong to the choices. */
  ghost function RoutesOf<A>(clist: seq<Commodity<A>>, nlist: seq<Neighbor<A>>, cs: seq<Choice>): seq<Route<A>>
    requires |cs| <= |clist| && forall i :: 0 <= i < |cs| ==> cs[i].Hop? ==> cs[i].index < |nlist|
  {
    if cs == [] then []
    else
      var k := |cs| - 1;
      RoutesOf(clist, nlist, cs[..k]) + if cs[k].Hop? then [Route(clist[k].addr, nlist[cs[k].index].addr)] else []
  }

  /** What the update owes to commodity c: nothing if it is destined to me, else a right choice whose
      differential it stores. */
  ghost predicate Settled<A>(me: A, c: Commodity<A>, nlist: seq<Neighbor<A>>, choice: Choice)
    reads c, nlist
  {
    if c.addr == me then choice == NoHop && c.backdiff == 0
    else !choice.Abort? && Right(nlist, c.addr, choice) && c.backdiff == if choice.Hop? then choice.diff else 0
  }

  ghost predicate AllSettled<A>(me: A, clist: seq<Commodity<A>>, nlist: seq<Neighbor<A>>, choices: seq<Choice>)
    reads clist, nlist
  {
    && |choices| == |clist| && (forall i :: 0 <= i < |clist| ==> Settled(me, clist[i], nlist, choices[i]))
    && (forall i :: 0 <= i < |clist| ==> choices[i].Hop? ==> choices[i].index < |nlist|)
  }

  /** The loop over my commodities. */
  method ChooseHops<A(==)>(me: A, clist: seq<Commodity<A>>, nlist: seq<Neighbor<A>>, draw: nat -> real)
    returns (aborted: bool, routes: seq<Route<A>>, ghost choices: seq<Choice>)
    requires Distinct(clist) && forall k :: draw(k) >= 0.0
    modifies (set c | c in clist)`backdiff
    ensures aborted <==> exists i :: 0 <= i < |clist| && clist[i].addr != me && Right(nlist, clist[i].addr, Abort)
    ensures !aborted ==> AllSettled(me, clist, nlist, choices) && routes == RoutesOf(clist, nlist, choices)
  {
    hide RoutesOf, Weights, Scan, IsCandidate, FindHeard;
    aborted, routes, choices := false, [], [];
    var i, used := 0, 0;
    NoRoutes(clist, nlist);
    while i < |clist|
      invariant i <= |clist| && |choices| == i
      invariant forall j :: 0 <= j < i ==> Settled(me, clist[j], nlist, choices[j])
      invariant forall j :: 0 <= j < i ==> choices[j].Hop? ==> choices[j].index < |nlist|
      invariant forall j :: 0 <= j < i ==> clist[j].addr == me || !Right(nlist, clist[j].addr, Abort)
      invariant routes == RoutesOf(clist, nlist, choices)
    {
      var c := clist[i];
      var choice := NoHop;
      if c.addr != me {
        choice, used := ChooseHop(nlist, c.addr, draw, used);
        if choice == Abort {
          return true, routes, choices;
        }
        OneVerdict(nlist, c.addr, choice);
      }
      c.backdiff := if choice.Hop? then choice.diff else 0;
      if choice.Hop? {
        routes := routes + [Route(c.addr, nlist[choice.index].addr)];
      }
      RoutesStep(clist, nlist, choices, choice);
      choices := choices + [choice];
      i := i + 1;
    }
  }

  lemma {:induction false} NoRoutes<A>(clist: seq<Commodity<A>>, nlist: seq<Neighbor<A>>)
    ensures RoutesOf(clist, nlist, []) == []
  {
  }

  lemma {:induction false} RoutesStep<A>(clist: seq<Commodity<A>>, nlist: seq<Neighbor<A>>, cs: seq<Choice>, c: Choice)
    requires |cs| < |clist| && (forall i :: 0 <= i < |cs| ==> cs[i].Hop? ==> cs[i].index < |nlist|)
    requires c.Hop? ==> c.index < |nlist|
    ensures RoutesOf(clist, nlist, cs + [c])
         == if c.Hop? then RoutesOf(clist, nlist, cs) + [Route(clist[|cs|].addr, nlist[c.index].addr)]
            else RoutesOf(clist, nlist, cs)
  {
    assert (cs + [c])[..|cs|] == cs;
  }

  /** A scan that ends with another result is not owed an abort. */
  lemma {:induction false} OneVerdict<A>(nlist: seq<Neighbor<A>>, a: A, c: Choice)
    requires Right(nlist, a, c) && !c.Abort?
    ensures !Right(nlist, a, Abort)
  {
  }

  /** router_update: with the lock held, my backlogs are the lengths of my queues, every neighbour's
      differential is max(0, mine - theirs), and every commodity of mine is settled; or the process
      ends, exactly if a neighbour announced a commodity that I do not know, or the scan for one of my
      commodities reaches a neighbour that lacks it. */
  method RouterUpdate<A(==)>(me: A, clist: seq<Commodity<A>>, nlist: seq<Neighbor<A>>, draw: nat -> real)
    returns (aborted: bool, routes: seq<Route<A>>, ghost choices: seq<Choice>)
    requires Distinct(clist) && Distinct(nlist) && forall k :: draw(k) >= 0.0
    modifies (set c | c in clist)`backlog, (set c | c in clist)`backdiff, (set n | n in nlist)`clist
    ensures forall i :: 0 <= i < |clist| ==> clist[i].backlog == clist[i].queue.Waiting()
    ensures aborted <==>
      || (exists i :: 0 <= i < |nlist| && Unknown(clist, old(nlist[i].clist)))
      || (exists i :: 0 <= i < |clist| && clist[i].addr != me && old(Right(nlist, clist[i].addr, Abort)))
    ensures !aborted ==>
      forall i :: 0 <= i < |nlist| ==> Updated(clist, old(nlist[i].clist), nlist[i].clist, |nlist[i].clist|)
    ensures !aborted ==> AllSettled(me, clist, nlist, choices) && routes == RoutesOf(clist, nlist, choices)
  {
    hide FindHeard, AllSettled, RoutesOf, Unknown, Right, Updated;
    choices, routes := [], [];
    UpdateBacklogs(clist);
    aborted := UpdateNeighbors(clist, nlist);
    if aborted {
      return;
    }
    aborted, routes, choices := ChooseHops(me, clist, nlist, draw);
  }

  /** The differentials do not change which scans end the process. */
  method UpdateNeighbors<A(==)>(clist: seq<Commodity<A>>, nlist: seq<Neighbor<A>>) returns (aborted: bool)
    requires Distinct(nlist)
    modifies (set n | n in nlist)`clist
    ensures aborted <==> exists i :: 0 <= i < |nlist| && Unknown(clist, old(nlist[i].clist))
    ensures !aborted ==> forall i :: 0 <= i < |nlist| ==>
      Updated(clist, old(nlist[i].clist), nlist[i].clist, |nlist[i].clist|)
    ensures !aborted ==> forall c :: c in clist ==> Right(nlist, c.addr, Abort) == old(Right(nlist, c.addr, Abort))
  {
    hide FindHeard, Unknown;
    aborted := UpdateDifferentials(clist, nlist);
    if aborted {
      return;
    }
    forall c | c in clist ensures Right(nlist, c.addr, Abort) == old(Right(nlist, c.addr, Abort)) {
      var a := c.addr;
      forall j | 0 <= j < |nlist| ensures Lacks(nlist[j], a) == old(Lacks(nlist[j], a)) {
        SameFind(old(nlist[j].clist), nlist[j].clist, a);
      }
      forall i | 0 <= i < |nlist| ensures ScanReaches(nlist, a, i) == old(ScanReaches(nlist, a, i)) {
      }
    }
  }

  /** A search looks at addresses only. */
  lemma {:induction false} SameFind<A>(s: seq<Heard<A>>, t: seq<Heard<A>>, a: A)
    requires |s| == |t| && forall i :: 0 <= i < |s| ==> s[i].addr == t[i].addr
    ensures FindHeard(s, a) == FindHeard(t, a)
  {
    if s == [] || s[0].addr == a {
    } else {
      SameFind(s[1..], t[1..], a);
    }
  }

  ghost function BacklogAt<A>(n: Neighbor<A>, a: A): Uint32
    reads n
  {
    var k := FindHeard(n.clist, a);
    if k < |n.clist| then n.clist[k].backlog else 0
  }

  /** In terms of backlogs: after an update that is not aborted, a commodity that is not destined to
      me goes to its destination if that is a bidirectional neighbour, else to a bidirectional neighbour
      for which max(0, mine - theirs) is largest among all of them, and that value is stored; it goes
      nowhere, and 0 is stored, only if no neighbour is bidirectional. */
  lemma {:induction false} BestHop<A>(me: A, clist: seq<Commodity<A>>, nlist: seq<Neighbor<A>>, choices: seq<Choice>,
                                      was: seq<seq<Heard<A>>>, i: nat)
    requires AllSettled(me, clist, nlist, choices) && |was| == |nlist|
    requires forall j :: 0 <= j < |nlist| ==> Updated(clist, was[j], nlist[j].clist, |nlist[j].clist|)
    requires i < |clist| && FindMine(clist, clist[i].addr) == i && clist[i].addr != me
    ensures var c := clist[i];
            match choices[i]
            case Abort => false
            case NoHop => c.backdiff == 0 && forall j :: 0 <= j < |nlist| ==> !nlist[j].bidir
            case Hop(k, d) =>
              && k < |nlist| && nlist[k].bidir
                && c.backdiff == d == Differential(c.backlog, BacklogAt(nlist[k], c.addr))
              && (nlist[k].addr == c.addr
                  || forall j :: 0 <= j < |nlist| && nlist[j].bidir ==>
                       nlist[j].addr != c.addr && Differential(c.backlog, BacklogAt(nlist[j], c.addr)) <= d)
  {
    var c := clist[i];
    forall j | 0 <= j < |nlist| && !Lacks(nlist[j], c.addr)
      ensures DiffAt(nlist[j], c.addr) == Differential(c.backlog, BacklogAt(nlist[j], c.addr))
    {
      var k := FindHeard(nlist[j].clist, c.addr);
      assert nlist[j].clist[k].addr == c.addr;
    }
    if choices[i].Hop? && nlist[choices[i].index].addr != c.addr {
      forall j | 0 <= j < |nlist| && nlist[j].bidir
        ensures nlist[j].addr != c.addr && Differential(c.backlog, BacklogAt(nlist[j], c.addr)) <= choices[i].diff
      {
        assert !Lacks(nlist[j], c.addr) && !IsDestination(nlist[j], c.addr);
      }
    }
  }
}
