/** One step of the backpressure algorithm: router_update of src/router.c, then
    backlogger_packet_release of src/backlogger.c, and the packets in the queue of the next hop. */
module BprdGradient {
  import opened Basics
  import opened BprdFifo
  import opened BprdTables
  import opened BprdRelease
  import opened BprdRouter

  /** Every commodity has an address and a queue of its own. */
  ghost predicate Separate<A>(clist: seq<Commodity<A>>) {
    forall i, j :: 0 <= i < j < |clist| ==>
      clist[i] != clist[j] && clist[i].addr != clist[j].addr && clist[i].queue != clist[j].queue
  }

  /** truth(a) are the backlogs for destination a: mine first, then those of my neighbours in the order
      of my table.  My records of the neighbours are exact. */
  ghost predicate Exact<A>(clist: seq<Commodity<A>>, nlist: seq<Neighbor<A>>, truth: A -> seq<int>)
    reads nlist, set c | c in clist :: c.queue
  {
    forall i :: 0 <= i < |clist| ==>
      && |truth(clist[i].addr)| == 1 + |nlist| && truth(clist[i].addr)[0] == clist[i].queue.Waiting()
      && forall j :: 0 <= j < |nlist| ==> truth(clist[i].addr)[1 + j] == BacklogAt(nlist[j], clist[i].addr)
  }

  /** k packets went from me to neighbour h. */
  ghost function Passed(qs: seq<int>, h: nat, k: int): seq<int>
    requires 1 + h < |qs|
  {
    qs[0 := qs[0] - k][1 + h := qs[1 + h] + k]
  }

  /** After the update neighbour h is the next hop of commodity i, and its differential is exact. */
  ghost predicate Routed<A>(clist: seq<Commodity<A>>, nlist: seq<Neighbor<A>>, truth: A -> seq<int>, i: nat,
                            choice: Choice)
    reads clist
  {
    && i < |clist| && choice.Hop? && choice.index < |nlist| && |truth(clist[i].addr)| == 1 + |nlist|
    && clist[i].backdiff == truth(clist[i].addr)[0] - truth(clist[i].addr)[1 + choice.index]
  }

  lemma {:induction false} SameBacklog<A>(s: seq<Heard<A>>, n: Neighbor<A>, a: A, b: int)
    requires |s| == |n.clist|
    requires forall i :: 0 <= i < |s| ==> n.clist[i].addr == s[i].addr && n.clist[i].backlog == s[i].backlog
    requires b == var k := FindHeard(s, a); if k < |s| then s[k].backlog else 0
    ensures BacklogAt(n, a) == b
  {
    SameFind(s, n.clist, a);
  }

  lemma {:induction false} FindsMine<A>(clist: seq<Commodity<A>>, i: nat)
    requires Separate(clist) && i < |clist|
    ensures FindMine(clist, clist[i].addr) == i
  {
  }

  /** A commodity with a positive differential has a next hop, towards which the differential is exact. */
  lemma {:induction false} HasHop<A>(me: A, clist: seq<Commodity<A>>, nlist: seq<Neighbor<A>>, choices: seq<Choice>,
                                     was: seq<seq<Heard<A>>>, truth: A -> seq<int>, i: nat)
    requires Separate(clist) && AllSettled(me, clist, nlist, choices) && |was| == |nlist| && i < |clist|
    requires forall j :: 0 <= j < |nlist| ==> Updated(clist, was[j], nlist[j].clist, |nlist[j].clist|)
    requires clist[i].backdiff > 0 && clist[i].backlog == clist[i].queue.Waiting() && Exact(clist, nlist, truth)
    ensures i < |choices| && Routed(clist, nlist, truth, i, choices[i])
  {
    hide Separate, Updated, FindMine, FindHeard, Right, BacklogAt;
    FindsMine(clist, i);
    BestHop(me, clist, nlist, choices, was, i);
  }

  /** The update, and nothing is lost of what is known about the neighbours. */
  method Update<A(==)>(me: A, clist: seq<Commodity<A>>, nlist: seq<Neighbor<A>>, draw: nat -> real,
                       ghost truth: A -> seq<int>)
    returns (aborted: bool, ghost choices: seq<Choice>)
    requires Separate(clist) && Distinct(nlist) && Exact(clist, nlist, truth) && forall k :: draw(k) >= 0.0
    modifies (set c | c in clist)`backlog, (set c | c in clist)`backdiff, (set n | n in nlist)`clist
    ensures !aborted ==> Exact(clist, nlist, truth) && |choices| == |clist|
    ensures !aborted ==> forall i :: 0 <= i < |clist| && clist[i].backdiff > 0 ==>
      Routed(clist, nlist, truth, i, choices[i])
  {
    hide FindHeard, Right, FindMine, Unknown, AllSettled, RoutesOf;
    var routes;
    ghost var was := seq(|nlist|, j requires 0 <= j < |nlist| reads nlist => nlist[j].clist);
    aborted, routes, choices := RouterUpdate(me, clist, nlist, draw);
    if aborted {
      return;
    }
    Settles(me, clist, nlist, choices);
    forall i, j | 0 <= i < |clist| && 0 <= j < |nlist|
      ensures truth(clist[i].addr)[1 + j] == BacklogAt(nlist[j], clist[i].addr)
    {
      SameBacklog(was[j], nlist[j], clist[i].addr, truth(clist[i].addr)[1 + j]);
    }
    assert Exact(clist, nlist, truth);
    forall i | 0 <= i < |clist| && clist[i].backdiff > 0 ensures Routed(clist, nlist, truth, i, choices[i]) {
      HasHop(me, clist, nlist, choices, was, truth, i);
    }
  }

  lemma {:induction false} Settles<A>(me: A, clist: seq<Commodity<A>>, nlist: seq<Neighbor<A>>, choices: seq<Choice>)
    requires AllSettled(me, clist, nlist, choices)
    ensures |choices| == |clist|
  {
  }

  /** One step: update the routes, release packets of one commodity of the largest differential, and let
      them join the queue of its next hop.  If my records of the neighbours are exact, the sum of the
      squared backlogs over me and my neighbours does not rise; it falls if and only if the differential
      is two or more, not the largest of 32 bits, and packets are asked for.  The other queues stay. */
  method Step<A(==)>(me: A, clist: seq<Commodity<A>>, nlist: seq<Neighbor<A>>, draw: nat -> real, count: nat,
                     ghost truth: A -> seq<int>)
    returns (aborted: bool, best: int, ghost choices: seq<Choice>)
    requires Separate(clist) && Distinct(nlist) && ValidQueues(clist) && Exact(clist, nlist, truth)
    requires forall k :: draw(k) >= 0.0
    modifies (set c | c in clist)`backlog, (set c | c in clist)`backdiff, (set n | n in nlist)`clist
    modifies set c | c in clist :: c.queue
    ensures ValidQueues(clist) && -1 <= best < |clist| && (aborted ==> best == -1)
    ensures forall i :: 0 <= i < |clist| && i != best ==> unchanged(clist[i].queue)
    ensures best >= 0 ==> best < |choices| && Routed(clist, nlist, truth, best, choices[best])
    ensures best >= 0 ==> forall i :: 0 <= i < |clist| ==> clist[i].backdiff <= clist[best].backdiff
    ensures best >= 0 ==>
      var qs, h, left := truth(clist[best].addr), choices[best].index, clist[best].queue.Waiting();
      && left <= qs[0] && SumOfSquares(Passed(qs, h, qs[0] - left)) <= SumOfSquares(qs)
      && (SumOfSquares(Passed(qs, h, qs[0] - left)) < SumOfSquares(qs)
          <==> 2 <= clist[best].backdiff < WRAP - 1 && count > 0)
  {
    hide Right, FindHeard, SumOfSquares, Exact, Passed, ReleaseCount, Rulings, Separate, Distinct;
    SeparateQueues(clist);
    best := -1;
    aborted, choices := Update(me, clist, nlist, draw, truth);
    if aborted {
      return;
    }
    ExactMine(clist, nlist, truth);
    best := Release(clist, count);
    if best >= 0 {
      ghost var qs, left := truth(clist[best].addr), clist[best].queue.Waiting();
      Lowered(qs, choices[best].index, clist[best].backdiff, count, left);
    }
  }

  lemma {:induction false} SeparateQueues<A>(clist: seq<Commodity<A>>)
    requires Separate(clist)
    ensures forall i, j :: 0 <= i < |clist| && 0 <= j < |clist| && i != j ==> clist[i].queue != clist[j].queue
  {
  }

  lemma {:induction false} Lowered(qs: seq<int>, h: nat, d: nat, count: nat, left: nat)
    requires 1 + h < |qs| && (forall i :: 0 <= i < |qs| ==> qs[i] >= 0) && 1 <= d == qs[0] - qs[1 + h] < WRAP
    requires left == qs[0] - Min(ReleaseCount(d, count), qs[0])
    ensures left <= qs[0] && SumOfSquares(Passed(qs, h, qs[0] - left)) <= SumOfSquares(qs)
    ensures SumOfSquares(Passed(qs, h, qs[0] - left)) < SumOfSquares(qs) <==> 2 <= d < WRAP - 1 && count > 0
  {
    ReleaseLowersPotential(qs, 0, 1 + h, count, qs[0] - left);
  }

  lemma {:induction false} ExactMine<A>(clist: seq<Commodity<A>>, nlist: seq<Neighbor<A>>, truth: A -> seq<int>)
    requires Exact(clist, nlist, truth)
    ensures forall i :: 0 <= i < |clist| ==>
      && |truth(clist[i].addr)| == 1 + |nlist| && truth(clist[i].addr)[0] == clist[i].queue.Waiting()
      && forall j :: 0 <= j < |truth(clist[i].addr)| ==> truth(clist[i].addr)[j] >= 0
  {
    forall i, j | 0 <= i < |clist| && 0 <= j < |truth(clist[i].addr)| ensures truth(clist[i].addr)[j] >= 0 {
      if j > 0 { assert truth(clist[i].addr)[1 + (j - 1)] == BacklogAt(nlist[j - 1], clist[i].addr); }
    }
  }
}
