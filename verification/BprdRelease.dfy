/** backlogger_packet_release of src/backlogger.c, and what a release does to the backlogs. */
module BprdRelease {
  import opened Basics
  import opened BprdFifo
  import opened BprdTables

  /** How many packets are asked for: half of the differential, rounded up, in 32-bit arithmetic. */
  function ReleaseCount(diff: nat, count: nat): nat {
    var half := ((diff + 1) % WRAP) / 2;
    if half > count then count else half
  }

  ghost predicate ValidQueues<A>(clist: seq<Commodity<A>>)
    reads set c | c in clist :: c.queue
  {
    forall i :: 0 <= i < |clist| ==> clist[i].queue.Valid()
  }

  /** The scan: the first commodity of the largest positive differential. */
  method Choose<A>(clist: seq<Commodity<A>>) returns (best: int, diffopt: Uint32)
    ensures -1 <= best < |clist|
    ensures best == -1 ==> diffopt == 0 && forall j :: 0 <= j < |clist| ==> clist[j].backdiff == 0
    ensures best >= 0 ==> diffopt == clist[best].backdiff > 0
    ensures best >= 0 ==> forall j :: 0 <= j < |clist| ==>
      clist[j].backdiff <= diffopt && (j < best ==> clist[j].backdiff < diffopt)
  {
    best, diffopt := -1, 0;
    var i := 0;
    while i < |clist|
      invariant i <= |clist| && -1 <= best < i
      invariant best == -1 ==> diffopt == 0 && forall j :: 0 <= j < i ==> clist[j].backdiff == 0
      invariant best >= 0 ==> diffopt == clist[best].backdiff > 0
      invariant best >= 0 ==> forall j :: 0 <= j < i ==>
        clist[j].backdiff <= diffopt && (j < best ==> clist[j].backdiff < diffopt)
    {
      if clist[i].backdiff > diffopt {
        best, diffopt := i, clist[i].backdiff;
      }
      i := i + 1;
    }
  }

  ghost function Min(a: int, b: int): int { if a < b then a else b }

  /** backlogger_packet_release: the oldest packets of one commodity of maximal differential are
      accepted, as many as were asked for or as wait; without a positive differential nothing moves. */
  method Release<A>(clist: seq<Commodity<A>>, count: nat) returns (best: int)
    requires ValidQueues(clist)
    modifies set c | c in clist :: c.queue
    ensures ValidQueues(clist) && -1 <= best < |clist|
    ensures best == -1 ==> forall j :: 0 <= j < |clist| ==> clist[j].backdiff == 0
    ensures best == -1 ==> forall j :: 0 <= j < |clist| ==> unchanged(clist[j].queue)
    ensures best >= 0 ==> forall j :: 0 <= j < |clist| ==> clist[j].backdiff <= clist[best].backdiff
    ensures best >= 0 ==> forall j :: 0 <= j < |clist| && clist[j].queue != clist[best].queue ==>
      unchanged(clist[j].queue)
    ensures best >= 0 ==> clist[best].backdiff > 0
    ensures best >= 0 ==> var q := clist[best].queue;
              && q.tail == old(q.tail)
              && q.head == old(q.head) + Min(ReleaseCount(clist[best].backdiff, count), old(q.Waiting()))
              && q.rulings == old(q.rulings) + Rulings(old(q.head), q.head, Accept)
  {
    var diffopt;
    best, diffopt := Choose(clist);
    if best >= 0 {
      SendSome(clist[best].queue, ReleaseCount(diffopt, count));
    }
  }

  /** The loop that sends count packets, or as many as there are. */
  method SendSome(q: Fifo, count: nat)
    requires q.Valid()
    modifies q`head, q`rulings
    ensures q.Valid() && q.head == old(q.head) + Min(count, old(q.Waiting()))
    ensures q.rulings == old(q.rulings) + Rulings(old(q.head), q.head, Accept)
  {
    var left := count;
    assert Rulings(q.head, q.head, Accept) == [];
    while left > 0
      invariant q.Valid() && 0 <= left <= count
      invariant q.head == old(q.head) + Min(count - left, old(q.Waiting()))
      invariant q.rulings == old(q.rulings) + Rulings(old(q.head), q.head, Accept)
    {
      ghost var was := q.head;
      q.Send();
      if q.head > was {
        assert Rulings(old(q.head), was + 1, Accept) == Rulings(old(q.head), was, Accept) + [Ruling(was + 1, Accept)];
      }
      left := left - 1;
    }
  }

  // ---------------------------------------------------------------- the gradient

  ghost function SumOfSquares(qs: seq<int>): int {
    if qs == [] then 0 else qs[0] * qs[0] + SumOfSquares(qs[1..])
  }

  lemma {:induction false} SquaresUpdate(qs: seq<int>, i: nat, x: int)
    requires i < |qs|
    ensures SumOfSquares(qs[i := x]) == SumOfSquares(qs) - qs[i] * qs[i] + x * x
  {
    if i > 0 {
      SquaresUpdate(qs[1..], i - 1, x);
      assert qs[i := x][1..] == qs[1..][i - 1 := x];
    } else {
      assert qs[0 := x][1..] == qs[1..];
    }
  }

  /** Moving k of the packets of one queue to another, where k is at most half of the difference. */
  lemma {:induction false} Moving(b: int, t: int, k: int)
    requires 0 <= k && b - t >= 1 && 2 * k <= b - t + 1
    ensures (b - k) - (t + k) >= -1
    ensures (b - k) * (b - k) + (t + k) * (t + k) <= b * b + t * t
    ensures k >= 1 && b - t >= 2 <==> (b - k) * (b - k) + (t + k) * (t + k) < b * b + t * t
  {
    var d := b - t;
    Square(b, -k);
    Square(t, k);
    assert b * -k + t * k == -(d * k) by { assert b == d + t; Spread(d, t, -k); }
    Within(k, d);
  }

  lemma {:induction false} Square(x: int, y: int)
    ensures (x + y) * (x + y) == x * x + 2 * (x * y) + y * y
  {
    Spread(x, y, x + y);
    Spread(x, y, x);
    Spread(x, y, y);
  }

  lemma {:induction false} Spread(x: int, y: int, z: int)
    ensures (x + y) * z == x * z + y * z
  {
  }

  lemma {:induction false} Within(k: int, d: int)
    requires 0 <= k <= d
    ensures k * k <= d * k && (k >= 1 && k < d ==> k * k < d * k)
  {
    Spread(k, d - k, k);
  }

  /** Half of the differential, rounded up, is asked for unless the differential is the largest of 32
      bits: there the half wraps to zero.  So nothing is asked for exactly at 0, at the top, or if the
      caller asks for nothing. */
  lemma {:induction false} AsksForHalf(d: nat, count: nat)
    requires d < WRAP
    ensures ReleaseCount(d, count) == Min(count, (d + 1) / 2) <==> d != WRAP - 1 || count == 0
    ensures ReleaseCount(d, count) == 0 <==> d == 0 || d == WRAP - 1 || count == 0
  {
    if d == WRAP - 1 { assert (d + 1) % WRAP == 0; } else { assert (d + 1) % WRAP == d + 1; }
  }

  /** All backlogs of one commodity, node by node.  Node a releases towards node b with an exact
      differential, the packets join b's queue: the difference turns over by one at most, and the sum
      of the squared backlogs never rises; it falls if and only if the differential is two or more,
      not the largest of 32 bits, and the caller asks for packets. */
  lemma {:induction false} ReleaseLowersPotential(qs: seq<int>, a: nat, b: nat, count: nat, k: nat)
    requires a < |qs| && b < |qs| && a != b && forall i :: 0 <= i < |qs| ==> qs[i] >= 0
    requires 1 <= qs[a] - qs[b] < WRAP
    requires k == Min(ReleaseCount(qs[a] - qs[b], count), qs[a])
    ensures var rs := qs[a := qs[a] - k][b := qs[b] + k];
            && rs[a] - rs[b] >= -1 && rs[a] >= 0
            && SumOfSquares(rs) <= SumOfSquares(qs)
            && (SumOfSquares(rs) < SumOfSquares(qs) <==> 2 <= qs[a] - qs[b] < WRAP - 1 && count > 0)
  {
    var d := qs[a] - qs[b];
    AsksForHalf(d, count);
    SquaresUpdate(qs, a, qs[a] - k);
    SquaresUpdate(qs[a := qs[a] - k], b, qs[b] + k);
    Moving(qs[a], qs[b], k);
    assert k == 0 <==> d == WRAP - 1 || count == 0;
  }
}
