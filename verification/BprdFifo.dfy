/** The packet queue of src/fifo_queue.c: two 32-bit counters, one moved by the thread that sees
    packets arrive, the other by the thread that releases them. */
module BprdFifo {
  import opened Basics

  datatype Verdict = Accept | Drop

  /** A verdict that was handed to the kernel for the packet with this id. */
  datatype Ruling = Ruling(id: nat, verdict: Verdict)

  /** Rulings for the ids lo + 1 to hi, in order. */
  function Rulings(lo: nat, hi: nat, v: Verdict): (r: seq<Ruling>)
    requires lo <= hi
    ensures |r| == hi - lo && forall i :: 0 <= i < hi - lo ==> r[i] == Ruling(lo + 1 + i, v)
  {
    seq(hi - lo, i requires 0 <= i => Ruling(lo + 1 + i, v))
  }

  class Fifo {
    var head: Uint32
    var tail: Uint32
    var rulings: seq<Ruling>  // the calls of nfq_set_verdict

    /** head is the id of the last packet ruled on; the ids 1 to head have one ruling each, in order.
        tail may have wrapped around behind head. */
    ghost predicate Valid()
      reads this
    {
      && |rulings| == head
      && forall i :: 0 <= i < head ==> rulings[i].id == i + 1
    }

    constructor ()
      ensures Valid() && head == 0 && tail == 0
    {
      head, tail, rulings := 0, 0, [];
    }

    /** fifo_add_packet */
    method Add()
      modifies this`tail
      ensures tail == (old(tail) + 1) % WRAP && (old(Valid()) ==> Valid())
      ensures old(head) <= old(tail) && old(tail) + 1 < WRAP ==> Waiting() == old(Waiting()) + 1
    {
      tail := (tail + 1) % WRAP;
    }

    /** The number of packets that the queue takes to wait for a ruling. */
    function Waiting(): Uint32
      reads this
    {
      Waits(head, tail)
    }

    /** fifo_send_packet */
    method Send()
      requires Valid()
      modifies this`head, this`rulings
      ensures Valid()
      ensures if old(head) < tail then head == old(head) + 1 && rulings == old(rulings) + [Ruling(head, Accept)]
              else head == old(head) && rulings == old(rulings)
    {
      if head < tail {
        head := (head + 1) % WRAP;
        rulings := rulings + [Ruling(head, Accept)];
      }
    }

    /** fifo_drop_packet */
    method DropOne()
      requires Valid()
      modifies this`head, this`rulings
      ensures Valid()
      ensures if old(head) < tail then head == old(head) + 1 && rulings == old(rulings) + [Ruling(head, Drop)]
              else head == old(head) && rulings == old(rulings)
    {
      if head < tail {
        head := (head + 1) % WRAP;
        rulings := rulings + [Ruling(head, Drop)];
      }
    }

    /** fifo_length */
    method Length() returns (length: Uint32)
      ensures length == Waiting()
    {
      length := 0;
      if head < tail {
        length := tail - head;
      }
    }

    /** fifo_delete: every packet that still waits is dropped, each once and in order. */
    method Delete()
      requires Valid()
      modifies this`head, this`rulings
      ensures Valid() && Waiting() == 0 && head == if old(head) < tail then tail else old(head)
      ensures rulings == old(rulings) + Rulings(old(head), head, Drop)
    {
      while head < tail
        invariant Valid() && old(head) <= head && (old(head) < tail ==> head <= tail)
        invariant (old(head) >= tail ==> head == old(head))
        invariant rulings == old(rulings) + Rulings(old(head), head, Drop)
        decreases tail - head
      {
        ghost var was := head;
        head := (head + 1) % WRAP;
        rulings := rulings + [Ruling(head, Drop)];
        assert Rulings(old(head), was + 1, Drop) == Rulings(old(head), was, Drop) + [Ruling(was + 1, Drop)];
      }
    }
  }

  // ---------------------------------------------------------------- three threads

  /** Where the arrival thread stands in tail += 1: it has read tail, or it has not. */
  datatype Arriving = Between | Read(tail: nat)

  /** Where the releasing thread stands: it passed the test, or it raised head and owes the verdict. */
  datatype Releasing = Idle | Passed | Raised

  /** Where the router's thread stands in fifo_length.  It reads both counters for the test and both
      again for the difference, each time in either order: head and tail are what this round has read
      so far; raised and stored tell whether the counter has been moved since it was read. */
  datatype Looking = Away | Look(tested: bool, head: Option<nat>, tail: Option<nat>, raised: bool, stored: bool)

  datatype State = State(head: nat, tail: nat, arriving: Arriving, releasing: Releasing, arrivals: nat, ruled: seq<nat>,
                         looking: Looking, lengths: seq<nat>)

  /** One access of one thread: the arriving, the releasing, and the one that asks for the length. */
  datatype Access = LoadTail | StoreTail | Test | RaiseHead | Rule | Ask | SeeHead | SeeTail

  predicate Enabled(s: State, e: Access) {
    match e
    case LoadTail => s.arriving.Between?
    case StoreTail => s.arriving.Read?
    case Test => s.releasing.Idle?
    case RaiseHead => s.releasing.Passed?
    case Rule => s.releasing.Raised?
    case Ask => s.looking.Away?
    case SeeHead => s.looking.Look? && s.looking.head.None?
    case SeeTail => s.looking.Look? && s.looking.tail.None?
  }

  const FIRST_LOOK := Look(false, None, None, false, false)

  /** After both counters were read: a test that holds is followed by the second look, and the
      difference of the second look is what fifo_length returns. */
  function Settled(s: State): State {
    if s.looking.Away? || s.looking.head.None? || s.looking.tail.None? then s
    else
      var h, t := s.looking.head.value, s.looking.tail.value;
      if s.looking.tested then s.(looking := Away, lengths := s.lengths + [(t - h) % WRAP])
      else if h < t then s.(looking := FIRST_LOOK.(tested := true))
      else s.(looking := Away, lengths := s.lengths + [0])
  }

  function TailMoved(l: Looking): Looking {
    if l.Look? && l.tail.Some? then l.(stored := true) else l
  }

  function HeadMoved(l: Looking): Looking {
    if l.Look? && l.head.Some? then l.(raised := true) else l
  }

  function Next(s: State, e: Access): State
    requires Enabled(s, e)
  {
    match e
    case LoadTail => s.(arriving := Read(s.tail))
    case StoreTail =>
      s.(arriving := Between, tail := (s.arriving.tail + 1) % WRAP, arrivals := s.arrivals + 1,
         looking := TailMoved(s.looking))
    case Test => if s.head < s.tail then s.(releasing := Passed) else s
    case RaiseHead => s.(releasing := Raised, head := (s.head + 1) % WRAP, looking := HeadMoved(s.looking))
    case Rule => s.(releasing := Idle, ruled := s.ruled + [s.head])
    case Ask => s.(looking := FIRST_LOOK)
    case SeeHead => Settled(s.(looking := s.looking.(head := Some(s.head), raised := false)))
    case SeeTail => Settled(s.(looking := s.looking.(tail := Some(s.tail), stored := false)))
  }

  const START := State(0, 0, Between, Idle, 0, [], Away, [])

  /** The state after a row of steps, if each of them can happen. */
  datatype Outcome = Impossible | Reaches(state: State)

  ghost function Run(steps: seq<Access>): Outcome {
    if steps == [] then Reaches(START)
    else
      var before := Run(steps[..|steps| - 1]);
      var e := steps[|steps| - 1];
      if before.Reaches? && Enabled(before.state, e) then Reaches(Next(before.state, e)) else Impossible
  }

  /** The ids 1 to n in order. */
  ghost predicate Counts(ids: seq<nat>, n: int) {
    |ids| == n && forall i :: 0 <= i < n ==> ids[i] == i + 1
  }

  /** The verdict that is due once head has been raised. */
  ghost function Due(s: State): nat { if s.releasing.Raised? then 1 else 0 }

  /** What every interleaving keeps, however many packets arrive: tail counts the arrivals modulo
      2^32, head does not wrap around, and the ids that got a verdict are 1, 2, 3, ... up to head,
      each once and in order. */
  ghost predicate Good(s: State) {
    && s.tail == s.arrivals % WRAP && (s.arriving.Read? ==> s.arriving.tail == s.tail)
    && s.head + (if s.releasing.Passed? then 1 else 0) < WRAP
    && Counts(s.ruled, s.head - Due(s))
  }

  lemma {:induction false} EveryRunGood(steps: seq<Access>)
    requires Run(steps).Reaches?
    ensures Good(Run(steps).state)
  {
    if steps == [] {
    } else {
      var k := |steps| - 1;
      EveryRunGood(steps[..k]);
      StepKeepsGood(Run(steps[..k]).state, steps[k]);
    }
  }

  lemma {:induction false} StepKeepsGood(s: State, e: Access)
    requires Good(s) && Enabled(s, e)
    ensures Good(Next(s, e))
  {
    if e.StoreTail? { CountOn(s.arrivals); }
  }

  lemma {:induction false} CountOn(n: nat)
    ensures (n % WRAP + 1) % WRAP == (n + 1) % WRAP
  {
  }

  /** Below 2^32 arrivals head never passes tail, not even with a release under way. */
  ghost predicate Ordered(s: State) {
    s.head + (if s.releasing.Passed? then 1 else 0) <= s.tail
  }

  lemma {:induction false} HeadBehindTail(steps: seq<Access>)
    requires Run(steps).Reaches? && Run(steps).state.arrivals < WRAP
    ensures Ordered(Run(steps).state)
  {
    if steps == [] {
    } else {
      hide Good, Ordered, Next, Enabled;
      var k := |steps| - 1;
      EveryRunGood(steps[..k]);
      ArrivalsGrow(Run(steps[..k]).state, steps[k]);
      HeadBehindTail(steps[..k]);
      StepKeepsOrder(Run(steps[..k]).state, steps[k]);
    }
  }

  lemma {:induction false} ArrivalsGrow(s: State, e: Access)
    requires Enabled(s, e)
    ensures s.arrivals <= Next(s, e).arrivals
  {
  }

  lemma {:induction false} StepKeepsOrder(s: State, e: Access)
    requires Good(s) && Ordered(s) && Enabled(s, e) && Next(s, e).arrivals < WRAP
    ensures Ordered(Next(s, e))
  {
    hide Counts;
  }

  /** The packets that the two counters take to wait. */
  function Waits(head: nat, tail: nat): nat { if head < tail then tail - head else 0 }

  lemma {:induction false} LengthExact(s: State)
    requires Good(s) && (s.arrivals < WRAP ==> Ordered(s))
    ensures Waits(s.head, s.tail) == s.arrivals - |s.ruled| - Due(s) <==> s.arrivals < WRAP
  {
    assert 0 <= s.tail < WRAP && (s.arrivals < WRAP ==> s.tail == s.arrivals);
    assert |s.ruled| == s.head - Due(s);
  }

  /** In every run the counters, looked at in one moment, tell the number of arrivals minus the number
      of verdicts, but for the one that is due, if and only if fewer than 2^32 packets have arrived. */
  lemma {:induction false} CountersInEveryRun(steps: seq<Access>)
    requires Run(steps).Reaches?
    ensures var s := Run(steps).state;
            Waits(s.head, s.tail) == s.arrivals - |s.ruled| - Due(s) <==> s.arrivals < WRAP
  {
    hide Run, Good, Waits;
    EveryRunGood(steps);
    var s := Run(steps).state;
    if s.arrivals < WRAP { HeadBehindTail(steps); }
    LengthExact(s);
  }

  // ---------------------------------------------------------------- fifo_length beside the others

  /** What fifo_length has read was true when it was read, and is true still if and only if the counter
      has not been moved since. */
  ghost predicate Seen(s: State) {
    s.looking.Look? ==>
      var look := s.looking;
      && (look.head.Some? ==> look.head.value <= s.head && (look.head.value < s.head <==> look.raised))
      && (look.tail.Some? ==> look.tail.value <= s.tail && (look.tail.value < s.tail <==> look.stored))
      && (look.head.None? || look.tail.None?)
  }

  lemma {:induction false} SeenInEveryRun(steps: seq<Access>)
    requires Run(steps).Reaches? && Run(steps).state.arrivals < WRAP
    ensures Seen(Run(steps).state)
  {
    if steps == [] {
    } else {
      hide Good, Seen, Next, Enabled;
      var k := |steps| - 1;
      EveryRunGood(steps[..k]);
      ArrivalsGrow(Run(steps[..k]).state, steps[k]);
      SeenInEveryRun(steps[..k]);
      StepKeepsSeen(Run(steps[..k]).state, steps[k]);
    }
  }

  lemma {:induction false} StepKeepsSeen(s: State, e: Access)
    requires Good(s) && Seen(s) && Enabled(s, e) && Next(s, e).arrivals < WRAP
    ensures Seen(Next(s, e))
  {
    hide Counts;
  }

  /** The last step of this run makes fifo_length return. */
  ghost predicate Returns(steps: seq<Access>) {
    && steps != [] && Run(steps).Reaches?
    && |Run(steps).state.lengths| > |Run(steps[..|steps| - 1]).state.lengths|
  }

  /** The counters of the last look: one was read before and remembered, the other is read now. */
  ghost function LastHead(b: State): nat {
    if b.looking.Look? && b.looking.head.Some? then b.looking.head.value else b.head
  }

  ghost function LastTail(b: State): nat {
    if b.looking.Look? && b.looking.tail.Some? then b.looking.tail.value else b.tail
  }

  /** The counter that was read first has been moved since. */
  ghost predicate Moved(b: State) {
    b.looking.Look? && if b.looking.tail.Some? then b.looking.stored else b.looking.raised
  }

  /** Whatever the three threads do, with fewer than 2^32 arrivals: what fifo_length returns after the
      second look is tail minus head as it read them, if and only if head is not the larger one;
      otherwise it is larger by 2^32.  That needs tail to be read first and an arrival to be stored
      before head is read.  It returns the number of packets that wait at that moment if and only if
      the counter read first has not been moved since. */
  lemma {:induction false} LengthReturned(steps: seq<Access>)
    requires Returns(steps) && Run(steps).state.arrivals < WRAP && Run(steps[..|steps| - 1]).state.looking.tested
    ensures var b, s := Run(steps[..|steps| - 1]).state, Run(steps).state;
            var t, h, r := LastTail(b), LastHead(b), s.lengths[|s.lengths| - 1];
            && (r == t - h <==> h <= t) && (h > t ==> r == t - h + WRAP)
            && (h > t ==> b.looking.tail.Some? && b.looking.stored)
            && (r == Waits(s.head, s.tail) <==> !Moved(b))
  {
    hide Run, Good, Ordered;
    var k := |steps| - 1;
    RunStep(steps);
    ArrivalsGrow(Run(steps[..k]).state, steps[k]);
    EveryRunGood(steps[..k]);
    HeadBehindTail(steps[..k]);
    SeenInEveryRun(steps[..k]);
    LengthOfLook(Run(steps[..k]).state, steps[k]);
  }

  lemma {:induction false} RunStep(steps: seq<Access>)
    requires steps != [] && Run(steps).Reaches?
    ensures var b := Run(steps[..|steps| - 1]);
            b.Reaches? && Enabled(b.state, steps[|steps| - 1]) && Run(steps).state == Next(b.state, steps[|steps| - 1])
  {
  }

  lemma {:induction false} LengthOfLook(b: State, e: Access)
    requires Good(b) && Ordered(b) && Seen(b) && Enabled(b, e) && b.arrivals < WRAP
    requires |Next(b, e).lengths| > |b.lengths| && b.looking.tested
    ensures var s := Next(b, e);
            var t, h, r := LastTail(b), LastHead(b), s.lengths[|s.lengths| - 1];
            && (r == t - h <==> h <= t) && (h > t ==> r == t - h + WRAP)
            && (h > t ==> b.looking.tail.Some? && b.looking.stored)
            && (r == Waits(s.head, s.tail) <==> !Moved(b))
  {
    hide Counts;
    var t, h := LastTail(b), LastHead(b);
    assert 0 <= t < WRAP && 0 <= h < WRAP;
    assert (t - h) % WRAP == if h <= t then t - h else t - h + WRAP;
  }

  /** After the first look it returns 0.  That is the number of packets that wait at that moment if the
      counter read first has not been moved since, or if that is head. */
  lemma {:induction false} NothingReturned(steps: seq<Access>)
    requires Returns(steps) && Run(steps).state.arrivals < WRAP && !Run(steps[..|steps| - 1]).state.looking.tested
    ensures var b, s := Run(steps[..|steps| - 1]).state, Run(steps).state;
            && s.lengths[|s.lengths| - 1] == 0 && LastHead(b) >= LastTail(b)
            && (!Moved(b) || b.looking.head.Some? ==> Waits(s.head, s.tail) == 0)
  {
    hide Run, Good, Ordered;
    var k := |steps| - 1;
    RunStep(steps);
    ArrivalsGrow(Run(steps[..k]).state, steps[k]);
    EveryRunGood(steps[..k]);
    HeadBehindTail(steps[..k]);
    SeenInEveryRun(steps[..k]);
    NothingOfLook(Run(steps[..k]).state, steps[k]);
  }

  lemma {:induction false} NothingOfLook(b: State, e: Access)
    requires Good(b) && Ordered(b) && Seen(b) && Enabled(b, e) && b.arrivals < WRAP
    requires |Next(b, e).lengths| > |b.lengths| && !b.looking.tested
    ensures var s := Next(b, e);
            && s.lengths[|s.lengths| - 1] == 0 && LastHead(b) >= LastTail(b)
            && (!Moved(b) || b.looking.head.Some? ==> Waits(s.head, s.tail) == 0)
  {
    hide Counts;
  }

  /** Two packets: fifo_length reads tail as 1, the second packet arrives, both are released, and
      fifo_length reads head as 2. */
  const OVERTAKEN := [LoadTail, StoreTail, Ask, SeeHead, SeeTail, SeeTail, LoadTail, StoreTail,
                      Test, RaiseHead, Rule, Test, RaiseHead, Rule, SeeHead]

  lemma {:induction false} Then(steps: seq<Access>, k: nat)
    requires k < |steps|
    ensures Run(steps[..k + 1]) == if Run(steps[..k]).Reaches? && Enabled(Run(steps[..k]).state, steps[k])
                                   then Reaches(Next(Run(steps[..k]).state, steps[k])) else Impossible
  {
    assert steps[..k + 1][..k] == steps[..k];
  }

  lemma {:induction false} OvertakenFirst()
    ensures Run(OVERTAKEN[..5]) == Reaches(State(0, 1, Between, Idle, 1, [], Look(true, None, None, false, false), []))
  {
    hide Run;
    RunNothing();
    assert OVERTAKEN[..0] == [];
    Then(OVERTAKEN, 0);
    Then(OVERTAKEN, 1);
    Then(OVERTAKEN, 2);
    Then(OVERTAKEN, 3);
    Then(OVERTAKEN, 4);
  }

  lemma {:induction false} OvertakenSecond()
    ensures Run(OVERTAKEN[..10]) ==
      Reaches(State(1, 2, Between, Raised, 2, [], Look(true, None, Some(1), false, true), []))
  {
    hide Run;
    OvertakenFirst();
    Then(OVERTAKEN, 5);
    Then(OVERTAKEN, 6);
    Then(OVERTAKEN, 7);
    Then(OVERTAKEN, 8);
    Then(OVERTAKEN, 9);
  }

  /** A run in which fifo_length goes wrong: with no packet waiting it returns 2^32 - 1. */
  lemma {:induction false} LengthUnderflows()
    ensures Run(OVERTAKEN) == Reaches(State(2, 2, Between, Idle, 2, [1, 2], Away, [WRAP - 1])) && Waits(2, 2) == 0
  {
    hide Run;
    OvertakenSecond();
    assert OVERTAKEN[..15] == OVERTAKEN;
    Then(OVERTAKEN, 10);
    Then(OVERTAKEN, 11);
    Then(OVERTAKEN, 12);
    Then(OVERTAKEN, 13);
    Then(OVERTAKEN, 14);
  }

  lemma {:induction false} RunNothing()
    ensures Run([]) == Reaches(START)
  {
  }

  /** n arrivals and no release. */
  function Burst(n: nat): seq<Access> {
    if n == 0 then [] else Burst(n - 1) + [LoadTail, StoreTail]
  }

  lemma {:induction false} BurstReaches(n: nat)
    ensures Run(Burst(n)) == Reaches(State(0, n % WRAP, Between, Idle, n, [], Away, []))
  {
    if n == 0 {
    } else {
      BurstReaches(n - 1);
      var s := Burst(n);
      assert s[..|s| - 1] == Burst(n - 1) + [LoadTail];
      assert (Burst(n - 1) + [LoadTail])[..|s| - 2] == Burst(n - 1);
      CountOn(n - 1);
    }
  }

  /** A run that goes wrong: after 2^32 arrivals every packet waits, the queue looks empty, and a
      release leaves it as it is. */
  lemma {:induction false} WrapsAround()
    ensures var o := Run(Burst(WRAP));
            && o.Reaches? && o.state.arrivals == WRAP && o.state.ruled == []
            && Waits(o.state.head, o.state.tail) == 0
            && Enabled(o.state, Test) && Next(o.state, Test) == o.state
  {
    BurstReaches(WRAP);
  }
}
