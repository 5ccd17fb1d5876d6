/** Runs of nodes that exchange hellos over a network that may lose, delay, duplicate and reorder them:
    hello_add_addresses of src/hello_writer.c against hello_recv of src/hello_reader.c. */
module BprdRun {
  import opened Basics
  import opened BprdExpiry
  import opened BprdList
  import opened BprdHello

  /** A hello message on the air, and the event that sent it. */
  datatype Packet<A> = Packet(hello: Hello<A>, sentAt: nat)

  datatype State<!A> = State(tables: map<A, seq<Nbr<A>>>, net: seq<Packet<A>>)

  /** Send: a node refreshes its table, reading its clock for every test, and announces what is left,
      in one message or in several fragments.  Deliver: a node handles some packet that was ever sent;
      packets that are never delivered are lost, others may come late, out of order, or repeatedly. */
  datatype Event<!A> =
    | Send(node: A, clock: nat -> Time, timeout: nat, coms: seq<Com<A>>, fragments: seq<seq<A>>)
    | Deliver(node: A, packet: nat, now: Time)

  function Addresses<A>(t: seq<Nbr<A>>): (r: seq<A>)
    ensures |r| == |t| && forall i :: 0 <= i < |t| ==> r[i] == t[i].addr
  {
    seq(|t|, i requires 0 <= i < |t| => t[i].addr)
  }

  function TableOf<A(==)>(s: State<A>, a: A): seq<Nbr<A>> {
    if a in s.tables then s.tables[a] else []
  }

  ghost predicate Enabled<A>(s: State<A>, e: Event<A>) {
    match e
    case Send(a, clock, timeout, coms, fragments) => Concat(fragments)
      == Addresses(Fresh(TableOf(s, a), clock, timeout))
    case Deliver(a, p, now) => p < |s.net|
  }

  /** The packets that carry the fragments of one hello. */
  ghost function Packets<A>(orig: A, coms: seq<Com<A>>, fragments: seq<seq<A>>, at: nat): (r: seq<Packet<A>>)
    ensures |r| == |fragments|
    ensures forall i :: 0 <= i < |r| ==> r[i] == Packet(Hello(orig, coms, fragments[i]), at)
  {
    seq(|fragments|, i requires 0 <= i < |fragments| => Packet(Hello(orig, coms, fragments[i]), at))
  }

  ghost function Next<A>(s: State<A>, e: Event<A>, at: nat): State<A>
    requires Enabled(s, e)
  {
    match e
    case Send(a, clock, timeout, coms, fragments) =>
      State(s.tables[a := Fresh(TableOf(s, a), clock, timeout)], s.net + Packets(a, coms, fragments, at))
    case Deliver(a, p, now) => s.(tables := s.tables[a := Handled(TableOf(s, a), a, s.net[p].hello, now)])
  }

  datatype Outcome<!A> = Impossible | Reaches(state: State<A>)

  /** All nodes start with empty tables. */
  ghost function Run<A>(events: seq<Event<A>>): Outcome<A> {
    if events == [] then Reaches(State(map[], []))
    else
      var k := |events| - 1;
      var before := Run(events[..k]);
      if before.Reaches? && Enabled(before.state, events[k]) then Reaches(Next(before.state, events[k], k))
        else Impossible
  }

  // ---------------------------------------------------------------- what every run keeps

  /** Event i: node b handled a hello of a. */
  ghost predicate Receives<A>(events: seq<Event<A>>, net: seq<Packet<A>>, b: A, a: A, i: nat) {
    && i < |events| && events[i].Deliver? && events[i].node == b
    && events[i].packet < |net| && net[events[i].packet].hello.orig == a
  }

  /** Before event j, node b had heard a, at the time noted. */
  ghost predicate HeardBefore<A>(events: seq<Event<A>>, net: seq<Packet<A>>, b: A, a: A, time: Time, j: nat) {
    exists i: nat :: i < j && Receives(events, net, b, a, i) && events[i].now == time
  }

  /** Event k: node a handled a hello of b that lists a and was sent before. */
  ghost predicate Echoed<A>(events: seq<Event<A>>, net: seq<Packet<A>>, a: A, b: A, k: nat) {
    Receives(events, net, a, b, k) && a in net[events[k].packet].hello.addrs && net[events[k].packet].sentAt < k
  }

  ghost predicate EchoedBefore<A>(events: seq<Event<A>>, net: seq<Packet<A>>, a: A, b: A) {
    exists k: nat :: Echoed(events, net, a, b, k)
  }

  /** The table of b just before event j. */
  ghost function TableBefore<A>(events: seq<Event<A>>, b: A, j: nat): seq<Nbr<A>>
    requires j <= |events|
  {
    var before := Run(events[..j]);
    if before.Reaches? then TableOf(before.state, b) else []
  }

  /** Event j: b sent a hello.  Its neighbour at position n was a, heard at the time noted, and passed
      test n, the one of its own position. */
  ghost predicate Tested<A>(events: seq<Event<A>>, net: seq<Packet<A>>, b: A, a: A, j: nat, n: nat) {
    && j < |events| && events[j].Send? && events[j].node == b
    && var t := TableBefore(events, b, j);
       && n < |t| && t[n].addr == a && HeardBefore(events, net, b, a, t[n].time, j)
       && !Expired(events[j].clock(n), t[n].time, events[j].timeout)
  }

  ghost predicate ListedFresh<A>(events: seq<Event<A>>, net: seq<Packet<A>>, b: A, a: A, j: nat) {
    exists n: nat :: Tested(events, net, b, a, j, n)
  }

  /** Every address in a packet was heard in time by its originator. */
  ghost predicate Honest<A>(events: seq<Event<A>>, net: seq<Packet<A>>, p: nat)
    requires p < |net|
  {
    && net[p].sentAt < |events|
    && forall a :: a in net[p].hello.addrs ==> ListedFresh(events, net, net[p].hello.orig, a, net[p].sentAt)
  }

  /** Every record of b's table is backed by a receipt, every bidirectional one by an echo. */
  ghost predicate Backed<A>(events: seq<Event<A>>, net: seq<Packet<A>>, b: A, r: Nbr<A>) {
    HeardBefore(events, net, b, r.addr, r.time, |events|) && (r.bidir ==> EchoedBefore(events, net, b, r.addr))
  }

  ghost predicate Invariant<A>(events: seq<Event<A>>, s: State<A>) {
    && (forall p :: 0 <= p < |s.net| ==> Honest(events, s.net, p))
    && (forall b, r :: b in s.tables && r in s.tables[b] ==> Backed(events, s.net, b, r))
  }

  // ---------------------------------------------------------------- what the future does not change

  ghost predicate Extends<A>(d: seq<Event<A>>, net: seq<Packet<A>>, e: seq<Event<A>>, net': seq<Packet<A>>) {
    |d| <= |e| && d == e[..|d|] && |net| <= |net'| && net == net'[..|net|]
  }

  lemma {:induction false} ReceivesStays<A>(d: seq<Event<A>>, net: seq<Packet<A>>, e: seq<Event<A>>,
                                            net': seq<Packet<A>>, b: A, a: A, i: nat)
    requires Extends(d, net, e, net') && Receives(d, net, b, a, i)
    ensures Receives(e, net', b, a, i) && e[i] == d[i] && net'[e[i].packet] == net[d[i].packet]
  {
  }

  lemma {:induction false} HeardBeforeStays<A>(d: seq<Event<A>>, net: seq<Packet<A>>, e: seq<Event<A>>,
                                               net': seq<Packet<A>>,
                            b: A, a: A, time: Time, j: nat, j': nat)
    requires Extends(d, net, e, net') && HeardBefore(d, net, b, a, time, j) && j <= j'
    ensures HeardBefore(e, net', b, a, time, j')
  {
    var i: nat :| i < j && Receives(d, net, b, a, i) && d[i].now == time;
    ReceivesStays(d, net, e, net', b, a, i);
  }

  lemma {:induction false} BackedStays<A>(d: seq<Event<A>>, net: seq<Packet<A>>, e: seq<Event<A>>,
                                          net': seq<Packet<A>>, b: A, r: Nbr<A>)
    requires Extends(d, net, e, net') && Backed(d, net, b, r)
    ensures Backed(e, net', b, r)
  {
    HeardBeforeStays(d, net, e, net', b, r.addr, r.time, |d|, |e|);
    if r.bidir {
      var k: nat :| Echoed(d, net, b, r.addr, k);
      ReceivesStays(d, net, e, net', b, r.addr, k);
      assert Echoed(e, net', b, r.addr, k);
    }
  }

  lemma {:induction false} HonestStays<A>(d: seq<Event<A>>, net: seq<Packet<A>>, e: seq<Event<A>>,
                                          net': seq<Packet<A>>, p: nat)
    requires Extends(d, net, e, net') && p < |net| && Honest(d, net, p)
    ensures Honest(e, net', p)
  {
    var b, j := net[p].hello.orig, net[p].sentAt;
    forall a | a in net'[p].hello.addrs ensures ListedFresh(e, net', b, a, j) {
      assert ListedFresh(d, net, b, a, j);
      var n: nat :| Tested(d, net, b, a, j, n);
      assert d[..j] == e[..j];
      HeardBeforeStays(d, net, e, net', b, a, TableBefore(d, b, j)[n].time, j, j);
      assert Tested(e, net', b, a, j, n);
    }
  }

  // ---------------------------------------------------------------- the two steps

  /** A record after a hello is an old one or the sender's. */
  lemma {:induction false} HandledMember<A>(t: seq<Nbr<A>>, me: A, h: Hello<A>, now: Time, r: Nbr<A>)
    requires r in Handled(t, me, h, now)
    ensures r in t || (r.addr == h.orig && r.time == now
                       && (r.bidir ==> me in h.addrs || exists q :: q in t && q.addr == h.orig && q.bidir))
  {
    var met := Met(t, h.orig, now);
    var i := FindNbr(met, h.orig);
    var k :| 0 <= k < |met| && Handled(t, me, h, now)[k] == r;
    if k == i {
      if FindNbr(t, h.orig) < |t| {
        MetAt(t, h.orig, now, FindNbr(t, h.orig));
        assert t[i] in t;
      } else {
        MetAt(t, h.orig, now, |t|);
      }
    } else {
      assert met[k] == r;
      if FindNbr(t, h.orig) < |t| { MetAt(t, h.orig, now, FindNbr(t, h.orig)); }
    }
  }

  lemma {:induction false} DeliverKeeps<A>(d: seq<Event<A>>, s: State<A>, e: Event<A>)
    requires Invariant(d, s) && e.Deliver? && Enabled(s, e)
    ensures Invariant(d + [e], Next(s, e, |d|))
  {
    var d', s' := d + [e], Next(s, e, |d|);
    var h := s.net[e.packet].hello;
    assert Honest(d, s.net, e.packet);
    forall p | 0 <= p < |s'.net| ensures Honest(d', s'.net, p) {
      HonestStays(d, s.net, d', s'.net, p);
    }
    forall b, r | b in s'.tables && r in s'.tables[b] ensures Backed(d', s'.net, b, r) {
      if r in TableOf(s, b) {
        BackedStays(d, s.net, d', s'.net, b, r);
      } else {
        HandledMember(TableOf(s, b), b, h, e.now, r);
        assert Receives(d', s'.net, b, h.orig, |d|);
        if r.bidir {
          if b in h.addrs {
            assert Echoed(d', s'.net, b, h.orig, |d|);
          } else {
            var q :| q in TableOf(s, b) && q.addr == h.orig && q.bidir;
            BackedStays(d, s.net, d', s'.net, b, q);
          }
        }
      }
    }
  }

  lemma {:induction false} InConcat<T>(ss: seq<seq<T>>, x: T, i: nat)
    requires i < |ss| && x in ss[i]
    ensures x in Concat(ss)
  {
    if i == |ss| - 1 {
    } else {
      InConcat(ss[..|ss| - 1], x, i);
    }
  }

  /** What a refresh leaves was there before and passed its test. */
  lemma {:induction false} FreshMember<A>(t: seq<Nbr<A>>, clock: nat -> Time, timeout: nat, r: Nbr<A>) returns (k: nat)
    requires r in Fresh(t, clock, timeout)
    ensures k < |t| && t[k] == r && !Expired(clock(k), r.time, timeout)
  {
    k := KeptFrom(t, ExpiryTest(clock, timeout), 0, r);
  }

  lemma {:induction false} SendKeeps<A>(d: seq<Event<A>>, s: State<A>, e: Event<A>)
    requires Invariant(d, s) && Run(d) == Reaches(s) && e.Send? && Enabled(s, e)
    ensures Invariant(d + [e], Next(s, e, |d|))
  {
    hide Honest, Backed, Fresh, ListedFresh, Concat;
    var d', s' := d + [e], Next(s, e, |d|);
    var t, left := TableOf(s, e.node), Fresh(TableOf(s, e.node), e.clock, e.timeout);
    assert s'.net[..|s.net|] == s.net;
    forall p | 0 <= p < |s'.net| ensures Honest(d', s'.net, p) {
      if p < |s.net| {
        HonestStays(d, s.net, d', s'.net, p);
      } else {
        NewPacketHonest(d, s, e, p);
      }
    }
    forall b, r | b in s'.tables && r in s'.tables[b] ensures Backed(d', s'.net, b, r) {
      if b == e.node { var k := FreshMember(t, e.clock, e.timeout, r); }
      BackedStays(d, s.net, d', s'.net, b, r);
    }
  }

  lemma {:induction false} NewPacketHonest<A>(d: seq<Event<A>>, s: State<A>, e: Event<A>, p: nat)
    requires Invariant(d, s) && Run(d) == Reaches(s) && e.Send? && Enabled(s, e)
    requires |s.net| <= p < |Next(s, e, |d|).net|
    ensures Honest(d + [e], Next(s, e, |d|).net, p)
  {
    hide Fresh, Concat, Run;
    var d', s' := d + [e], Next(s, e, |d|);
    var t, left := TableOf(s, e.node), Fresh(TableOf(s, e.node), e.clock, e.timeout);
    var f := p - |s.net|;
    assert s'.net[..|s.net|] == s.net;
    assert s'.net[p] == Packet(Hello(e.node, e.coms, e.fragments[f]), |d|);
    forall a | a in e.fragments[f] ensures ListedFresh(d', s'.net, e.node, a, |d|) {
      InConcat(e.fragments, a, f);
      var i :| 0 <= i < |left| && Addresses(left)[i] == a;
      var k := FreshMember(t, e.clock, e.timeout, left[i]);
      assert Backed(d, s.net, e.node, left[i]);
      HeardBeforeStays(d, s.net, d', s'.net, e.node, a, left[i].time, |d|, |d|);
      assert d'[..|d|] == d;
      assert Tested(d', s'.net, e.node, a, |d|, k);
    }
  }

  lemma {:induction false} EveryRunKeeps<A>(events: seq<Event<A>>)
    requires Run(events).Reaches?
    ensures Invariant(events, Run(events).state)
  {
    hide Next, Enabled;
    if events == [] {
    } else {
      var k := |events| - 1;
      EveryRunKeeps(events[..k]);
      assert events == events[..k] + [events[k]];
      if events[k].Send? {
        SendKeeps(events[..k], Run(events[..k]).state, events[k]);
      } else {
        DeliverKeeps(events[..k], Run(events[..k]).state, events[k]);
      }
    }
  }

  // ---------------------------------------------------------------- the promises

  /** If a holds b as bidirectional, then b had handled a hello of a (event i) before it sent some
      hello (event j) that a handled (event k) and that lists a. */
  lemma {:induction false} Bidirectional<A>(events: seq<Event<A>>, a: A, r: Nbr<A>) returns (i: nat, j: nat, k: nat)
    requires Run(events).Reaches? && r in TableOf(Run(events).state, a) && r.bidir
    ensures var net := Run(events).state.net;
            && i < j < k < |events|
            && Receives(events, net, r.addr, a, i)
            && events[j].Send? && events[j].node == r.addr
            && Receives(events, net, a, r.addr, k) && net[events[k].packet].sentAt == j
            && a in net[events[k].packet].hello.addrs
  {
    EveryRunKeeps(events);
    var net := Run(events).state.net;
    assert Backed(events, net, a, r);
    k :| Echoed(events, net, a, r.addr, k);
    var p := events[k].packet;
    j := net[p].sentAt;
    assert Honest(events, net, p) && ListedFresh(events, net, r.addr, a, j);
    var n: nat :| Tested(events, net, r.addr, a, j, n);
    i :| i < j && Receives(events, net, r.addr, a, i) && events[i].now == TableBefore(events, r.addr, j)[n].time;
  }

  /** Every neighbour listed in a hello was within the timeout when it was tested.  It stood at
      position n of the sender's table with the time of receipt of one of its hellos (event i), and at
      the clock reading of its own test no more than the timeout had passed since, if that time fits
      32 bits. */
  lemma {:induction false} ListedInTime<A>(events: seq<Event<A>>, p: nat, a: A) returns (i: nat, n: nat)
    requires Run(events).Reaches? && p < |Run(events).state.net| && a in Run(events).state.net[p].hello.addrs
    ensures var net := Run(events).state.net;
            var j, b := net[p].sentAt, net[p].hello.orig;
            && i < j < |events| && events[j].Send? && events[j].node == b && Receives(events, net, b, a, i)
            && var t := TableBefore(events, b, j);
               && n < |t| && t[n].addr == a && t[n].time == events[i].now
               && !Expired(events[j].clock(n), events[i].now, events[j].timeout)
               && (0 <= Passed(events[j].clock(n), events[i].now) < WRAP ==>
                     Passed(events[j].clock(n), events[i].now) <= events[j].timeout)
  {
    hide Run;
    EveryRunKeeps(events);
    var net := Run(events).state.net;
    var j, b := net[p].sentAt, net[p].hello.orig;
    assert Honest(events, net, p) && ListedFresh(events, net, b, a, j);
    n :| Tested(events, net, b, a, j, n);
    var time := TableBefore(events, b, j)[n].time;
    i :| i < j && Receives(events, net, b, a, i) && events[i].now == time;
    if 0 <= Passed(events[j].clock(n), time) < WRAP {
      ExpiredInTime(events[j].clock(n), time, events[j].timeout);
    }
  }
}
