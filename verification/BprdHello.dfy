/** What a received hello does to the neighbour table: the callbacks of src/hello_reader.c. */
module BprdHello {
  import opened Basics
  import opened BprdExpiry
  import opened BprdTables
  import opened BprdList

  /** A commodity with the backlog that its sender announces. */
  datatype Com<A> = Com(addr: A, backlog: Uint32)

  datatype Hello<A> = Hello(orig: A, coms: seq<Com<A>>, addrs: seq<A>)

  /** A neighbour record as a value. */
  datatype Nbr<A> = Nbr(addr: A, bidir: bool, time: Time, coms: seq<Heard<A>>)

  // ---------------------------------------------------------------- the meaning of a hello

  /** nlist_find: the position of the first neighbour with this address, or the length. */
  function FindNbr<A(==)>(t: seq<Nbr<A>>, a: A): (i: nat)
    ensures i <= |t| && (i < |t| ==> t[i].addr == a) && forall j :: 0 <= j < i ==> t[j].addr != a
  {
    if t == [] || t[0].addr == a then 0 else 1 + FindNbr(t[1..], a)
  }

  /** hello_cons_msg_start: find the sender or put it in front, and note the time. */
  function Met<A(==)>(t: seq<Nbr<A>>, orig: A, now: Time): (r: seq<Nbr<A>>)
    ensures FindNbr(r, orig) < |r|
  {
    var i := FindNbr(t, orig);
    var r := if i < |t| then t[i := t[i].(time := now)] else [Nbr(orig, false, now, [])] + t;
    assert r[if i < |t| then i else 0].addr == orig;
    r
  }

  /** hello_cons_msg_tlv: note the backlog of one commodity. */
  function Learned<A(==)>(s: seq<Heard<A>>, c: Com<A>): seq<Heard<A>> {
    var i := FindHeard(s, c.addr);
    if i < |s| then s[i := s[i].(backlog := c.backlog)] else [Heard(c.addr, c.backlog, 0)] + s
  }

  function LearnedAll<A(==)>(s: seq<Heard<A>>, cs: seq<Com<A>>): seq<Heard<A>> {
    if cs == [] then s else Learned(LearnedAll(s, cs[..|cs| - 1]), cs[|cs| - 1])
  }

  /** A whole hello: the sender's record is met, learns the commodities, and becomes bidirectional if
      my address is listed. */
  function Handled<A(==)>(t: seq<Nbr<A>>, me: A, h: Hello<A>, now: Time): seq<Nbr<A>> {
    var met := Met(t, h.orig, now);
    var i := FindNbr(met, h.orig);
    met[i := met[i].(coms := LearnedAll(met[i].coms, h.coms), bidir := met[i].bidir || me in h.addrs)]
  }

  // ---------------------------------------------------------------- what it keeps

  ghost predicate UniqueNbrs<A>(t: seq<Nbr<A>>) {
    forall i, j :: 0 <= i < j < |t| ==> t[i].addr != t[j].addr
  }

  ghost predicate UniqueComs<A>(s: seq<Heard<A>>) {
    forall i, j :: 0 <= i < j < |s| ==> s[i].addr != s[j].addr
  }

  /** Neighbour addresses are unique, and so are the commodities of every neighbour. */
  ghost predicate ValidTable<A>(t: seq<Nbr<A>>) {
    UniqueNbrs(t) && forall i :: 0 <= i < |t| ==> UniqueComs(t[i].coms)
  }

  /** The record of an address, if there is one. */
  function Record<A(==)>(t: seq<Nbr<A>>, a: A): Option<Nbr<A>> {
    var i := FindNbr(t, a);
    if i < |t| then Some(t[i]) else None
  }

  function BacklogOf<A(==)>(s: seq<Heard<A>>, a: A): Option<nat> {
    var i := FindHeard(s, a);
    if i < |s| then Some(s[i].backlog) else None
  }

  /** The last announcement for an address. */
  ghost function Announced<A>(cs: seq<Com<A>>, a: A): Option<nat> {
    if cs == [] then None
    else if cs[|cs| - 1].addr == a then Some(cs[|cs| - 1].backlog)
    else Announced(cs[..|cs| - 1], a)
  }

  lemma {:induction false} FindHeardIs<A>(s: seq<Heard<A>>, a: A, i: nat)
    requires i <= |s| && (i < |s| ==> s[i].addr == a) && forall j :: 0 <= j < i ==> s[j].addr != a
    ensures FindHeard(s, a) == i
  {
  }

  lemma {:induction false} LearnedUnique<A>(s: seq<Heard<A>>, c: Com<A>)
    ensures UniqueComs(s) ==> UniqueComs(Learned(s, c))
  {
  }

  lemma {:induction false} LearnedBacklog<A>(s: seq<Heard<A>>, c: Com<A>, a: A)
    ensures BacklogOf(Learned(s, c), a) == if a == c.addr then Some(c.backlog) else BacklogOf(s, a)
  {
    var r, i := Learned(s, c), FindHeard(s, c.addr);
    var k := FindHeard(s, a);
    if i < |s| {
      FindHeardIs(r, a, k);
    } else if a == c.addr {
      FindHeardIs(r, a, 0);
    } else {
      assert forall j :: 0 < j < |r| ==> r[j] == s[j - 1];
      FindHeardIs(r, a, k + 1);
    }
  }

  /** After all announcements of a hello each announced commodity has the backlog announced last, and
      every other commodity the backlog it had. */
  lemma {:induction false} LearnedAllBacklogs<A>(s: seq<Heard<A>>, cs: seq<Com<A>>, a: A)
    ensures UniqueComs(s) ==> UniqueComs(LearnedAll(s, cs))
    ensures BacklogOf(LearnedAll(s, cs), a) == if Announced(cs, a).Some? then Announced(cs, a) else BacklogOf(s, a)
  {
    if cs == [] {
    } else {
      var k := |cs| - 1;
      LearnedAllBacklogs(s, cs[..k], a);
      LearnedUnique(LearnedAll(s, cs[..k]), cs[k]);
      LearnedBacklog(LearnedAll(s, cs[..k]), cs[k], a);
    }
  }

  /** Without repeated addresses in the hello, what is announced is what is announced last. */
  lemma {:induction false} AnnouncedOnce<A>(cs: seq<Com<A>>, i: nat)
    requires i < |cs| && forall j, k :: 0 <= j < k < |cs| ==> cs[j].addr != cs[k].addr
    ensures Announced(cs, cs[i].addr) == Some(cs[i].backlog)
  {
    var k := |cs| - 1;
    if k <= i {
    } else {
      AnnouncedOnce(cs[..k], i);
    }
  }

  lemma {:induction false} FindNbrIs<A>(t: seq<Nbr<A>>, a: A, i: nat)
    requires i <= |t| && (i < |t| ==> t[i].addr == a) && forall j :: 0 <= j < i ==> t[j].addr != a
    ensures FindNbr(t, a) == i
  {
  }

  lemma {:induction false} MetAt<A>(t: seq<Nbr<A>>, orig: A, now: Time, i: nat)
    requires i <= |t| && (i < |t| ==> t[i].addr == orig) && forall j :: 0 <= j < i ==> t[j].addr != orig
    ensures Met(t, orig, now) == if i < |t| then t[i := t[i].(time := now)] else [Nbr(orig, false, now, [])] + t
    ensures FindNbr(Met(t, orig, now), orig) == if i < |t| then i else 0
  {
    FindNbrIs(t, orig, i);
    FindNbrIs(Met(t, orig, now), orig, if i < |t| then i else 0);
  }

  lemma {:induction false} MetKeeps<A>(t: seq<Nbr<A>>, orig: A, now: Time)
    requires ValidTable(t)
    ensures ValidTable(Met(t, orig, now))
    ensures forall a :: a != orig ==> Record(Met(t, orig, now), a) == Record(t, a)
    ensures Record(Met(t, orig, now), orig)
         == Some(if Record(t, orig).Some? then Record(t, orig).value.(time := now) else Nbr(orig, false, now, []))
  {
    var r, i := Met(t, orig, now), FindNbr(t, orig);
    if i < |t| {
      FindNbrIs(r, orig, i);
    } else {
      assert forall j :: 0 < j < |r| ==> r[j] == t[j - 1];
      FindNbrIs(r, orig, 0);
    }
    forall a | a != orig ensures Record(r, a) == Record(t, a) {
      MetOther(t, orig, now, a);
    }
  }

  lemma {:induction false} MetOther<A>(t: seq<Nbr<A>>, orig: A, now: Time, a: A)
    requires a != orig
    ensures Record(Met(t, orig, now), a) == Record(t, a)
  {
    var r, i := Met(t, orig, now), FindNbr(t, orig);
    if i == |t| { assert forall j :: 0 < j < |r| ==> r[j] == t[j - 1]; }
    FindNbrIs(r, a, if i < |t| then FindNbr(t, a) else FindNbr(t, a) + 1);
  }

  lemma {:induction false} ReplacedRecord<A>(t: seq<Nbr<A>>, i: nat, n: Nbr<A>)
    requires ValidTable(t) && i < |t| && n.addr == t[i].addr && UniqueComs(n.coms)
    ensures ValidTable(t[i := n]) && Record(t[i := n], n.addr) == Some(n)
    ensures forall a :: a != n.addr ==> Record(t[i := n], a) == Record(t, a)
  {
    var r := t[i := n];
    FindNbrIs(r, n.addr, i);
    forall a | a != n.addr ensures Record(r, a) == Record(t, a) {
      FindNbrIs(r, a, FindNbr(t, a));
    }
  }

  /** Handling a hello keeps neighbours and their commodities unique, touches no neighbour but the
      sender, and leaves the sender fresh, with the announced backlogs over the old ones, and
      bidirectional exactly if it was already or my address is listed. */
  lemma {:induction false} HandledFacts<A>(t: seq<Nbr<A>>, me: A, h: Hello<A>, now: Time)
    requires ValidTable(t)
    ensures var r := Handled(t, me, h, now);
            && ValidTable(r)
            && (forall a :: a != h.orig ==> Record(r, a) == Record(t, a))
            && Record(r, h.orig).Some? && Record(r, h.orig).value.time == now
    ensures var r, was := Handled(t, me, h, now), Record(t, h.orig);
            && (Record(r, h.orig).value.bidir <==> (was.Some? && was.value.bidir) || me in h.addrs)
            && forall a :: BacklogOf(Record(r, h.orig).value.coms, a)
                 == if Announced(h.coms, a).Some? then Announced(h.coms, a)
                    else if was.Some? then BacklogOf(was.value.coms, a) else None
  {
    hide Met, LearnedAll, BacklogOf, Announced;
    var met := Met(t, h.orig, now);
    var i := FindNbr(met, h.orig);
    MetKeeps(t, h.orig, now);
    var n := met[i].(coms := LearnedAll(met[i].coms, h.coms), bidir := met[i].bidir || me in h.addrs);
    forall a
      ensures UniqueComs(n.coms)
      ensures BacklogOf(n.coms, a) == if Announced(h.coms, a).Some? then Announced(h.coms, a)
        else BacklogOf(met[i].coms, a)
    {
      LearnedAllBacklogs(met[i].coms, h.coms, a);
    }
    LearnedAllBacklogs(met[i].coms, h.coms, h.orig);
    ReplacedRecord(met, i, n);
    NothingHeard<A>();
  }

  lemma {:induction false} NothingHeard<A>()
    ensures forall a: A :: BacklogOf([], a) == None
  {
  }

  // ---------------------------------------------------------------- the callbacks

  /** One TLV of a hello message: a commodity, or something that the reader does not recognise. */
  datatype Item<A> = Known(com: Com<A>) | Unrecognised

  class Table<A(==)> {
    const me: A
    const list: List<Neighbor<A>>
    var n: Neighbor?<A>  // the sender of the hello that is being handled

    ghost var nlist: seq<Neighbor<A>>  // the neighbours in the list

    ghost predicate Valid()
      reads this, list, list.elms
    {
      && list.Valid() && DataOf(list.elms) == nlist
      && (forall i, j :: 0 <= i < j < |nlist| ==> nlist[i] != nlist[j])
      && (n != null ==> n in nlist)
    }

    constructor (me: A)
      ensures Valid() && View() == [] && this.me == me && fresh(list) && list.elms == []
    {
      this.me := me;
      var l := new List<Neighbor<A>>();
      list := l;
      nlist, n := [], null;
    }

    /** The table as a value. */
    ghost function View(): (v: seq<Nbr<A>>)
      reads this, nlist
    {
      ViewsOf(nlist)
    }

    /** nlist_find */
    method Lookup(orig: A) returns (x: Neighbor?<A>)
      requires Valid()
      ensures var i := FindNbr(View(), orig); x == if i < |nlist| then nlist[i] else null
    {
      hide DataOf, FirstMatch, Linked, FindNbr;
      DataLength(list.elms);
      FirstMatchAt(list.elms, (x: Neighbor<A>) => x.addr == orig, FindNbr(View(), orig));
      var e := list.Find((x: Neighbor<A>) => x.addr == orig);
      x := if e == null then null else e.data;
    }

    /** list_insert, for the sender's record. */
    method Enlist(x: Neighbor<A>)
      requires Valid() && x !in nlist
      modifies this`nlist, this`n, list, Elems(list.elms)
      ensures Valid() && n == x && nlist == [x] + old(nlist)
      ensures forall e :: e in list.elms ==> e in old(list.elms) || fresh(e)
    {
      hide DataOf, Linked;
      list.FirstIs();
      list.Insert(x);
      nlist, n := [x] + nlist, x;
      assert forall e :: e in list.elms ==> e == list.elms[0] || e in list.elms[1..];
    }

    /** A new record in front of the list. */
    method AddNeighbor(orig: A)
      requires Valid()
      modifies this`nlist, this`n, list, Elems(list.elms)
      ensures Valid() && fresh(n) && nlist == [n] + old(nlist)
      ensures View() == [Nbr(orig, false, n.updateTime, [])] + old(View())
      ensures forall e :: e in list.elms ==> e in old(list.elms) || fresh(e)
    {
      hide DataOf, Linked, ViewsOf;
      ghost var was := nlist;
      var x := new Neighbor<A>(orig);
      Enlist(x);
      ViewsFront(x, was);
    }

    /** The sender's record p gets the current time. */
    method Stamp(now: Time, ghost p: nat)
      requires Valid() && p < |nlist| && n == nlist[p]
      modifies n`updateTime
      ensures Valid() && View() == old(View())[p := old(View())[p].(time := now)]
    {
      hide ViewsOf, DataOf, Linked;
      ghost var was := View();
      n.updateTime := now;
      forall k | 0 <= k < |nlist| ensures ViewOf(nlist[k]) == was[p := was[p].(time := now)][k] {
        assert k == p || nlist[k] != n;
      }
      assert View() == was[p := was[p].(time := now)];
    }

    /** Find the sender's record, at position p, or put a new one in front. */
    method Meet(orig: A) returns (ghost p: nat)
      requires Valid()
      modifies this`nlist, this`n, list, Elems(list.elms)
      ensures Valid() && p < |nlist| && n == nlist[p]
      ensures var i := FindNbr(old(View()), orig);
              if i < |old(nlist)| then p == i && nlist == old(nlist) && View() == old(View())
              else p == 0 && fresh(n) && nlist == [n] + old(nlist)
                   && View() == [Nbr(orig, false, n.updateTime, [])] + old(View())
      ensures forall e :: e in list.elms ==> e in old(list.elms) || fresh(e)
    {
      hide FindNbr, DataOf, Linked, ViewsOf, ViewOf;
      p := FindNbr(View(), orig);
      n := Lookup(orig);
      if n == null {
        AddNeighbor(orig);
        p := 0;
      }
    }

    /** hello_cons_msg_start */
    method MessageStart(orig: A, now: Time)
      requires Valid()
      modifies this`nlist, this`n, list, Elems(list.elms), (set x | x in nlist)`updateTime
      ensures Valid() && View() == Met(old(View()), orig, now)
      ensures n != null && FindNbr(View(), orig) < |nlist| && nlist[FindNbr(View(), orig)] == n
      ensures forall x :: x in nlist ==> x in old(nlist) || fresh(x)
      ensures forall e :: e in list.elms ==> e in old(list.elms) || fresh(e)
    {
      hide Met, FindNbr, DataOf, Linked, ViewsOf, ViewOf;
      MetAt(View(), orig, now, FindNbr(View(), orig));
      ghost var p := Meet(orig);
      Stamp(now, p);
    }

    /** hello_cons_msg_tlv: note a commodity; anything else ends the process. */
    method MessageTlv(item: Item<A>) returns (aborted: bool)
      requires Valid() && n != null
      modifies n`clist
      ensures aborted <==> item.Unrecognised?
      ensures aborted ==> n.clist == old(n.clist)
      ensures !aborted ==> n.clist == Learned(old(n.clist), item.com)
    {
      if item.Unrecognised? {
        return true;
      }
      var i := FindHeard(n.clist, item.com.addr);
      if i == |n.clist| {
        n.clist := [Heard(item.com.addr, 0, 0)] + n.clist;
        i := 0;
      }
      n.clist := n.clist[i := n.clist[i].(backlog := item.com.backlog)];
      return false;
    }

    /** hello_cons_addr_start */
    method AddressStart(addr: A)
      requires Valid() && n != null
      modifies n`bidir
      ensures n.bidir == (old(n.bidir) || addr == me)
    {
      if addr == me {
        n.bidir := true;
      }
    }

    /** list_remove_cond with cond_n_expired: the outcome of test k of the sweep depends on the clock's
        reading k. */
    method Sweep(clock: nat -> Time, timeout: nat, ghost was: seq<Neighbor<A>>, ghost times: map<Neighbor<A>, Time>)
      requires list.Valid() && DataOf(list.elms) == was
      requires forall x :: x in was ==> x in times && times[x] == x.updateTime
      modifies list, Elems(list.elms)
      ensures list.Valid() && DataOf(list.elms) == Kept(was, Verdict(clock, timeout, times), 0)
      ensures Elems(list.elms) <= old(Elems(list.elms))
    {
      hide Kept, DataOf, Linked;
      ghost var cond := Verdict(clock, timeout, times);
      SweepBegins(list, was, cond);
      var eprev: Elm?<Neighbor<A>>, ecur := null, list.first;
      var k := 0;
      ghost var kept := 0;
      while ecur != null
        invariant list.Sweeping(was, cond, k, kept, eprev, ecur) && Elems(list.elms) <= old(Elems(list.elms))
        decreases |was| - k
      {
        Current(list, was, cond, k, kept, eprev, ecur);
        var out := Expired(clock(k), ecur.data.updateTime, timeout);
        eprev, ecur, kept := list.Round(out, cond, k, eprev, ecur, was, kept);
        k := k + 1;
      }
      SweepEnds(list, was, cond, k, kept, eprev, ecur);
    }

    /** ntable_refresh: test k reads the clock for the k-th time.  The sender of the last hello may
        be among the neighbours that are freed; it is not used again before the next hello sets it. */
    method Refresh(clock: nat -> Time, timeout: nat)
      requires Valid()
      modifies this`nlist, this`n, list, Elems(list.elms)
      ensures Valid() && View() == Fresh(old(View()), clock, timeout)
      ensures forall x :: x in nlist ==> x in old(nlist)
      ensures forall e :: e in list.elms ==> e in old(list.elms)
    {
      hide Kept, DataOf, ViewsOf, Linked;
      ghost var times := map x | x in nlist :: x.updateTime;
      KeptDistinct(nlist, Verdict(clock, timeout, times), 0);
      KeptMembers(nlist, Verdict(clock, timeout, times), 0);
      Sweep(clock, timeout, nlist, times);
      KeptViews(nlist, times, clock, timeout, 0);
      assert forall e :: e in list.elms ==> e in Elems(list.elms);
      nlist := Kept(nlist, Verdict(clock, timeout, times), 0);
      n := null;
    }

    /** The callbacks for the TLVs of one message. */
    method MessageTlvs(items: seq<Item<A>>) returns (aborted: bool)
      requires Valid() && n != null
      modifies n`clist
      ensures aborted <==> Unrecognised in items
      ensures !aborted ==> n.clist == LearnedAll(old(n.clist), ComsOf(items))
    {
      hide LearnedAll, Learned;
      aborted := false;
      var i := 0;
      NoComs(n.clist);
      assert items[..0] == [];
      while i < |items|
        invariant i <= |items| && Unrecognised !in items[..i] && !aborted
        invariant n.clist == LearnedAll(old(n.clist), ComsOf(items[..i]))
      {
        aborted := MessageTlv(items[i]);
        if aborted {
          return;
        }
        ComsStep(old(n.clist), items, i);
        i := i + 1;
      }
      assert items[..i] == items;
    }

    /** The callbacks for the addresses of one message. */
    method Addresses(addrs: seq<A>)
      requires Valid() && n != null
      modifies n`bidir
      ensures n.bidir == (old(n.bidir) || me in addrs)
    {
      var i := 0;
      while i < |addrs|
        invariant i <= |addrs| && n.bidir == (old(n.bidir) || me in addrs[..i])
      {
        AddressStart(addrs[i]);
        i := i + 1;
      }
      assert addrs[..i] == addrs;
    }

    /** The callbacks for the content of one message, from the sender whose record is p. */
    method Content(items: seq<Item<A>>, addrs: seq<A>, ghost p: nat) returns (aborted: bool)
      requires Valid() && p < |nlist| && n == nlist[p]
      modifies n`clist, n`bidir
      ensures Valid() && (aborted <==> Unrecognised in items)
      ensures !aborted ==> var r := old(View())[p];
        View() == old(View())[p := r.(coms := LearnedAll(r.coms, ComsOf(items)), bidir := r.bidir || me in addrs)]
    {
      hide LearnedAll, ViewsOf, DataOf, Linked, ComsOf;
      ghost var was := View();
      aborted := MessageTlvs(items);
      if !aborted {
        Addresses(addrs);
        ghost var r := was[p].(coms := LearnedAll(was[p].coms, ComsOf(items)), bidir := was[p].bidir || me in addrs);
        forall k | 0 <= k < |nlist| ensures ViewOf(nlist[k]) == was[p := r][k] {
          assert k == p || nlist[k] != n;
        }
        assert View() == was[p := r];
      }
    }

    /** hello_recv for one hello message: the callbacks in the order in which the reader calls them. */
    method Receive(orig: A, items: seq<Item<A>>, addrs: seq<A>, now: Time) returns (aborted: bool)
      requires Valid()
      modifies this`nlist, this`n, list, Elems(list.elms)
      modifies (set x | x in nlist)`updateTime, (set x | x in nlist)`clist, (set x | x in nlist)`bidir
      ensures Valid() && (forall x :: x in nlist ==> x in old(nlist) || fresh(x))
      ensures forall e :: e in list.elms ==> e in old(list.elms) || fresh(e)
      ensures aborted <==> Unrecognised in items
      ensures !aborted ==> View() == Handled(old(View()), me, Hello(orig, ComsOf(items), addrs), now)
    {
      hide Met, LearnedAll, FindNbr, ViewsOf, ViewOf, DataOf, Linked, ComsOf;
      MessageStart(orig, now);
      aborted := Content(items, addrs, FindNbr(View(), orig));
    }
  }

  ghost function ExpiryTest<A>(clock: nat -> Time, timeout: nat): (nat, Nbr<A>) -> bool {
    (k: nat, x: Nbr<A>) => Expired(clock(k), x.time, timeout)
  }

  /** The same test on the records of a locked table, whose times do not change during the sweep. */
  ghost function Verdict<A>(clock: nat -> Time, timeout: nat, times: map<Neighbor<A>, Time>)
    : (nat, Neighbor<A>) -> bool
  {
    (k: nat, x: Neighbor<A>) => x in times && Expired(clock(k), times[x], timeout)
  }

  lemma {:induction false} ViewsFront<A>(x: Neighbor<A>, ns: seq<Neighbor<A>>)
    ensures ViewsOf([x] + ns) == [ViewOf(x)] + ViewsOf(ns)
  {
  }

  lemma {:induction false} SweepBegins<T>(list: List<T>, was: seq<T>, cond: (nat, T) -> bool)
    requires list.Valid() && DataOf(list.elms) == was
    ensures list.Sweeping(was, cond, 0, 0, null, list.first)
  {
    KeptNone(cond);
  }

  lemma {:induction false} Current<T>(list: List<T>, was: seq<T>, cond: (nat, T) -> bool, tests: nat, kept: nat,
                                      eprev: Elm?<T>, ecur: Elm<T>)
    requires list.Sweeping(was, cond, tests, kept, eprev, ecur)
    ensures tests < |was| && ecur.data == was[tests]
  {
    DataLength(list.elms);
    assert DataOf(list.elms)[kept..][0] == was[tests..][0];
  }

  lemma {:induction false} SweepEnds<T>(list: List<T>, was: seq<T>, cond: (nat, T) -> bool, tests: nat, kept: nat,
                                        eprev: Elm?<T>, ecur: Elm?<T>)
    requires list.Sweeping(was, cond, tests, kept, eprev, ecur) && ecur == null
    ensures list.Valid() && DataOf(list.elms) == Kept(was, cond, 0)
  {
    DataLength(list.elms);
    assert was[..tests] == was;
  }

  lemma {:induction false} KeptMembers<T>(s: seq<T>, cond: (nat, T) -> bool, k: nat)
    ensures forall x :: x in Kept(s, cond, k) ==> x in s
  {
    hide Kept;
    forall x | x in Kept(s, cond, k) ensures x in s {
      var i := KeptFrom(s, cond, k, x);
    }
  }

  lemma {:induction false} KeptDistinct<T>(s: seq<T>, cond: (nat, T) -> bool, k: nat)
    requires forall i, j :: 0 <= i < j < |s| ==> s[i] != s[j]
    ensures forall i, j :: 0 <= i < j < |Kept(s, cond, k)| ==> Kept(s, cond, k)[i] != Kept(s, cond, k)[j]
  {
    if s == [] {
    } else {
      var r := Kept(s[1..], cond, k + 1);
      KeptDistinct(s[1..], cond, k + 1);
      KeptMembers(s[1..], cond, k + 1);
      forall j | 0 <= j < |r| ensures r[j] != s[0] {
        assert r[j] in s[1..];
        var i :| 0 <= i < |s[1..]| && s[1..][i] == r[j];
        assert s[i + 1] == r[j];
      }
    }
  }

  /** Sweeping the records is sweeping what they say. */
  lemma {:induction false} KeptViews<A>(ns: seq<Neighbor<A>>, times: map<Neighbor<A>, Time>, clock: nat -> Time,
                                        timeout: nat, k: nat)
    requires forall x :: x in ns ==> x in times && times[x] == x.updateTime
    ensures ViewsOf(Kept(ns, Verdict(clock, timeout, times), k)) == Kept(ViewsOf(ns), ExpiryTest(clock, timeout), k)
  {
    if ns == [] {
    } else {
      KeptViews(ns[1..], times, clock, timeout, k + 1);
      assert ViewsOf(ns)[1..] == ViewsOf(ns[1..]) && ns[0] in ns;
      var rest := Kept(ns[1..], Verdict(clock, timeout, times), k + 1);
      ViewsFront(ns[0], rest);
      assert [] + rest == rest;
    }
  }

  /** The neighbours that a refresh keeps. */
  ghost function Fresh<A>(t: seq<Nbr<A>>, clock: nat -> Time, timeout: nat): seq<Nbr<A>> {
    Kept(t, ExpiryTest(clock, timeout), 0)
  }

  ghost function ViewOf<A>(x: Neighbor<A>): Nbr<A>
    reads x
  {
    Nbr(x.addr, x.bidir, x.updateTime, x.clist)
  }

  ghost function ViewsOf<A>(ns: seq<Neighbor<A>>): (v: seq<Nbr<A>>)
    reads ns
    ensures |v| == |ns| && forall i :: 0 <= i < |ns| ==> v[i] == ViewOf(ns[i])
  {
    seq(|ns|, i requires 0 <= i < |ns| reads ns => ViewOf(ns[i]))
  }

  lemma {:induction false} NoComs<A>(s: seq<Heard<A>>)
    ensures LearnedAll(s, ComsOf([])) == s
  {
  }

  lemma {:induction false} ComsStep<A>(s: seq<Heard<A>>, items: seq<Item<A>>, i: nat)
    requires i < |items| && items[i].Known?
    ensures LearnedAll(s, ComsOf(items[..i + 1])) == Learned(LearnedAll(s, ComsOf(items[..i])), items[i].com)
  {
    assert items[..i + 1][..i] == items[..i];
    var cs := ComsOf(items[..i]);
    assert (cs + [items[i].com])[..|cs|] == cs;
  }

  /** The commodities among the items. */
  ghost function ComsOf<A>(items: seq<Item<A>>): (r: seq<Com<A>>) {
    if items == [] then []
    else ComsOf(items[..|items| - 1]) + if items[|items| - 1].Known? then [items[|items| - 1].com] else []
  }
}
