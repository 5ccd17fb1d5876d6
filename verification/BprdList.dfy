/** The linked list of src/list.c over the LIST macros of <sys/queue.h>. */
module BprdList {
  import opened Basics

  /** elm_t; prev stands for le_prev, the place that points to this element. */
  class Elm<T> {
    const data: T
    var next: Elm?<T>
    var prev: Elm?<T>

    constructor (data: T)
      ensures this.data == data && next == null && prev == null
    {
      this.data := data;
      next, prev := null, null;
    }
  }

  function ElmAt<T>(s: seq<Elm<T>>, i: int): Elm?<T> {
    if 0 <= i < |s| then s[i] else null
  }

  ghost function DataOf<T>(s: seq<Elm<T>>): (r: seq<T>)
    ensures |r| == |s| && forall i :: 0 <= i < |s| ==> r[i] == s[i].data
  {
    seq(|s|, i requires 0 <= i < |s| => s[i].data)
  }

  ghost predicate Linked<T>(first: Elm?<T>, s: seq<Elm<T>>)
    reads s
  {
    && first == ElmAt(s, 0)
    && (forall i, j :: 0 <= i < j < |s| ==> s[i] != s[j])
    && (forall i {:trigger s[i].next} :: 0 <= i < |s| ==> s[i].next == ElmAt(s, i + 1))
    && (forall i {:trigger s[i].prev} :: 0 <= i < |s| ==> s[i].prev == ElmAt(s, i - 1))
  }

  /** The data that does not meet the condition; test k of the sweep may decide differently from
      test k + 1, as a condition that reads the clock does. */
  ghost function Kept<T>(s: seq<T>, cond: (nat, T) -> bool, k: nat): seq<T> {
    if s == [] then [] else (if cond(k, s[0]) then [] else [s[0]]) + Kept(s[1..], cond, k + 1)
  }

  lemma {:induction false} KeptNone<T>(cond: (nat, T) -> bool)
    ensures Kept([], cond, 0) == []
  {
  }

  lemma {:induction false} KeptAppend<T>(s: seq<T>, x: T, cond: (nat, T) -> bool, k: nat)
    ensures Kept(s + [x], cond, k) == Kept(s, cond, k) + if cond(k + |s|, x) then [] else [x]
  {
    if s == [] {
      assert s + [x] == [x] && [x][1..] == [];
    } else {
      KeptAppend(s[1..], x, cond, k + 1);
      assert (s + [x])[1..] == s[1..] + [x];
    }
  }

  /** Data is kept only if it failed its test. */
  lemma {:induction false} KeptFrom<T>(s: seq<T>, cond: (nat, T) -> bool, k: nat, x: T) returns (i: nat)
    requires x in Kept(s, cond, k)
    ensures i < |s| && s[i] == x && !cond(k + i, x)
  {
    if !cond(k, s[0]) && s[0] == x {
      i := 0;
    } else {
      i := KeptFrom(s[1..], cond, k + 1, x);
      i := i + 1;
    }
  }

  /** The links behind a new first element make a list with it. */
  lemma {:induction false} LinkedFront<T>(e: Elm<T>, s: seq<Elm<T>>)
    requires e !in s && e.next == ElmAt(s, 0) && e.prev == null && forall j, k :: 0 <= j < k < |s| ==> s[j] != s[k]
    requires forall j {:trigger s[j].next} :: 0 <= j < |s| ==> s[j].next == ElmAt(s, j + 1)
    requires forall j {:trigger s[j].prev} :: 0 <= j < |s| ==> s[j].prev == if j == 0 then e else s[j - 1]
    ensures Linked(e, [e] + s)
  {
    var r := [e] + s;
    forall j | 0 <= j < |r| ensures r[j].next == ElmAt(r, j + 1) && r[j].prev == ElmAt(r, j - 1) {
      if j > 0 { assert r[j] == s[j - 1]; }
    }
  }

  lemma {:induction false} DataFront<T>(e: Elm<T>, s: seq<Elm<T>>)
    ensures DataOf([e] + s) == [e.data] + DataOf(s)
  {
  }

  lemma {:induction false} DataLength<T>(s: seq<Elm<T>>)
    ensures |DataOf(s)| == |s| && forall i :: 0 <= i < |s| ==> DataOf(s)[i] == s[i].data
  {
  }

  lemma {:induction false} WithoutAt<T>(s: seq<T>, i: nat)
    requires i < |s|
    ensures |Removed(s, i)| == |s| - 1
    ensures forall j :: 0 <= j < |s| - 1 ==> Removed(s, i)[j] == s[if j < i then j else j + 1]
    ensures forall x :: x in Removed(s, i) ==> x in s
  {
  }

  lemma {:induction false} ElmAtWithout<T>(s: seq<Elm<T>>, i: nat)
    requires i < |s|
    ensures forall j :: -1 <= j < |s| ==> ElmAt(Removed(s, i), j) == ElmAt(s, if j < i then j else j + 1)
    ensures ElmAt(s, 0) == s[0] && ElmAt(s, -1) == null
  {
  }

  /** The links around a gap at position i make the rest a list. */
  lemma {:induction false} LinkedWithout<T>(first: Elm?<T>, s: seq<Elm<T>>, i: nat)
    requires i < |s| && first == (if i == 0 then ElmAt(s, 1) else s[0]) && forall j, k :: 0 <= j < k < |s| ==>
      s[j] != s[k]
    requires forall j {:trigger s[j].next} :: 0 <= j < |s| && j != i ==>
      s[j].next == ElmAt(s, if j + 1 == i then i + 1 else j + 1)
    requires forall j {:trigger s[j].prev} :: 0 <= j < |s| && j != i ==>
      s[j].prev == ElmAt(s, if j == i + 1 then i - 1 else j - 1)
    ensures Linked(first, Removed(s, i))
  {
    hide Removed, ElmAt;
    WithoutAt(s, i);
    var r := Removed(s, i);
    ElmAtWithout(s, i);
    forall j | 0 <= j < |r| ensures r[j].next == ElmAt(r, j + 1) && r[j].prev == ElmAt(r, j - 1) {
      assert r[j] == s[if j < i then j else j + 1];
    }
  }

  lemma {:induction false} DataWithout<T>(s: seq<Elm<T>>, i: nat)
    requires i < |s|
    ensures |DataOf(s)| == |s| && DataOf(Removed(s, i)) == DataOf(s)[..i] + DataOf(s)[i + 1..]
  {
  }

  /** One round of a sweep: d is the list, of which kept elements passed; the next one is tested. */
  lemma {:induction false} SweepStep<T>(was: seq<T>, tests: nat, d: seq<T>, kept: nat, cond: (nat, T) -> bool)
    requires tests < |was| && kept < |d| && d[..kept] == Kept(was[..tests], cond, 0) && d[kept..] == was[tests..]
    ensures d[kept] == was[tests]
    ensures cond(tests, was[tests]) ==>
      var r := d[..kept] + d[kept + 1..]; r[..kept] == Kept(was[..tests + 1], cond, 0) && r[kept..] == was[tests + 1..]
    ensures !cond(tests, was[tests]) ==>
      d[..kept + 1] == Kept(was[..tests + 1], cond, 0) && d[kept + 1..] == was[tests + 1..]
  {
    assert d[kept..][0] == was[tests..][0];
    assert d[kept..][1..] == d[kept + 1..] && was[tests..][1..] == was[tests + 1..];
    assert was[..tests + 1] == was[..tests] + [was[tests]];
    KeptAppend(was[..tests], was[tests], cond, 0);
    assert d[..kept + 1] == d[..kept] + [d[kept]];
  }

  /** The first data equal to what is looked for. */
  ghost function FirstMatch<T>(s: seq<Elm<T>>, eq: T -> bool): Elm?<T> {
    if s == [] then null else if eq(s[0].data) then s[0] else FirstMatch(s[1..], eq)
  }

  lemma {:induction false} FirstMatchAt<T>(s: seq<Elm<T>>, eq: T -> bool, i: nat)
    requires i <= |s| && (forall j :: 0 <= j < i ==> !eq(s[j].data)) && (i < |s| ==> eq(s[i].data))
    ensures FirstMatch(s, eq) == ElmAt(s, i)
  {
    if i == 0 {
    } else {
      FirstMatchAt(s[1..], eq, i - 1);
    }
  }

  class List<T> {
    var first: Elm?<T>
    ghost var elms: seq<Elm<T>>

    ghost predicate Valid()
      reads this, elms
    {
      Linked(first, elms)
    }

    /** list_init */
    constructor ()
      ensures Valid() && elms == []
    {
      first, elms := null, [];
    }

    /** list_insert: the new element becomes the first. */
    method Insert(data: T)
      requires Valid()
      modifies this, if first == null then {} else {first}
      ensures Valid() && |elms| == |old(elms)| + 1 && fresh(elms[0]) && elms[1..] == old(elms)
      ensures DataOf(elms) == [data] + DataOf(old(elms))
    {
      hide DataOf;
      var e := new Elm<T>(data);
      e.next := first;
      if first != null {
        first.prev := e;
      }
      first := e;
      DataFront(e, elms);
      LinkedFront(e, elms);
      elms := [e] + elms;
    }

    /** list_find */
    method Find(eq: T -> bool) returns (r: Elm?<T>)
      requires Valid()
      ensures r == FirstMatch(elms, eq)
    {
      r := first;
      ghost var i := 0;
      while r != null
        invariant i <= |elms| && r == ElmAt(elms, i)
        invariant forall j :: 0 <= j < i ==> !eq(elms[j].data)
        decreases |elms| - i
      {
        if eq(r.data) {
          FirstMatchAt(elms, eq, i);
          return;
        }
        r, i := r.next, i + 1;
      }
      FirstMatchAt(elms, eq, i);
    }

    /** LIST_REMOVE of element i */
    method Unlink(e: Elm<T>, ghost i: nat)
      requires Valid() && i < |elms| && elms[i] == e
      modifies this, Elems(elms)
      ensures Valid() && elms == Removed(old(elms), i)
      ensures ElmAt(elms, i) == old(e.next)
    {
      hide Removed;
      assert e.next == ElmAt(elms, i + 1) && e.prev == ElmAt(elms, i - 1);
      if e.next != null {
        e.next.prev := e.prev;
      }
      if e.prev == null {
        first := e.next;
      } else {
        e.prev.next := e.next;
      }
      LinkedWithout(first, elms, i);
      WithoutAt(elms, i);
      elms := Removed(elms, i);
    }

    /** What holds between two rounds of the sweep: kept elements passed, the rest is untested. */
    ghost predicate Sweeping(was: seq<T>, cond: (nat, T) -> bool, tests: nat, kept: nat, eprev: Elm?<T>, ecur: Elm?<T>)
      reads this, elms
    {
      && Valid() && tests <= |was| && kept <= |elms| && |elms| - kept == |was| - tests
      && eprev == ElmAt(elms, kept - 1) && ecur == ElmAt(elms, kept)
      && DataOf(elms)[..kept] == Kept(was[..tests], cond, 0) && DataOf(elms)[kept..] == was[tests..]
    }

    /** One round, with the outcome of the test: unlink the current element or step over it. */
    method Round(out: bool, ghost cond: (nat, T) -> bool, ghost tests: nat, prev: Elm?<T>, cur: Elm<T>,
                 ghost was: seq<T>, ghost kept: nat)
      returns (eprev: Elm?<T>, ecur: Elm?<T>, ghost k: nat)
      requires Sweeping(was, cond, tests, kept, prev, cur) && out == cond(tests, cur.data)
      modifies this, Elems(elms)
      ensures Sweeping(was, cond, tests + 1, k, eprev, ecur) && Elems(elms) <= old(Elems(elms))
    {
      hide Kept, DataOf;
      ghost var d := DataOf(elms);
      DataLength(elms);
      SweepStep(was, tests, d, kept, cond);
      eprev, ecur, k := prev, cur, kept;
      if out {
        DataWithout(elms, kept);
        Unlink(cur, kept);
        DataLength(elms);
        if eprev == null {
          ecur := first;
        } else {
          ecur := eprev.next;
        }
      } else {
        eprev := ecur;
        ecur := ecur.next;
        k := kept + 1;
      }
    }

    /** list_remove_cond: one pass over the list tests every element once, in order, and takes out
        exactly those that meet the condition. */
    method RemoveCond(cond: (nat, T) -> bool) returns (tests: nat)
      requires Valid()
      modifies this, Elems(elms)
      ensures Valid() && tests == |old(elms)|
      ensures DataOf(elms) == Kept(DataOf(old(elms)), cond, 0)
    {
      hide Kept, Linked;
      ghost var was, kept := DataOf(elms), 0;
      KeptNone(cond);
      var eprev: Elm?<T>, ecur := null, first;
      tests := 0;
      assert ecur == ElmAt(elms, 0) by { FirstIs(); }
      while ecur != null
        invariant Sweeping(was, cond, tests, kept, eprev, ecur)
        invariant Elems(elms) <= old(Elems(elms))
        decreases |was| - tests
      {
        eprev, ecur, kept := Round(cond(tests, ecur.data), cond, tests, eprev, ecur, was, kept);
        tests := tests + 1;
      }
      assert was[..tests] == was;
    }

    lemma {:induction false} NextIs(i: nat)
      requires Valid() && i < |elms|
      ensures elms[i].next == ElmAt(elms, i + 1)
    {
    }

    lemma {:induction false} FirstIs()
      requires Valid()
      ensures first == ElmAt(elms, 0)
    {
    }
  }
}
