/**
  * Where an insertion or a removal of lib/common/avl.c lands in the sorted list, and what it does
  * to the leaders.
  */
module AvlPlace {
  import opened Basics
  import opened AvlShape
  import opened AvlOrder

  ghost predicate KeysBelow<K>(c: Comparator<K>, s: seq<AvlNode<K>>, k: K) {
    forall i :: 0 <= i < |s| ==> c(k, s[i].key) > 0
  }

  ghost predicate KeysAbove<K>(c: Comparator<K>, s: seq<AvlNode<K>>, k: K) {
    forall i :: 0 <= i < |s| ==> c(k, s[i].key) < 0
  }

  /** s[i..j+1] is one whole run of equal keys. */
  ghost predicate Run<K>(c: Comparator<K>, s: seq<AvlNode<K>>, i: nat, j: nat) {
    && i <= j < |s| && IsFirst(c, s, i)
    && (forall m :: i < m <= j ==> !IsFirst(c, s, m))
    && (j + 1 < |s| ==> IsFirst(c, s, j + 1))
  }

  // ---------------------------------------------------------------- runs

  lemma {:induction false} RunEqual<K(!new)>(c: Comparator<K>, s: seq<AvlNode<K>>, i: nat, j: nat, m: nat)
    requires TotalOrder(c) && Run(c, s, i, j) && i <= m <= j
    ensures c(s[i].key, s[m].key) == 0
    decreases m
  {
    if i < m {
      RunEqual(c, s, i, j, m - 1);
      assert !IsFirst(c, s, m);
      Chain(c, s[i].key, s[m - 1].key, s[m].key);
    } else {
      Chain(c, s[i].key, s[i].key, s[i].key);
    }
  }

  lemma {:induction false} RunFirsts<K>(c: Comparator<K>, s: seq<AvlNode<K>>)
    requires s != [] && forall m :: 0 < m < |s| ==> !IsFirst(c, s, m)
    ensures Firsts(c, s) == [s[0]]
  {
    if |s| == 1 {
      FirstsStep(c, [], s[0]);
      assert [] + [s[0]] == s;
    } else {
      var s', x := s[..|s| - 1], s[|s| - 1];
      forall m | 0 < m < |s'| ensures !IsFirst(c, s', m) {
        assert !IsFirst(c, s, m);
      }
      RunFirsts(c, s');
      assert s == s' + [x] && !IsFirst(c, s, |s| - 1);
      FirstsStep(c, s', x);
    }
  }

  /** The leaders before, of and after one run. */
  lemma {:induction false} RunCut<K>(c: Comparator<K>, s: seq<AvlNode<K>>, i: nat, j: nat)
    requires Run(c, s, i, j)
    ensures Firsts(c, s[i..]) == [s[i]] + Firsts(c, s[j + 1..])
    ensures Firsts(c, s) == Firsts(c, s[..i]) + [s[i]] + Firsts(c, s[j + 1..])
  {
    hide Firsts;
    var a, r, b := s[..i], s[i..j + 1], s[j + 1..];
    assert Firsts(c, r) == [s[i]] by {
      forall m | 0 < m < |r| ensures !IsFirst(c, r, m) {
        assert !IsFirst(c, s, i + m);
      }
      RunFirsts(c, r);
    }
    assert r + b == s[i..] && a + s[i..] == s;
    FirstsApart(c, r, b);
    FirstsApart(c, a, s[i..]);
  }

  lemma {:induction false} LeadersBelow<K(!new)>(c: Comparator<K>, s: seq<AvlNode<K>>, k: K)
    requires TotalOrder(c) && KeysBelow(c, Firsts(c, s), k)
    ensures KeysBelow(c, s, k)
  {
    forall m | 0 <= m < |s| ensures c(k, s[m].key) > 0 {
      var j := FirstsCover(c, s, m);
      Chain(c, k, s[j].key, s[m].key);
    }
  }

  lemma {:induction false} LeadersAbove<K(!new)>(c: Comparator<K>, s: seq<AvlNode<K>>, k: K)
    requires TotalOrder(c) && KeysAbove(c, Firsts(c, s), k)
    ensures KeysAbove(c, s, k)
  {
    forall m | 0 <= m < |s| ensures c(k, s[m].key) < 0 {
      var j := FirstsCover(c, s, m);
      Chain(c, k, s[j].key, s[m].key);
    }
  }

  /** The list around the run where a search for k ended: everything before it is less than k,
      everything after it greater. */
  lemma {:induction false} SearchCut<K(!new)>(c: Comparator<K>, s: seq<AvlNode<K>>, k: K, x: seq<AvlNode<K>>,
                                              n: AvlNode<K>, y: seq<AvlNode<K>>,
                           i: nat, j: nat)
    requires TotalOrder(c) && NoDup(s) && Firsts(c, s) == x + [n] + y && KeysBelow(c, x, k) && KeysAbove(c, y, k)
    requires Run(c, s, i, j) && s[i] == n
    ensures KeysBelow(c, s[..i], k) && KeysAbove(c, s[j + 1..], k)
    ensures Firsts(c, s[..i]) == x && Firsts(c, s[j + 1..]) == y
    ensures forall m :: i <= m <= j ==> c(n.key, s[m].key) == 0
    ensures forall m :: i <= m <= j ==>
      (c(k, s[m].key) < 0 <==> c(k, n.key) < 0) && (c(k, s[m].key) == 0 <==> c(k, n.key) == 0)
  {
    RunCut(c, s, i, j);
    FirstsNoDup(c, s);
    UniqueCut(x, n, y, Firsts(c, s[..i]), Firsts(c, s[j + 1..]));
    LeadersBelow(c, s[..i], k);
    LeadersAbove(c, s[j + 1..], k);
    forall m | i <= m <= j
      ensures c(n.key, s[m].key) == 0
      ensures (c(k, s[m].key) < 0 <==> c(k, n.key) < 0) && (c(k, s[m].key) == 0 <==> c(k, n.key) == 0)
    {
      RunEqual(c, s, i, j, m);
      Chain(c, k, n.key, s[m].key);
      Chain(c, k, s[m].key, n.key);
      Chain(c, n.key, s[m].key, n.key);
    }
  }

  // ---------------------------------------------------------------- insertion

  ghost function Inserted<T>(s: seq<T>, p: nat, x: T): seq<T>
    requires p <= |s|
  {
    s[..p] + [x] + s[p..]
  }

  lemma {:induction false} InsertedSorted<K(!new)>(c: Comparator<K>, s: seq<AvlNode<K>>, p: nat, x: AvlNode<K>)
    requires TotalOrder(c) && Sorted(c, s) && p <= |s|
    requires forall m :: 0 <= m < p ==> c(x.key, s[m].key) >= 0
    requires forall m :: p <= m < |s| ==> c(x.key, s[m].key) < 0
    ensures Inserted(s, p, x) == StableInsert(c, s, x)
    ensures Sorted(c, Inserted(s, p, x))
  {
    StableInsertAt(c, s, x, p);
    var q := StableInsertSorted(c, s, x);
  }

  /** Whether an old node starts a run depends on its predecessor only. */
  lemma {:induction false} InsertedFlag<K>(c: Comparator<K>, s: seq<AvlNode<K>>, p: nat, x: AvlNode<K>, m: nat)
    requires p <= |s| && m <= |s| && m != p
    requires m == p + 1 ==> c(x.key, s[p].key) != 0 && IsFirst(c, s, p)
    ensures IsFirst(c, Inserted(s, p, x), m) <==> IsFirst(c, s, if m < p then m else m - 1)
  {
    var t := Inserted(s, p, x);
    if m < p {
      assert t[m] == s[m];
    } else if m == p + 1 {
      assert t[m - 1] == x && t[m] == s[p];
    } else {
      assert t[m] == s[m - 1] && t[m - 1] == s[m - 2];
    }
  }

  /** A node that starts its own run becomes a leader, and no other leader changes. */
  lemma {:induction false} InsertedLeader<K>(c: Comparator<K>, s: seq<AvlNode<K>>, p: nat, x: AvlNode<K>)
    requires p <= |s|
    requires p > 0 ==> c(s[p - 1].key, x.key) != 0
    requires p < |s| ==> c(x.key, s[p].key) != 0 && IsFirst(c, s, p)
    ensures Firsts(c, Inserted(s, p, x)) == Firsts(c, s[..p]) + [x] + Firsts(c, s[p..])
    ensures forall m :: 0 <= m < |s| + 1 ==>
      (IsFirst(c, Inserted(s, p, x), m) <==> m == p || IsFirst(c, s, if m < p then m else m - 1))
  {
    hide Firsts;
    FirstsStep(c, s[..p], x);
    FirstsApart(c, s[..p] + [x], s[p..]);
    forall m | 0 <= m < |s| + 1
      ensures IsFirst(c, Inserted(s, p, x), m) <==> m == p || IsFirst(c, s, if m < p then m else m - 1)
    {
      if m != p { InsertedFlag(c, s, p, x, m); }
    }
  }

  /** A node put at the end of a run of its own key is no leader, and no leader changes. */
  lemma {:induction false} InsertedFollower<K>(c: Comparator<K>, s: seq<AvlNode<K>>, p: nat, x: AvlNode<K>)
    requires 0 < p <= |s|
    requires c(s[p - 1].key, x.key) == 0
    requires p < |s| ==> c(x.key, s[p].key) != 0 && IsFirst(c, s, p)
    ensures Firsts(c, Inserted(s, p, x)) == Firsts(c, s)
    ensures forall m :: 0 <= m < |s| + 1 ==>
      (IsFirst(c, Inserted(s, p, x), m) <==> m != p && IsFirst(c, s, if m < p then m else m - 1))
  {
    hide Firsts;
    FollowerFirsts(c, s[..p], x, s[p..]);
    assert s[..p] + s[p..] == s;
    forall m | 0 <= m < |s| + 1
      ensures IsFirst(c, Inserted(s, p, x), m) <==> m != p && IsFirst(c, s, if m < p then m else m - 1)
    {
      if m != p { InsertedFlag(c, s, p, x, m); }
    }
  }

  lemma {:induction false} FollowerFirsts<K>(c: Comparator<K>, a: seq<AvlNode<K>>, x: AvlNode<K>, b: seq<AvlNode<K>>)
    requires a != [] && c(a[|a| - 1].key, x.key) == 0
    requires b != [] ==> c(x.key, b[0].key) != 0 && c(a[|a| - 1].key, b[0].key) != 0
    ensures Firsts(c, a + [x] + b) == Firsts(c, a + b)
  {
    hide Firsts;
    FirstsStep(c, a, x);
    FirstsApart(c, a + [x], b);
    FirstsApart(c, a, b);
  }

  /** Where a search for k ended: n leads the run s[i..j+1], everything before it is less than k,
      everything after it greater, and the run itself compares with k as n does. */
  ghost predicate Spot<K>(c: Comparator<K>, s: seq<AvlNode<K>>, k: K, n: AvlNode<K>, i: nat, j: nat) {
    && Run(c, s, i, j) && s[i] == n
    && (forall m :: 0 <= m < i ==> c(k, s[m].key) > 0)
    && (forall m :: j < m < |s| ==> c(k, s[m].key) < 0)
    && (forall m :: i <= m <= j ==> c(n.key, s[m].key) == 0)
    && (forall m :: i <= m <= j ==>
          (c(k, s[m].key) < 0 <==> c(k, n.key) < 0) && (c(k, s[m].key) == 0 <==> c(k, n.key) == 0))
  }

  lemma {:induction false} SpotAt<K(!new)>(c: Comparator<K>, s: seq<AvlNode<K>>, k: K, x: seq<AvlNode<K>>,
                                           n: AvlNode<K>, y: seq<AvlNode<K>>,
                        i: nat, j: nat)
    requires TotalOrder(c) && NoDup(s) && Firsts(c, s) == x + [n] + y && KeysBelow(c, x, k) && KeysAbove(c, y, k)
    requires Run(c, s, i, j) && s[i] == n
    ensures Spot(c, s, k, n, i, j) && Firsts(c, s[..i]) == x && Firsts(c, s[j + 1..]) == y
  {
    SearchCut(c, s, k, x, n, y, i, j);
    forall m | 0 <= m < i ensures c(k, s[m].key) > 0 {
      assert s[..i][m] == s[m];
    }
    forall m | j < m < |s| ensures c(k, s[m].key) < 0 {
      assert s[j + 1..][m - j - 1] == s[m];
    }
  }

  /** The search hits exactly when a scan finds a node. */
  lemma {:induction false} SpotFinds<K(!new)>(c: Comparator<K>, s: seq<AvlNode<K>>, k: K, n: AvlNode<K>, i: nat, j: nat)
    requires Spot(c, s, k, n, i, j)
    ensures FindScan(c, s, k) == if c(k, n.key) == 0 then n else null
  {
    FindScanAt(c, s, k, if c(k, n.key) == 0 then i else |s|);
  }

  /** A node of an equal key goes to the end of its run. */
  lemma {:induction false} SpotFollower<K(!new)>(c: Comparator<K>, s: seq<AvlNode<K>>, x: AvlNode<K>, n: AvlNode<K>,
                                                 i: nat, j: nat, p: nat)
    requires TotalOrder(c) && Sorted(c, s) && Spot(c, s, x.key, n, i, j) && c(x.key, n.key) == 0 && p == j + 1
    ensures Inserted(s, p, x) == StableInsert(c, s, x) && Sorted(c, Inserted(s, p, x))
    ensures Firsts(c, Inserted(s, p, x)) == Firsts(c, s)
    ensures forall m :: 0 <= m < |s| + 1 ==>
      (IsFirst(c, Inserted(s, p, x), m) <==> m != p && IsFirst(c, s, if m < p then m else m - 1))
  {
    hide Firsts, StableInsert;
    Chain(c, s[j].key, x.key, s[j].key);
    InsertedFollower(c, s, p, x);
    InsertedSorted(c, s, p, x);
  }

  /** A node of a new key goes just before or just behind the run where the search ended. */
  lemma {:induction false} SpotLeader<K(!new)>(c: Comparator<K>, s: seq<AvlNode<K>>, x: AvlNode<K>, n: AvlNode<K>,
                                               i: nat, j: nat, p: nat)
    requires TotalOrder(c) && Sorted(c, s) && Spot(c, s, x.key, n, i, j) && c(x.key, n.key) != 0
    requires p == if c(x.key, n.key) < 0 then i else j + 1
    ensures Inserted(s, p, x) == StableInsert(c, s, x) && Sorted(c, Inserted(s, p, x))
    ensures forall m :: 0 <= m < |s| + 1 ==>
      (IsFirst(c, Inserted(s, p, x), m) <==> m == p || IsFirst(c, s, if m < p then m else m - 1))
  {
    hide Firsts, StableInsert;
    if p > 0 { Chain(c, s[p - 1].key, x.key, s[p - 1].key); }
    InsertedLeader(c, s, p, x);
    InsertedSorted(c, s, p, x);
  }

  lemma {:induction false} SpotLeaders<K(!new)>(c: Comparator<K>, s: seq<AvlNode<K>>, x: AvlNode<K>, n: AvlNode<K>,
                                                i: nat, j: nat, p: nat)
    requires TotalOrder(c) && Sorted(c, s) && Spot(c, s, x.key, n, i, j) && c(x.key, n.key) != 0
    requires p == if c(x.key, n.key) < 0 then i else j + 1
    ensures Firsts(c, Inserted(s, p, x))
         == if c(x.key, n.key) < 0 then Firsts(c, s[..i]) + [x] + ([n] + Firsts(c, s[j + 1..]))
            else Firsts(c, s[..i]) + [n] + ([x] + Firsts(c, s[j + 1..]))
  {
    hide Firsts, StableInsert;
    if p > 0 { Chain(c, s[p - 1].key, x.key, s[p - 1].key); }
    InsertedLeader(c, s, p, x);
    RunCut(c, s, i, j);
    if p == j + 1 {
      assert s[..p][i..] == s[i..p];
      assert Firsts(c, s[..p]) == Firsts(c, s[..i]) + [n] by { RunPrefix(c, s, i, j); }
    }
  }

  lemma {:induction false} RunPrefix<K>(c: Comparator<K>, s: seq<AvlNode<K>>, i: nat, j: nat)
    requires Run(c, s, i, j)
    ensures Firsts(c, s[..j + 1]) == Firsts(c, s[..i]) + [s[i]]
  {
    var t := s[..j + 1];
    forall m | 0 <= m <= j ensures IsFirst(c, t, m) <==> IsFirst(c, s, m) {
      assert t[m] == s[m];
    }
    RunCut(c, t, i, j);
    assert t[..i] == s[..i] && t[j + 1..] == [];
  }

  /** Without equal keys in the list and with a new key, there are no equal keys afterwards. */
  lemma {:induction false} SpotStrict<K(!new)>(c: Comparator<K>, s: seq<AvlNode<K>>, x: AvlNode<K>, n: AvlNode<K>,
                                               i: nat, j: nat, p: nat)
    requires TotalOrder(c) && StrictlySorted(c, s) && Spot(c, s, x.key, n, i, j) && c(x.key, n.key) != 0
    requires p == if c(x.key, n.key) < 0 then i else j + 1
    ensures StrictlySorted(c, Inserted(s, p, x))
  {
    var t := Inserted(s, p, x);
    forall a, b | 0 <= a < b < |t| ensures c(t[a].key, t[b].key) < 0 {
      if a == p {
        assert t[b] == s[b - 1];
      } else if b == p {
        assert t[a] == s[a];
        Chain(c, x.key, s[a].key, x.key);
      } else {
        assert t[a] == s[if a < p then a else a - 1] && t[b] == s[if b < p then b else b - 1];
      }
    }
  }

  // ---------------------------------------------------------------- removal

  lemma {:induction false} RemovedSorted<K>(c: Comparator<K>, s: seq<AvlNode<K>>, p: nat)
    requires NoDup(s) && Sorted(c, s) && p < |s|
    ensures Removed(s, p) == Without(s, s[p]) && Sorted(c, Removed(s, p))
  {
    WithoutAt(s, p);
    RemovedAt(s, p);
  }

  lemma {:induction false} RemovedStrict<K>(c: Comparator<K>, s: seq<AvlNode<K>>, p: nat)
    requires StrictlySorted(c, s) && p < |s|
    ensures StrictlySorted(c, Removed(s, p))
  {
    RemovedAt(s, p);
  }

  lemma {:induction false} RemovedAt<T>(s: seq<T>, p: nat)
    requires p < |s|
    ensures forall m :: 0 <= m < |s| - 1 ==> Removed(s, p)[m] == s[if m < p then m else m + 1]
  {
  }

  lemma {:induction false} RemovedFlag<K>(c: Comparator<K>, s: seq<AvlNode<K>>, p: nat, m: nat)
    requires p < |s| && m < |s| - 1 && m != p
    ensures IsFirst(c, Removed(s, p), m) <==> IsFirst(c, s, if m < p then m else m + 1)
  {
    RemovedAt(s, p);
  }

  /** Removing a node that is no leader leaves the leaders alone. */
  lemma {:induction false} RemovedFollower<K(!new)>(c: Comparator<K>, s: seq<AvlNode<K>>, p: nat)
    requires TotalOrder(c) && p < |s| && !IsFirst(c, s, p)
    ensures Firsts(c, Removed(s, p)) == Firsts(c, s)
    ensures forall m :: 0 <= m < |s| - 1 ==> (IsFirst(c, Removed(s, p), m)
      <==> IsFirst(c, s, if m < p then m else m + 1))
  {
    hide Firsts;
    FollowerGone(c, s[..p], s[p], s[p + 1..]);
    assert s == s[..p] + [s[p]] + s[p + 1..];
    forall m | 0 <= m < |s| - 1 ensures IsFirst(c, Removed(s, p), m) <==> IsFirst(c, s, if m < p then m else m + 1) {
      if m != p {
        RemovedFlag(c, s, p, m);
      } else {
        RemovedAt(s, p);
        Chain(c, s[p - 1].key, s[p].key, s[p + 1].key);
        Chain(c, s[p].key, s[p - 1].key, s[p + 1].key);
      }
    }
  }

  lemma {:induction false} FollowerGone<K(!new)>(c: Comparator<K>, a: seq<AvlNode<K>>, x: AvlNode<K>,
                                                 b: seq<AvlNode<K>>)
    requires TotalOrder(c) && a != [] && c(a[|a| - 1].key, x.key) == 0
    ensures Firsts(c, a + b) == Firsts(c, a + [x] + b)
  {
    hide Firsts;
    FirstsStep(c, a, x);
    if b == [] {
      assert a + b == a && a + [x] + b == a + [x];
    } else {
      Chain(c, a[|a| - 1].key, x.key, b[0].key);
      Chain(c, x.key, a[|a| - 1].key, b[0].key);
      if c(x.key, b[0].key) != 0 {
        FirstsApart(c, a + [x], b);
        FirstsApart(c, a, b);
      } else {
        FirstsJoined(c, a + [x], b);
        FirstsJoined(c, a, b);
      }
    }
  }

  /** Removing a leader whose run goes on promotes the next node of the run. */
  lemma {:induction false} RemovedPromotes<K(!new)>(c: Comparator<K>, s: seq<AvlNode<K>>, p: nat)
    requires TotalOrder(c) && p + 1 < |s| && IsFirst(c, s, p) && !IsFirst(c, s, p + 1)
    ensures Firsts(c, s[p + 1..]) != []
    ensures Firsts(c, s) == Firsts(c, s[..p]) + [s[p]] + Firsts(c, s[p + 1..])[1..]
    ensures Firsts(c, Removed(s, p)) == Firsts(c, s[..p]) + [s[p + 1]] + Firsts(c, s[p + 1..])[1..]
  {
    hide Firsts;
    assert s == s[..p] + [s[p]] + s[p + 1..];
    assert p > 0 ==> c(s[p - 1].key, s[p + 1].key) != 0 by {
      if p > 0 {
        Chain(c, s[p - 1].key, s[p + 1].key, s[p].key);
        Chain(c, s[p].key, s[p + 1].key, s[p].key);
      }
    }
    PromoteFirsts(c, s[..p], s[p], s[p + 1..]);
  }

  lemma {:induction false} PromotesFlags<K(!new)>(c: Comparator<K>, s: seq<AvlNode<K>>, p: nat)
    requires TotalOrder(c) && p + 1 < |s| && IsFirst(c, s, p) && !IsFirst(c, s, p + 1)
    ensures forall m :: 0 <= m < |s| - 1 ==>
      (IsFirst(c, Removed(s, p), m) <==> m == p || IsFirst(c, s, if m < p then m else m + 1))
  {
    forall m | 0 <= m < |s| - 1 ensures IsFirst(c, Removed(s, p), m)
      <==> m == p || IsFirst(c, s, if m < p then m else m + 1) {
      if m != p {
        RemovedFlag(c, s, p, m);
      } else if p > 0 {
        RemovedAt(s, p);
        Chain(c, s[p - 1].key, s[p + 1].key, s[p].key);
        Chain(c, s[p].key, s[p + 1].key, s[p].key);
      }
    }
  }

  lemma {:induction false} PromoteFirsts<K>(c: Comparator<K>, a: seq<AvlNode<K>>, x: AvlNode<K>, b: seq<AvlNode<K>>)
    requires b != [] && c(x.key, b[0].key) == 0
    requires a != [] ==> c(a[|a| - 1].key, x.key) != 0 && c(a[|a| - 1].key, b[0].key) != 0
    ensures Firsts(c, b) != []
    ensures Firsts(c, a + [x] + b) == Firsts(c, a) + [x] + Firsts(c, b)[1..]
    ensures Firsts(c, a + b) == Firsts(c, a) + [b[0]] + Firsts(c, b)[1..]
  {
    hide Firsts;
    FirstsHead(c, b);
    FirstsStep(c, a, x);
    FirstsJoined(c, a + [x], b);
    FirstsApart(c, a, b);
    assert Firsts(c, b) == [b[0]] + Firsts(c, b)[1..];
  }

  /** Removing a leader that is its whole run removes one leader. */
  lemma {:induction false} RemovedLeader<K(!new)>(c: Comparator<K>, s: seq<AvlNode<K>>, p: nat)
    requires TotalOrder(c) && Sorted(c, s) && p < |s| && IsFirst(c, s, p) && (p + 1 < |s| ==> IsFirst(c, s, p + 1))
    ensures Firsts(c, s) == Firsts(c, s[..p]) + [s[p]] + Firsts(c, s[p + 1..])
    ensures Firsts(c, Removed(s, p)) == Firsts(c, s[..p]) + Firsts(c, s[p + 1..])
  {
    hide Firsts;
    RunCut(c, s, p, p);
    assert 0 < p && p + 1 < |s| ==> c(s[p - 1].key, s[p + 1].key) != 0 by {
      if 0 < p && p + 1 < |s| { Chain(c, s[p - 1].key, s[p].key, s[p + 1].key); }
    }
    FirstsApart(c, s[..p], s[p + 1..]);
  }

  lemma {:induction false} LeaderFlags<K(!new)>(c: Comparator<K>, s: seq<AvlNode<K>>, p: nat)
    requires TotalOrder(c) && Sorted(c, s) && p < |s| && IsFirst(c, s, p) && (p + 1 < |s| ==> IsFirst(c, s, p + 1))
    ensures forall m :: 0 <= m < |s| - 1 ==> (IsFirst(c, Removed(s, p), m)
      <==> IsFirst(c, s, if m < p then m else m + 1))
  {
    forall m | 0 <= m < |s| - 1 ensures IsFirst(c, Removed(s, p), m) <==> IsFirst(c, s, if m < p then m else m + 1) {
      if m != p {
        RemovedFlag(c, s, p, m);
      } else if p > 0 {
        RemovedAt(s, p);
        Chain(c, s[p - 1].key, s[p].key, s[p + 1].key);
      }
    }
  }

  /** The walk after a promotion, from any cut of the walk at the leader that goes. */
  lemma {:induction false} PromotedCut<K(!new)>(c: Comparator<K>, s: seq<AvlNode<K>>, p: nat, a: seq<AvlNode<K>>,
                                                b: seq<AvlNode<K>>)
    requires TotalOrder(c) && NoDup(s) && p + 1 < |s| && IsFirst(c, s, p) && !IsFirst(c, s, p + 1)
    requires Firsts(c, s) == a + [s[p]] + b
    ensures Firsts(c, Removed(s, p)) == a + [s[p + 1]] + b
  {
    hide Firsts;
    FirstsNoDup(c, s);
    RemovedPromotes(c, s, p);
    UniqueCut(a, s[p], b, Firsts(c, s[..p]), Firsts(c, s[p + 1..])[1..]);
  }

  /** The walk after the end of a run of one node. */
  lemma {:induction false} AloneCut<K(!new)>(c: Comparator<K>, s: seq<AvlNode<K>>, p: nat, a: seq<AvlNode<K>>,
                                             b: seq<AvlNode<K>>)
    requires TotalOrder(c) && NoDup(s) && Sorted(c, s) && p < |s| && IsFirst(c, s, p)
    requires p + 1 < |s| ==> IsFirst(c, s, p + 1)
    requires Firsts(c, s) == a + [s[p]] + b
    ensures Firsts(c, Removed(s, p)) == a + b
  {
    hide Firsts;
    FirstsNoDup(c, s);
    RemovedLeader(c, s, p);
    UniqueCut(a, s[p], b, Firsts(c, s[..p]), Firsts(c, s[p + 1..]));
  }

  /** A node of the list that starts no run is no leader. */
  lemma {:induction false} NoLeader<K>(c: Comparator<K>, s: seq<AvlNode<K>>, p: nat)
    requires NoDup(s) && p < |s| && !IsFirst(c, s, p)
    ensures s[p] !in Firsts(c, s)
  {
    if s[p] in Firsts(c, s) {
      var i := FirstsMember(c, s, s[p]);
      assert false;
    }
  }
}
