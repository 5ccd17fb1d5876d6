/**
  * The sorted list that the tree of lib/common/avl.c indexes, as a sequence of nodes.
  *
  * The list may hold runs of equal keys; only the first node of a run is a leader.  The
  * functions StableInsert, Without, FindScan, LastNotGreater and FirstNotLess are the plain
  * linear-time meaning of the operations of the tree.
  */
module AvlOrder {
  import opened AvlShape

  type Comparator<!K> = (K, K) -> int

  /** What a comparator owes to three keys: swapping them flips the sign, and "not greater" is
      transitive. */
  ghost predicate Consistent<K>(c: Comparator<K>, x: K, y: K, z: K) {
    && (c(x, y) < 0 <==> c(y, x) > 0)
    && (c(x, y) <= 0 && c(y, z) <= 0 ==> c(x, z) <= 0)
  }

  /** The comparator decides a total preorder on keys (avl_tree_comp in lib/common/avl.h). */
  ghost predicate TotalOrder<K(!new)>(c: Comparator<K>) {
    forall x, y, z :: Consistent(c, x, y, z)
  }

  lemma {:induction false} Chain<K(!new)>(c: Comparator<K>, x: K, y: K, z: K)
    requires TotalOrder(c)
    ensures c(x, x) == 0
    ensures c(x, y) < 0 <==> c(y, x) > 0
    ensures c(x, y) > 0 <==> c(y, x) < 0
    ensures c(x, y) <= 0 && c(y, z) < 0 ==> c(x, z) < 0
    ensures c(x, y) < 0 && c(y, z) <= 0 ==> c(x, z) < 0
    ensures c(x, y) >= 0 && c(y, z) > 0 ==> c(x, z) > 0
    ensures c(x, y) > 0 && c(y, z) >= 0 ==> c(x, z) > 0
    ensures c(x, y) == 0 && c(y, z) == 0 ==> c(x, z) == 0
    ensures c(x, y) <= 0 && c(y, z) <= 0 ==> c(x, z) <= 0
    ensures c(x, y) >= 0 && c(y, z) >= 0 ==> c(x, z) >= 0
  {
    assert Consistent(c, x, x, x);
    assert Consistent(c, x, y, z) && Consistent(c, y, z, x) && Consistent(c, z, x, y);
    assert Consistent(c, z, y, x) && Consistent(c, y, x, z) && Consistent(c, x, z, y);
  }

  ghost predicate Sorted<K>(c: Comparator<K>, s: seq<AvlNode<K>>) {
    forall i, j :: 0 <= i < j < |s| ==> c(s[i].key, s[j].key) <= 0
  }

  ghost predicate StrictlySorted<K>(c: Comparator<K>, s: seq<AvlNode<K>>) {
    forall i, j :: 0 <= i < j < |s| ==> c(s[i].key, s[j].key) < 0
  }

  /** Position i starts a run of equal keys. */
  ghost predicate IsFirst<K>(c: Comparator<K>, s: seq<AvlNode<K>>, i: int)
    requires 0 <= i < |s|
  {
    i == 0 || c(s[i - 1].key, s[i].key) != 0
  }

  /** The first node of every run, in order: the leaders. */
  ghost function Firsts<K>(c: Comparator<K>, s: seq<AvlNode<K>>): seq<AvlNode<K>> {
    if s == [] then []
    else
      var m := |s| - 1;
      Firsts(c, s[..m]) + if IsFirst(c, s, m) then [s[m]] else []
  }

  // ---------------------------------------------------------------- reference operations

  /** Insert after every node whose key is not greater. */
  ghost function StableInsert<K>(c: Comparator<K>, s: seq<AvlNode<K>>, x: AvlNode<K>): seq<AvlNode<K>> {
    if s == [] || c(x.key, s[0].key) < 0 then [x] + s
    else [s[0]] + StableInsert(c, s[1..], x)
  }

  ghost function Without<T>(s: seq<T>, x: T): seq<T> {
    if s == [] then []
    else if s[0] == x then s[1..]
    else [s[0]] + Without(s[1..], x)
  }

  /** The first node with this key. */
  ghost function FindScan<K>(c: Comparator<K>, s: seq<AvlNode<K>>, k: K): AvlNode?<K> {
    if s == [] then null
    else if c(k, s[0].key) == 0 then s[0]
    else FindScan(c, s[1..], k)
  }

  /** The last node whose key is not greater. */
  ghost function LastNotGreater<K>(c: Comparator<K>, s: seq<AvlNode<K>>, k: K): AvlNode?<K> {
    if s == [] then null
    else if c(k, s[|s| - 1].key) >= 0 then s[|s| - 1]
    else LastNotGreater(c, s[..|s| - 1], k)
  }

  /** The first node whose key is not less. */
  ghost function FirstNotLess<K>(c: Comparator<K>, s: seq<AvlNode<K>>, k: K): AvlNode?<K> {
    if s == [] then null
    else if c(k, s[0].key) <= 0 then s[0]
    else FirstNotLess(c, s[1..], k)
  }

  // ---------------------------------------------------------------- reference operations by position

  lemma {:induction false} StableInsertAt<K>(c: Comparator<K>, s: seq<AvlNode<K>>, x: AvlNode<K>, p: nat)
    requires p <= |s|
    requires forall i :: 0 <= i < p ==> c(x.key, s[i].key) >= 0
    requires p < |s| ==> c(x.key, s[p].key) < 0
    ensures StableInsert(c, s, x) == s[..p] + [x] + s[p..]
  {
    if p == 0 {
      assert s[..0] + [x] + s[0..] == [x] + s;
    } else {
      StableInsertAt(c, s[1..], x, p - 1);
      assert s[1..][..p - 1] == s[1..p] && s[1..][p - 1..] == s[p..];
      assert [s[0]] + (s[1..p] + [x] + s[p..]) == s[..p] + [x] + s[p..];
    }
  }

  lemma {:induction false} UpperBound<K>(c: Comparator<K>, s: seq<AvlNode<K>>, k: K) returns (p: nat)
    ensures p <= |s| && (p < |s| ==> c(k, s[p].key) < 0)
    ensures forall i :: 0 <= i < p ==> c(k, s[i].key) >= 0
  {
    p := 0;
    while p < |s| && c(k, s[p].key) >= 0
      invariant p <= |s|
      invariant forall i :: 0 <= i < p ==> c(k, s[i].key) >= 0
    {
      p := p + 1;
    }
  }

  /** Stable insertion keeps a sorted list sorted, keeps the old nodes in their order, and puts
      the new node behind every node of an equal key. */
  lemma {:induction false} StableInsertSorted<K(!new)>(c: Comparator<K>, s: seq<AvlNode<K>>, x: AvlNode<K>)
    returns (p: nat)
    requires TotalOrder(c) && Sorted(c, s)
    ensures p <= |s| && StableInsert(c, s, x) == s[..p] + [x] + s[p..]
    ensures Sorted(c, StableInsert(c, s, x))
    ensures forall i :: 0 <= i < p ==> c(s[i].key, x.key) <= 0
    ensures forall i :: p <= i < |s| ==> c(x.key, s[i].key) < 0
  {
    p := UpperBound(c, s, x.key);
    StableInsertAt(c, s, x, p);
    forall i | p <= i < |s| ensures c(x.key, s[i].key) < 0 {
      if p < i { Chain(c, x.key, s[p].key, s[i].key); }
    }
    forall i | 0 <= i < p ensures c(s[i].key, x.key) <= 0 {
      Chain(c, s[i].key, x.key, x.key);
    }
  }

  lemma {:induction false} WithoutAt<T>(s: seq<T>, i: nat)
    requires i < |s| && NoDup(s)
    ensures Without(s, s[i]) == s[..i] + s[i + 1..]
  {
    if i == 0 {
    } else {
      assert s[0] != s[i];
      forall a, b | 0 <= a < b < |s[1..]| ensures s[1..][a] != s[1..][b] {
        assert s[1..][a] == s[a + 1] && s[1..][b] == s[b + 1];
      }
      WithoutAt(s[1..], i - 1);
      assert s[1..][..i - 1] == s[1..i] && s[1..][i - 1 + 1..] == s[i + 1..];
      assert [s[0]] + (s[1..i] + s[i + 1..]) == s[..i] + s[i + 1..];
    }
  }

  lemma {:induction false} FindScanAt<K>(c: Comparator<K>, s: seq<AvlNode<K>>, k: K, i: nat)
    requires i <= |s|
    requires forall j :: 0 <= j < i ==> c(k, s[j].key) != 0
    requires i < |s| ==> c(k, s[i].key) == 0
    ensures FindScan(c, s, k) == if i < |s| then s[i] else null
  {
    if i == 0 {
    } else {
      FindScanAt(c, s[1..], k, i - 1);
    }
  }

  lemma {:induction false} LastNotGreaterAt<K>(c: Comparator<K>, s: seq<AvlNode<K>>, k: K, i: nat)
    requires i <= |s|
    requires forall j :: i <= j < |s| ==> c(k, s[j].key) < 0
    requires 0 < i ==> c(k, s[i - 1].key) >= 0
    ensures LastNotGreater(c, s, k) == if 0 < i then s[i - 1] else null
    decreases |s|
  {
    if i == |s| {
    } else {
      LastNotGreaterAt(c, s[..|s| - 1], k, i);
    }
  }

  lemma {:induction false} FirstNotLessAt<K>(c: Comparator<K>, s: seq<AvlNode<K>>, k: K, i: nat)
    requires i <= |s|
    requires forall j :: 0 <= j < i ==> c(k, s[j].key) > 0
    requires i < |s| ==> c(k, s[i].key) <= 0
    ensures FirstNotLess(c, s, k) == if i < |s| then s[i] else null
  {
    if i == 0 {
    } else {
      FirstNotLessAt(c, s[1..], k, i - 1);
    }
  }

  /** In a sorted list, what a key is less than it stays less than. */
  lemma {:induction false} LessOnwards<K(!new)>(c: Comparator<K>, s: seq<AvlNode<K>>, k: K, i: nat)
    requires TotalOrder(c) && Sorted(c, s) && i < |s|
    ensures c(k, s[i].key) < 0 ==> forall m :: i <= m < |s| ==> c(k, s[m].key) < 0
    ensures c(k, s[i].key) > 0 ==> forall m :: 0 <= m <= i ==> c(k, s[m].key) > 0
  {
    if c(k, s[i].key) < 0 {
      forall m | i <= m < |s| ensures c(k, s[m].key) < 0 {
        if i < m { Chain(c, k, s[i].key, s[m].key); }
      }
    } else if c(k, s[i].key) > 0 {
      forall m | 0 <= m <= i ensures c(k, s[m].key) > 0 {
        if m < i {
          Chain(c, s[m].key, s[i].key, k);
          Chain(c, s[i].key, k, s[m].key);
          Chain(c, s[m].key, k, s[i].key);
        }
      }
    }
  }

  // ---------------------------------------------------------------- leaders

  lemma {:induction false} FirstsStep<K>(c: Comparator<K>, s: seq<AvlNode<K>>, x: AvlNode<K>)
    ensures Firsts(c, s + [x]) == Firsts(c, s) + if s == [] || c(s[|s| - 1].key, x.key) != 0 then [x] else []
  {
    assert (s + [x])[..|s|] == s;
  }

  lemma {:induction false} FirstsNone<K>(c: Comparator<K>)
    ensures Firsts<K>(c, []) == []
  {
  }

  lemma {:induction false} FirstsApart<K>(c: Comparator<K>, a: seq<AvlNode<K>>, b: seq<AvlNode<K>>)
    requires a == [] || b == [] || c(a[|a| - 1].key, b[0].key) != 0
    ensures Firsts(c, a + b) == Firsts(c, a) + Firsts(c, b)
    decreases |b|
  {
    hide Firsts, IsFirst;
    if b == [] {
      FirstsNone(c);
      assert a + b == a;
    } else {
      FirstsNone(c);
      var b', x := b[..|b| - 1], b[|b| - 1];
      assert b == b' + [x] && a + b == (a + b') + [x];
      FirstsApart(c, a, b');
      FirstsStep(c, b', x);
      FirstsStep(c, a + b', x);
    }
  }

  lemma {:induction false} FirstsJoined<K>(c: Comparator<K>, a: seq<AvlNode<K>>, b: seq<AvlNode<K>>)
    requires a != [] && b != [] && c(a[|a| - 1].key, b[0].key) == 0
    ensures Firsts(c, b) != [] && Firsts(c, b)[0] == b[0]
    ensures Firsts(c, a + b) == Firsts(c, a) + Firsts(c, b)[1..]
    decreases |b|
  {
    var b', x := b[..|b| - 1], b[|b| - 1];
    assert b == b' + [x] && a + b == (a + b') + [x];
    FirstsStep(c, b', x);
    FirstsStep(c, a + b', x);
    if b' == [] {
      assert a + b' == a;
    } else {
      FirstsJoined(c, a, b');
    }
  }

  lemma {:induction false} FirstsHead<K>(c: Comparator<K>, s: seq<AvlNode<K>>)
    requires s != []
    ensures Firsts(c, s) != [] && Firsts(c, s)[0] == s[0]
  {
    if |s| <= 1 {
    } else {
      FirstsHead(c, s[..|s| - 1]);
    }
  }

  /** Leaders are exactly the nodes at run starts. */
  lemma {:induction false} FirstsMember<K>(c: Comparator<K>, s: seq<AvlNode<K>>, x: AvlNode<K>) returns (i: nat)
    requires x in Firsts(c, s)
    ensures i < |s| && s[i] == x && IsFirst(c, s, i)
  {
    var m := |s| - 1;
    if x in Firsts(c, s[..m]) {
      i := FirstsMember(c, s[..m], x);
    } else {
      i := m;
    }
  }

  lemma {:induction false} FirstsContains<K>(c: Comparator<K>, s: seq<AvlNode<K>>, i: nat)
    requires i < |s| && IsFirst(c, s, i)
    ensures s[i] in Firsts(c, s)
  {
    var m := |s| - 1;
    if m <= i {
    } else {
      FirstsContains(c, s[..m], i);
    }
  }

  lemma {:induction false} FirstsNoDup<K>(c: Comparator<K>, s: seq<AvlNode<K>>)
    requires NoDup(s)
    ensures NoDup(Firsts(c, s))
  {
    if s == [] {
    } else {
      var m := |s| - 1;
      FirstsNoDup(c, s[..m]);
      if s[m] in Firsts(c, s[..m]) {
        var i := FirstsMember(c, s[..m], s[m]);
        assert false;
      }
    }
  }

  lemma {:induction false} FirstsFew<K>(c: Comparator<K>, s: seq<AvlNode<K>>)
    ensures |Firsts(c, s)| <= |s|
  {
    if s == [] {
    } else {
      FirstsFew(c, s[..|s| - 1]);
    }
  }

  /** Every node has the key of some leader at or before it. */
  lemma {:induction false} FirstsCover<K(!new)>(c: Comparator<K>, s: seq<AvlNode<K>>, i: nat) returns (j: nat)
    requires TotalOrder(c) && i < |s|
    ensures j <= i && s[j] in Firsts(c, s) && c(s[j].key, s[i].key) == 0
    decreases i
  {
    if IsFirst(c, s, i) {
      j := i;
      FirstsContains(c, s, i);
      Chain(c, s[i].key, s[i].key, s[i].key);
    } else {
      j := FirstsCover(c, s, i - 1);
      Chain(c, s[j].key, s[i - 1].key, s[i].key);
    }
  }

  lemma {:induction false} FirstsStrict<K(!new)>(c: Comparator<K>, s: seq<AvlNode<K>>)
    requires TotalOrder(c) && Sorted(c, s)
    ensures StrictlySorted(c, Firsts(c, s))
  {
    if s == [] {
    } else {
      var m := |s| - 1;
      var f := Firsts(c, s[..m]);
      FirstsStrict(c, s[..m]);
      if IsFirst(c, s, m) {
        forall i | 0 <= i < |f| ensures c(f[i].key, s[m].key) < 0 {
          var j := FirstsMember(c, s[..m], f[i]);
          if j < m - 1 { Chain(c, s[j].key, s[m - 1].key, s[m].key); }
        }
      }
    }
  }

  lemma {:induction false} LeaderCut<K>(c: Comparator<K>, a: seq<AvlNode<K>>, b: seq<AvlNode<K>>)
    requires b != [] && IsFirst(c, a + b, |a|)
    ensures Firsts(c, a + b) == Firsts(c, a) + Firsts(c, b) && Firsts(c, b) != [] && Firsts(c, b)[0] == b[0]
  {
    hide Firsts;
    FirstsApart(c, a, b);
    FirstsHead(c, b);
  }

  /** A leader cuts the list where it cuts the sequence of leaders. */
  lemma {:induction false} SplitAtLeader<K>(c: Comparator<K>, s: seq<AvlNode<K>>, x: seq<AvlNode<K>>, n: AvlNode<K>,
                                            y: seq<AvlNode<K>>)
    returns (i: nat)
    requires NoDup(s) && Firsts(c, s) == x + [n] + y
    ensures i < |s| && s[i] == n && IsFirst(c, s, i)
    ensures Firsts(c, s[..i]) == x && Firsts(c, s[i..]) == [n] + y
  {
    hide Firsts, IsFirst, NoDup;
    assert Firsts(c, s)[|x|] == n;
    i := FirstsMember(c, s, n);
    var a, b := s[..i], s[i..];
    assert s == a + b;
    LeaderCut(c, a, b);
    FirstsNoDup(c, s);
    var rest := Firsts(c, b)[1..];
    assert Firsts(c, b) == [n] + rest;
    assert Firsts(c, a) + [n] + rest == Firsts(c, a) + ([n] + rest);
    UniqueCut(x, n, y, Firsts(c, a), rest);
  }
}
