/** The single-pass choice among an unknown number of ties in router_update of src/router.c. */
module BprdTies {

  /** The scan so far: the largest weight, how many had it, and which position was chosen last. */
  datatype Pick = Pick(diff: nat, num: nat, chosen: int)

  /** The bound that the draw is compared with. */
  function Threshold(num: nat): real
    requires num > 0
  {
    (num - 1) as real / num as real
  }

  /** A candidate of weight w, no less than the largest so far, at position i, with the draw r. */
  function Step(p: Pick, w: nat, i: nat, r: real): Pick {
    var num := if w == p.diff then p.num + 1 else 1;
    if r >= Threshold(num) then Pick(w, num, i) else p.(num := num)
  }

  /** The whole scan over the weights.  draw(k) is call k of rand(); a smaller weight costs no call. */
  function Scan(ws: seq<nat>, draw: nat -> real, calls: nat): (r: (Pick, nat))
    ensures calls <= r.1
  {
    if ws == [] then (Pick(0, 0, -1), calls)
    else
      var k := |ws| - 1;
      var before := Scan(ws[..k], draw, calls);
      if ws[k] < before.0.diff then before
      else (Step(before.0, ws[k], k, draw(before.1)), before.1 + 1)
  }

  function Largest(ws: seq<nat>): nat {
    if ws == [] then 0
    else
      var k := |ws| - 1;
      var m := Largest(ws[..k]);
      if ws[k] > m then ws[k] else m
  }

  function Ties(ws: seq<nat>, w: nat): nat {
    if ws == [] then 0
    else
      var k := |ws| - 1;
      Ties(ws[..k], w) + if ws[k] == w then 1 else 0
  }

  lemma {:induction false} TiesAbove(ws: seq<nat>, w: nat)
    requires Largest(ws) < w
    ensures Ties(ws, w) == 0
  {
    if ws == [] {
    } else {
      TiesAbove(ws[..|ws| - 1], w);
    }
  }

  lemma {:induction false} LargestIs(ws: seq<nat>)
    ensures forall i :: 0 <= i < |ws| ==> ws[i] <= Largest(ws)
    ensures ws != [] ==> exists i :: 0 <= i < |ws| && ws[i] == Largest(ws)
    ensures ws != [] ==> Ties(ws, Largest(ws)) > 0
  {
    if |ws| == 1 {
      assert ws[..0] == [] && ws[0] == Largest(ws);
    } else if |ws| > 1 {
      var k := |ws| - 1;
      LargestIs(ws[..k]);
      if ws[k] > Largest(ws[..k]) {
        assert ws[k] == Largest(ws);
      } else {
        var i :| 0 <= i < k && ws[..k][i] == Largest(ws[..k]);
        assert ws[i] == Largest(ws);
      }
    }
  }

  /** Whatever is drawn, the scan keeps the largest weight, the number of its ties, and a position
      that has it. */
  lemma {:induction false} ScanFinds(ws: seq<nat>, draw: nat -> real, calls: nat)
    requires forall k :: draw(k) >= 0.0
    ensures var p := Scan(ws, draw, calls).0;
            && p.diff == Largest(ws) && p.num == Ties(ws, p.diff)
            && (ws == [] ==> p.chosen == -1)
            && (ws != [] ==> 0 <= p.chosen < |ws| && ws[p.chosen] == Largest(ws))
  {
    if ws == [] {
    } else {
      var k := |ws| - 1;
      ScanFinds(ws[..k], draw, calls);
      if ws[k] > Largest(ws[..k]) { TiesAbove(ws[..k], ws[k]); }
      assert Threshold(1) == 0.0;
    }
  }

  // ---------------------------------------------------------------- fairness

  lemma {:induction false} TakenExactly(p: Pick, w: nat, i: nat, r: real)
    requires w >= p.diff && 0.0 <= r < 1.0 && p.chosen != i
    ensures var num := if w == p.diff then p.num + 1 else 1;
            0.0 <= Threshold(num) < 1.0 && (Step(p, w, i, r).chosen == i <==> Threshold(num) <= r < 1.0)
  {
    ThresholdInside(if w == p.diff then p.num + 1 else 1);
  }

  lemma {:induction false} ThresholdInside(num: nat)
    requires num > 0
    ensures 0.0 <= Threshold(num) < 1.0
  {
    var x := num as real;
    assert (num - 1) as real == x - 1.0;
    Fraction(x);
    assert 1.0 / x > 0.0 && (x - 1.0) / x >= 0.0;
  }

  /** Position i costs a call of rand(): no weight before it is larger. */
  ghost predicate Draws(ws: seq<nat>, i: nat)
    requires i < |ws|
  {
    ws[i] >= Largest(ws[..i])
  }

  /** The number of ties when position i draws, itself included. */
  ghost function NumAt(ws: seq<nat>, i: nat): (num: nat)
    requires i < |ws|
    ensures num > 0
  {
    if ws[i] == Largest(ws[..i]) then Ties(ws[..i], ws[i]) + 1 else 1
  }

  ghost function DrawCount(ws: seq<nat>): nat {
    if ws == [] then 0
    else
      var k := |ws| - 1;
      DrawCount(ws[..k]) + if Draws(ws, k) then 1 else 0
  }

  /** The draw that decides over position i. */
  ghost function DrawAt(ws: seq<nat>, i: nat, draw: nat -> real, calls: nat): real
    requires i < |ws|
  {
    draw(calls + DrawCount(ws[..i]))
  }

  /** The numbers from lo up to hi, hi left out. */
  datatype Interval = Interval(lo: real, hi: real) {
    ghost predicate Has(r: real) { lo <= r < hi }

    ghost function Width(): real { hi - lo }
  }

  /** What position i has to draw if position j is to be the choice: j has to be taken, and none that
      draws after it. */
  ghost function Side(ws: seq<nat>, j: nat, i: nat): Interval
    requires i < |ws|
  {
    if i < j then Interval(0.0, 1.0)
    else if i == j then (if Draws(ws, i) then Interval(Threshold(NumAt(ws, i)), 1.0) else Interval(0.0, 0.0))
    else if Draws(ws, i) then Interval(0.0, Threshold(NumAt(ws, i)))
    else Interval(0.0, 1.0)
  }

  ghost predicate InBox(ws: seq<nat>, j: nat, draw: nat -> real, calls: nat) {
    forall i :: 0 <= i < |ws| ==> Side(ws, j, i).Has(DrawAt(ws, i, draw, calls))
  }

  /** Positions that draw do so one after the other, each once. */
  lemma {:induction false} OwnDraw(ws: seq<nat>, i: nat, k: nat)
    requires i < k < |ws| && Draws(ws, i)
    ensures DrawCount(ws[..i]) < DrawCount(ws[..k])
  {
    var s := ws[..k];
    assert s[..k - 1] == ws[..k - 1];
    if i == k - 1 {
    } else {
      OwnDraw(ws, i, k - 1);
    }
  }

  lemma {:induction false} ScanDraws(ws: seq<nat>, draw: nat -> real, calls: nat)
    requires forall k :: draw(k) >= 0.0
    ensures Scan(ws, draw, calls).1 == calls + DrawCount(ws)
  {
    if ws == [] {
    } else {
      var k := |ws| - 1;
      ScanDraws(ws[..k], draw, calls);
      ScanFinds(ws[..k], draw, calls);
    }
  }

  lemma {:induction false} BoxStep(ws: seq<nat>, j: nat, draw: nat -> real, calls: nat)
    requires ws != []
    ensures var k := |ws| - 1;
            InBox(ws, j, draw, calls) <==>
              InBox(ws[..k], j, draw, calls) && Side(ws, j, k).Has(DrawAt(ws, k, draw, calls))
  {
    var k := |ws| - 1;
    forall i | 0 <= i < k
      ensures Side(ws, j, i) == Side(ws[..k], j, i) && DrawAt(ws, i, draw, calls) == DrawAt(ws[..k], i, draw, calls)
    {
      assert ws[..k][..i] == ws[..i];
    }
  }

  /** Nothing is asked of the draws before j. */
  lemma {:induction false} BoxBefore(ws: seq<nat>, j: nat, draw: nat -> real, calls: nat)
    requires |ws| <= j && forall k :: 0.0 <= draw(k) < 1.0
    ensures InBox(ws, j, draw, calls)
  {
  }

  /** Position j is the choice exactly on the draws of this box. */
  lemma {:induction false} ChosenExactly(ws: seq<nat>, j: nat, draw: nat -> real, calls: nat)
    requires j < |ws| && forall k :: 0.0 <= draw(k) < 1.0
    ensures Scan(ws, draw, calls).0.chosen == j <==> InBox(ws, j, draw, calls)
  {
    hide InBox;
    var k := |ws| - 1;
    ScanDraws(ws[..k], draw, calls);
    ScanFinds(ws[..k], draw, calls);
    BoxStep(ws, j, draw, calls);
    if j < k { ChosenExactly(ws[..k], j, draw, calls); } else { BoxBefore(ws[..k], j, draw, calls); }
  }

  /** The volume of the box, a side for each position: the chance that position j is the choice, for
      independent draws uniform on [0, 1). */
  ghost function Chance(ws: seq<nat>, j: nat): real {
    if ws == [] then 1.0
    else
      var k := |ws| - 1;
      Chance(ws[..k], j) * Side(ws, j, k).Width()
  }

  lemma {:induction false} ChanceBefore(ws: seq<nat>, j: nat)
    requires |ws| <= j
    ensures Chance(ws, j) == 1.0
  {
    if ws == [] {
    } else {
      ChanceBefore(ws[..|ws| - 1], j);
    }
  }

  /** Every position of the largest weight has the same chance, one over the number of ties. */
  lemma {:induction false} Fair(ws: seq<nat>, j: nat)
    requires j < |ws|
    ensures Ties(ws, Largest(ws)) > 0
    ensures Chance(ws, j) == if ws[j] == Largest(ws) then 1.0 / Ties(ws, Largest(ws)) as real else 0.0
  {
    hide Threshold, NumAt, Largest, Ties, Draws, Side;
    var k := |ws| - 1;
    var n, c, w := NumAt(ws, k), Chance(ws[..k], j), Side(ws, j, k).Width();
    LargestIs(ws);
    LargestIs(ws[..k]);
    LastTie(ws);
    LastSide(ws, j);
    Shares(n);
    Times(c, w);
    if j < k { Fair(ws[..k], j); } else { ChanceBefore(ws[..k], j); }
  }

  lemma {:induction false} Times(c: real, w: real)
    ensures (c == 0.0 || w == 0.0 ==> c * w == 0.0) && (w == 1.0 ==> c * w == c) && (c == 1.0 ==> c * w == w)
  {
  }

  lemma {:induction false} LastSide(ws: seq<nat>, j: nat)
    requires j < |ws|
    ensures var k := |ws| - 1;
            var drawn, n, w := ws[k] >= Largest(ws[..k]), NumAt(ws, k), Side(ws, j, k).Width();
            w == if j < k then (if drawn then Threshold(n) else 1.0) else if drawn then 1.0 - Threshold(n) else 0.0
  {
  }

  /** What the last position changes. */
  lemma {:induction false} LastTie(ws: seq<nat>)
    requires ws != []
    ensures var k := |ws| - 1;
            var m, n := Largest(ws[..k]), NumAt(ws, k);
            if ws[k] < m then Largest(ws) == m && Ties(ws, m) == Ties(ws[..k], m)
            else Largest(ws) == ws[k] && Ties(ws, ws[k]) == n && n == if ws[k] == m then Ties(ws[..k], m) + 1 else 1
  {
    var k := |ws| - 1;
    if ws[k] > Largest(ws[..k]) { TiesAbove(ws[..k], ws[k]); }
  }

  lemma {:induction false} Shares(n: nat)
    requires n > 0
    ensures 1.0 - Threshold(n) == 1.0 / n as real
    ensures if n > 1 then 1.0 / (n - 1) as real * Threshold(n) == 1.0 / n as real else Threshold(n) == 0.0
  {
    var x := n as real;
    assert (n - 1) as real == x - 1.0;
    Fraction(x);
    if n > 1 { Chain(x); }
  }

  lemma {:induction false} Fraction(x: real)
    requires x > 0.0
    ensures 1.0 - (x - 1.0) / x == 1.0 / x
  {
    assert x / x == 1.0;
    assert (x - 1.0) / x == x / x - 1.0 / x;
  }

  lemma {:induction false} Chain(x: real)
    requires x > 1.0
    ensures 1.0 / (x - 1.0) * (1.0 - 1.0 / x) == 1.0 / x
  {
    Fraction(x);
    assert 1.0 - 1.0 / x == (x - 1.0) / x;
    assert 1.0 / (x - 1.0) * ((x - 1.0) / x) == 1.0 / x;
  }
}
