/** The report's one-pass equity statistics against what they mean. Amounts are exact reals. */
module EquityCurve {
  /** The balance after the first `j` trades. */
  function Balance(start: real, pnls: seq<real>, j: nat): real
    requires j <= |pnls|
  {
    if j == 0 then start else Balance(start, pnls, j - 1) + pnls[j - 1]
  }

  function Max(a: real, b: real): real {
    if a >= b then a else b
  }

  /** The highest balance up to trade `j`, the start included. */
  function Peak(start: real, pnls: seq<real>, j: nat): real
    requires j <= |pnls|
  {
    if j == 0 then start else Max(Peak(start, pnls, j - 1), Balance(start, pnls, j))
  }

  lemma {:induction false} PeakIsHighest(start: real, pnls: seq<real>, j: nat)
    requires j <= |pnls|
    ensures forall i :: 0 <= i <= j ==> Balance(start, pnls, i) <= Peak(start, pnls, j)
    ensures exists i :: 0 <= i <= j && Balance(start, pnls, i) == Peak(start, pnls, j)
  {
    if j == 0 {
      assert Balance(start, pnls, 0) == Peak(start, pnls, 0);
    } else {
      PeakIsHighest(start, pnls, j - 1);
      if Balance(start, pnls, j) < Peak(start, pnls, j - 1) {
        var i :| 0 <= i <= j - 1 && Balance(start, pnls, i) == Peak(start, pnls, j - 1);
      } else {
        assert Balance(start, pnls, j) == Peak(start, pnls, j);
      }
    }
  }

  /** The fall from `high` to `low`, as a share of `high`. */
  function Drop(high: real, low: real): real {
    if high > 0.0 then (high - low) / high else 0.0
  }

  function Sum(s: seq<real>): real {
    if s == [] then 0.0 else Sum(s[..|s| - 1]) + s[|s| - 1]
  }

  lemma {:induction false} SumSnoc(s: seq<real>, x: real)
    ensures Sum(s + [x]) == Sum(s) + x
  {
    assert (s + [x])[..|s|] == s;
  }

  function DrawdownAt(start: real, pnls: seq<real>, j: nat): real
    requires j <= |pnls|
  {
    Drop(Peak(start, pnls, j), Balance(start, pnls, j))
  }

  /** `dd` is the worst drop from a running peak over the first `n` trades, and 0 if there is none. */
  ghost predicate IsMaxDrawdown(dd: real, start: real, pnls: seq<real>, n: nat)
    requires n <= |pnls|
  {
    && dd >= 0.0
    && (forall j :: 0 < j <= n ==> DrawdownAt(start, pnls, j) <= dd)
    && (dd == 0.0 || exists j :: 0 < j <= n && DrawdownAt(start, pnls, j) == dd)
  }

  /** The running maximum the loop keeps. */
  function WorstSoFar(start: real, pnls: seq<real>, n: nat): real
    requires n <= |pnls|
  {
    if n == 0 then 0.0 else Max(WorstSoFar(start, pnls, n - 1), DrawdownAt(start, pnls, n))
  }

  lemma {:induction false} WorstSoFarIsMax(start: real, pnls: seq<real>, n: nat)
    requires n <= |pnls|
    ensures IsMaxDrawdown(WorstSoFar(start, pnls, n), start, pnls, n)
  {
    if n > 0 {
      WorstSoFarIsMax(start, pnls, n - 1);
      NextDrawdown(WorstSoFar(start, pnls, n - 1), start, pnls, n - 1);
    }
  }

  ghost predicate IsCurve(curve: seq<real>, start: real, pnls: seq<real>, n: nat)
    requires n <= |pnls|
  {
    |curve| == n && forall j :: 0 <= j < n ==> curve[j] == Balance(start, pnls, j + 1)
  }

  /** Winners and losers of some trades are kept apart, and together make up the balance. */
  ghost predicate Split(winsArr: seq<real>, lossArr: seq<real>, start: real, bal: real, trades: seq<real>) {
    && Sum(winsArr) == Gains(trades) >= 0.0 && -Sum(lossArr) == Losses(trades) >= 0.0
    && bal == start + Sum(winsArr) + Sum(lossArr)
  }

  /** What the winning trades made. */
  function Gains(pnls: seq<real>): real {
    if pnls == [] then 0.0 else Max(pnls[0], 0.0) + Gains(pnls[1..])
  }

  /** What the losing trades lost, as a positive amount. */
  function Losses(pnls: seq<real>): real {
    if pnls == [] then 0.0 else Max(-pnls[0], 0.0) + Losses(pnls[1..])
  }

  lemma {:induction false} GainsSnoc(pnls: seq<real>, pnl: real)
    ensures Gains(pnls + [pnl]) == Gains(pnls) + if pnl > 0.0 then pnl else 0.0
    ensures Losses(pnls + [pnl]) == Losses(pnls) + if pnl < 0.0 then -pnl else 0.0
  {
    if pnls == [] {
      assert [pnl][1..] == [];
    } else {
      GainsSnoc(pnls[1..], pnl);
      assert (pnls + [pnl])[1..] == pnls[1..] + [pnl];
    }
  }

  /** The loop of `stats`: balance, running peak and worst drawdown in one pass, winners and losers apart. */
  method Stats(start: real, pnls: seq<real>)
    returns (curve: seq<real>, maxDD: real, grossWin: real, grossLoss: real, final: real)
    ensures IsCurve(curve, start, pnls, |pnls|)
    ensures IsMaxDrawdown(maxDD, start, pnls, |pnls|)
    ensures grossWin == Gains(pnls) >= 0.0 && grossLoss == Losses(pnls) >= 0.0
    ensures final == Balance(start, pnls, |pnls|) == start + grossWin - grossLoss
  {
    var bal, peak := start, start;
    maxDD := 0.0;
    curve := [];
    var winsArr: seq<real>, lossArr: seq<real> := [], [];
    for i := 0 to |pnls|
      invariant bal == Balance(start, pnls, i) && peak == Peak(start, pnls, i)
      invariant IsCurve(curve, start, pnls, i)
      invariant maxDD == WorstSoFar(start, pnls, i)
      invariant Split(winsArr, lossArr, start, bal, pnls[..i])
    {
      var pnl := pnls[i];
      NextSplit(winsArr, lossArr, start, bal, pnls[..i], pnl);
      assert pnls[..i + 1] == pnls[..i] + [pnl];
      bal := bal + pnl;
      curve := curve + [bal];
      peak := Max(peak, bal);
      maxDD := Max(maxDD, Drop(peak, bal));
      if pnl >= 0.0 {
        winsArr := winsArr + [pnl];
      } else {
        lossArr := lossArr + [pnl];
      }
    }
    assert pnls[..|pnls|] == pnls;
    grossWin := Sum(winsArr);
    grossLoss := Abs(Sum(lossArr));
    final := bal;
    WorstSoFarIsMax(start, pnls, |pnls|);
  }

  function Abs(x: real): real {
    if x < 0.0 then -x else x
  }

  lemma NextDrawdown(dd: real, start: real, pnls: seq<real>, i: nat)
    requires i < |pnls| && IsMaxDrawdown(dd, start, pnls, i)
    ensures IsMaxDrawdown(Max(dd, DrawdownAt(start, pnls, i + 1)), start, pnls, i + 1)
  {
    if dd > 0.0 && dd >= DrawdownAt(start, pnls, i + 1) {
      var j :| 0 < j <= i && DrawdownAt(start, pnls, j) == dd;
    }
  }

  lemma NextSplit(winsArr: seq<real>, lossArr: seq<real>, start: real, bal: real, trades: seq<real>, pnl: real)
    requires Split(winsArr, lossArr, start, bal, trades)
    ensures if pnl >= 0.0 then Split(winsArr + [pnl], lossArr, start, bal + pnl, trades + [pnl])
            else Split(winsArr, lossArr + [pnl], start, bal + pnl, trades + [pnl])
  {
    GainsSnoc(trades, pnl);
    SumSnoc(winsArr, pnl);
    SumSnoc(lossArr, pnl);
  }

  // ---------------------------------------------------------------- what the figure means

  lemma DropIs(high: real, low: real)
    requires high > 0.0
    ensures Drop(high, low) * high == high - low
  {
  }

  lemma Cancel(a: real, b: real, c: real)
    requires c > 0.0
    ensures a * c <= b * c <==> a <= b
  {
  }

  /** Falling to the same low from higher up is the worse drop. */
  lemma DropMono(high: real, higher: real, low: real)
    requires 0.0 < high <= higher && 0.0 <= low
    ensures Drop(high, low) <= Drop(higher, low)
  {
    var r, s := Drop(high, low), Drop(higher, low);
    DropIs(high, low);
    DropIs(higher, low);
    Cancel(r, 1.0, high);
    assert r * (higher - high) <= higher - high by { if higher > high { Cancel(r, 1.0, higher - high); } }
    assert r * higher == r * high + r * (higher - high);
    Cancel(r, s, higher);
  }

  lemma DropBounds(high: real, low: real)
    requires 0.0 < high && low <= high
    ensures 0.0 <= Drop(high, low)
    ensures 0.0 <= low ==> Drop(high, low) <= 1.0
    ensures Drop(high, low) == 0.0 <==> low == high
  {
    DropIs(high, low);
    var d := Drop(high, low);
    assert 1.0 * high == high && 0.0 * high == 0.0;
    Cancel(0.0, d, high);
    Cancel(d, 1.0, high);
    Cancel(d, 0.0, high);
    hide Drop;
  }

  ghost predicate NeverNegative(start: real, pnls: seq<real>) {
    forall j :: 0 <= j <= |pnls| ==> Balance(start, pnls, j) >= 0.0
  }

  /** With a positive start and no negative balance, the one-pass figure is the worst relative fall from any
      earlier to any later balance, between 0 and 1. */
  lemma {:induction false} WorstFall(dd: real, start: real, pnls: seq<real>)
    requires start > 0.0 && NeverNegative(start, pnls) && IsMaxDrawdown(dd, start, pnls, |pnls|)
    ensures 0.0 <= dd <= 1.0
    ensures forall i, j :: 0 <= i <= j <= |pnls| ==> Drop(Balance(start, pnls, i), Balance(start, pnls, j)) <= dd
    ensures exists i, j :: 0 <= i <= j <= |pnls| && Drop(Balance(start, pnls, i), Balance(start, pnls, j)) == dd
  {
    forall i, j | 0 <= i <= j <= |pnls|
      ensures Drop(Balance(start, pnls, i), Balance(start, pnls, j)) <= dd
    {
      FallWithin(dd, start, pnls, i, j);
    }
    if dd == 0.0 {
      assert Drop(Balance(start, pnls, 0), Balance(start, pnls, 0)) == 0.0;
    } else {
      var j :| 0 < j <= |pnls| && DrawdownAt(start, pnls, j) == dd;
      PeakIsHighest(start, pnls, j);
      var i :| 0 <= i <= j && Balance(start, pnls, i) == Peak(start, pnls, j);
      assert Balance(start, pnls, 0) <= Peak(start, pnls, j);
      DropBounds(Peak(start, pnls, j), Balance(start, pnls, j));
    }
  }

  lemma {:induction false} FallWithin(dd: real, start: real, pnls: seq<real>, i: nat, j: nat)
    requires start > 0.0 && NeverNegative(start, pnls) && IsMaxDrawdown(dd, start, pnls, |pnls|) && i <= j <= |pnls|
    ensures Drop(Balance(start, pnls, i), Balance(start, pnls, j)) <= dd
  {
    var high, low := Balance(start, pnls, i), Balance(start, pnls, j);
    if high > 0.0 && j > 0 {
      PeakIsHighest(start, pnls, j);
      DropMono(high, Peak(start, pnls, j), low);
      assert DrawdownAt(start, pnls, j) <= dd;
    }
  }

  /** The balance after `i` trades is positive and the highest so far. */
  ghost predicate High(start: real, pnls: seq<real>, i: nat, j: nat)
    requires i <= j <= |pnls|
  {
    Balance(start, pnls, i) > 0.0 && forall k :: 0 <= k <= j ==> Balance(start, pnls, k) <= Balance(start, pnls, i)
  }

  /** From `high` to `low` is at most the share `d` of `high`, or exactly that share. */
  ghost predicate FallsWithin(d: real, high: real, low: real) {
    high - low <= d * high
  }

  ghost predicate FallsBy(d: real, high: real, low: real) {
    high - low == d * high
  }

  /** Whatever the start and however the balance runs: the figure is the largest share that a balance falls short of
      the highest one before it, counted only from highs above zero, and zero if there is none. */
  lemma {:induction false} DrawdownIs(dd: real, start: real, pnls: seq<real>)
    requires IsMaxDrawdown(dd, start, pnls, |pnls|)
    ensures dd >= 0.0
    ensures forall i, j :: 0 <= i <= j <= |pnls| && High(start, pnls, i, j) ==>
              FallsWithin(dd, Balance(start, pnls, i), Balance(start, pnls, j))
    ensures dd == 0.0 || exists i, j ::
              0 <= i <= j <= |pnls| && High(start, pnls, i, j) &&
              FallsBy(dd, Balance(start, pnls, i), Balance(start, pnls, j))
  {
    hide Drop, High, FallsWithin, FallsBy, Balance, Peak;
    forall i, j | 0 <= i <= j <= |pnls| && High(start, pnls, i, j)
      ensures FallsWithin(dd, Balance(start, pnls, i), Balance(start, pnls, j))
    {
      ShortOfHigh(dd, start, pnls, i, j);
    }
    if dd != 0.0 {
      var j :| 0 < j <= |pnls| && DrawdownAt(start, pnls, j) == dd;
      var i := WorstHigh(start, pnls, j);
    }
  }

  lemma WorstHigh(start: real, pnls: seq<real>, j: nat) returns (i: nat)
    requires j <= |pnls| && DrawdownAt(start, pnls, j) != 0.0
    ensures i <= j && High(start, pnls, i, j)
    ensures FallsBy(DrawdownAt(start, pnls, j), Balance(start, pnls, i), Balance(start, pnls, j))
  {
    PeakIsHighest(start, pnls, j);
    i :| 0 <= i <= j && Balance(start, pnls, i) == Peak(start, pnls, j);
    var high, low := Peak(start, pnls, j), Balance(start, pnls, j);
    assert high > 0.0;
    DropIs(high, low);
    hide Drop;
  }

  lemma {:induction false} ShortOfHigh(dd: real, start: real, pnls: seq<real>, i: nat, j: nat)
    requires IsMaxDrawdown(dd, start, pnls, |pnls|) && i <= j <= |pnls| && High(start, pnls, i, j)
    ensures FallsWithin(dd, Balance(start, pnls, i), Balance(start, pnls, j))
  {
    hide Drop, Peak;
    PeakIs(start, pnls, i, j);
    WithinShare(Balance(start, pnls, i), Balance(start, pnls, j), dd);
  }

  lemma WithinShare(high: real, low: real, dd: real)
    requires high > 0.0 && (Drop(high, low) <= dd || (low == high && 0.0 <= dd))
    ensures FallsWithin(dd, high, low)
  {
    DropIs(high, low);
    Cancel(Drop(high, low), dd, high);
    hide Drop;
  }

  lemma {:induction false} PeakIs(start: real, pnls: seq<real>, i: nat, j: nat)
    requires i <= j <= |pnls| && High(start, pnls, i, j)
    ensures Peak(start, pnls, j) == Balance(start, pnls, i)
    ensures DrawdownAt(start, pnls, j) == Drop(Balance(start, pnls, i), Balance(start, pnls, j))
  {
    PeakIsHighest(start, pnls, j);
    var k :| 0 <= k <= j && Balance(start, pnls, k) == Peak(start, pnls, j);
  }

  /** With a positive start the figure is zero exactly when no trade leaves the balance below an earlier one. */
  lemma ZeroExactly(dd: real, start: real, pnls: seq<real>)
    requires start > 0.0 && IsMaxDrawdown(dd, start, pnls, |pnls|)
    ensures dd == 0.0 <==> forall j :: 0 <= j < |pnls| ==> pnls[j] >= 0.0
  {
    if dd == 0.0 {
      forall j | 0 <= j < |pnls| ensures pnls[j] >= 0.0 {
        AtPeak(start, pnls, j + 1, dd);
      }
    }
    if dd != 0.0 {
      var j :| 0 < j <= |pnls| && DrawdownAt(start, pnls, j) == dd;
      PeakIsHighest(start, pnls, j);
      var i :| 0 <= i <= j && Balance(start, pnls, i) == Peak(start, pnls, j);
      if forall k :: 0 <= k < |pnls| ==> pnls[k] >= 0.0 {
        Climbing(start, pnls, i, j);
      }
    }
  }

  lemma AtPeak(start: real, pnls: seq<real>, j: nat, dd: real)
    requires start > 0.0 && dd == 0.0 && IsMaxDrawdown(dd, start, pnls, |pnls|) && 0 < j <= |pnls|
    ensures Balance(start, pnls, j) == Peak(start, pnls, j) && Balance(start, pnls, j - 1) <= Balance(start, pnls, j)
  {
    PeakIsHighest(start, pnls, j);
    assert Balance(start, pnls, 0) <= Peak(start, pnls, j);
    DropBounds(Peak(start, pnls, j), Balance(start, pnls, j));
    assert DrawdownAt(start, pnls, j) <= dd;
  }

  lemma {:induction false} Climbing(start: real, pnls: seq<real>, i: nat, j: nat)
    requires i <= j <= |pnls| && forall k :: 0 <= k < |pnls| ==> pnls[k] >= 0.0
    ensures Balance(start, pnls, i) <= Balance(start, pnls, j)
  {
    if i < j { Climbing(start, pnls, i, j - 1); }
  }

  /** The figure is at most 1 exactly if the balance never goes below zero: an account that does shows a
      drawdown of more than 100%. */
  lemma AtMostOneExactly(dd: real, start: real, pnls: seq<real>)
    requires start > 0.0 && IsMaxDrawdown(dd, start, pnls, |pnls|)
    ensures dd <= 1.0 <==> NeverNegative(start, pnls)
  {
    if NeverNegative(start, pnls) {
      WorstFall(dd, start, pnls);
    } else {
      var j :| 0 <= j <= |pnls| && Balance(start, pnls, j) < 0.0;
      PeakIsHighest(start, pnls, j);
      assert Balance(start, pnls, 0) <= Peak(start, pnls, j);
      DropBelowZero(Peak(start, pnls, j), Balance(start, pnls, j));
      assert DrawdownAt(start, pnls, j) <= dd;
    }
  }

  lemma DropBelowZero(high: real, low: real)
    requires 0.0 < high && low < 0.0
    ensures Drop(high, low) > 1.0
  {
    DropIs(high, low);
    assert 1.0 * high == high;
    Cancel(Drop(high, low), 1.0, high);
  }

  /** For instance 150%, after losing 150 of 100. */
  lemma BelowZeroExceedsOne(dd: real)
    requires IsMaxDrawdown(dd, 100.0, [-150.0], 1)
    ensures dd == 1.5
  {
    var pnls := [-150.0];
    assert Balance(100.0, pnls, 1) == -50.0 && Peak(100.0, pnls, 1) == 100.0;
    assert DrawdownAt(100.0, pnls, 1) == 1.5;
  }
}
