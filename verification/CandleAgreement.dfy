/** The candle cache against its source: what a response is, in terms of the exchange's own bars. */
module CandleAgreement {
  import opened Candles

  /** One series at the exchange, gap-free on its grid: bar 0 opens at `origin`, each next one interval later. */
  datatype Source = Source(origin: int, bar: nat -> Bar)

  function OpenAt(src: Source, tf: int, k: nat): int {
    if k == 0 then src.origin else OpenAt(src, tf, k - 1) + tf
  }

  function SourceRow(src: Source, tf: int, k: nat): Row {
    Row(OpenAt(src, tf, k), src.bar(k))
  }

  /** `rows` are exactly the source's bars `a`, …, `b - 1`, in order. */
  ghost predicate AreBars(rows: seq<Row>, src: Source, tf: int, a: nat, b: nat) {
    a + |rows| == b && forall i :: 0 <= i < |rows| ==> rows[i] == SourceRow(src, tf, a + i)
  }

  /** How many bars open before `t`. */
  function Before(src: Source, tf: int, t: int): nat
    requires tf > 0
    decreases t - src.origin
  {
    if t <= src.origin then 0 else Before(src, tf, t - tf) + 1
  }

  /** How many bars have closed at `now`. */
  function Closed(src: Source, tf: int, now: int): nat
    requires tf > 0
  {
    Before(src, tf, now - tf + 1)
  }

  // ---------------------------------------------------------------- the grid

  lemma {:induction false} OpenAtShift(src: Source, tf: int, k: nat, m: nat)
    ensures OpenAt(src, tf, k + m) == OpenAt(src, tf, k) + tf * m
  {
    if m > 0 {
      OpenAtShift(src, tf, k, m - 1);
      assert tf * m == tf * (m - 1) + tf;
    }
  }

  lemma {:induction false} OpenAtOrder(src: Source, tf: int, i: nat, j: nat)
    requires tf > 0 && i < j
    ensures OpenAt(src, tf, i) + tf <= OpenAt(src, tf, j)
  {
    if i < j - 1 { OpenAtOrder(src, tf, i, j - 1); }
  }

  /** `Before` counts: bar `k` opens before `t` iff it is one of the first `Before(t)`. */
  lemma {:induction false} BeforeIs(src: Source, tf: int, t: int, k: nat)
    requires tf > 0
    ensures k < Before(src, tf, t) <==> OpenAt(src, tf, k) < t
    decreases k
  {
    if k > 0 {
      if t > src.origin {
        BeforeIs(src, tf, t - tf, k - 1);
      } else {
        OpenAtOrder(src, tf, 0, k);
      }
    }
  }

  /** Bar `k` is closed at `now` iff its interval has ended. */
  lemma {:induction false} ClosedIs(src: Source, tf: int, now: int, k: nat)
    requires tf > 0
    ensures k < Closed(src, tf, now) <==> OpenAt(src, tf, k) + tf <= now
  {
    BeforeIs(src, tf, now - tf + 1, k);
  }

  lemma ClosedMono(src: Source, tf: int, now: int, later: int)
    requires tf > 0 && now <= later
    ensures Closed(src, tf, now) <= Closed(src, tf, later)
  {
    var n := Closed(src, tf, now);
    if n > 0 { ClosedIs(src, tf, now, n - 1); ClosedIs(src, tf, later, n - 1); }
  }

  // ---------------------------------------------------------------- agreement

  /** `row` is one of the source's first `n` bars, with the source's values. */
  ghost predicate IsBar(row: Row, src: Source, tf: int, n: nat) {
    exists k: nat :: k < n && row == SourceRow(src, tf, k)
  }

  /** Every stored row is one of the source's first `n` bars. */
  ghost predicate Agrees(rows: seq<Row>, src: Source, tf: int, n: nat) {
    InKeyOrder(rows) && forall row :: row in rows ==> IsBar(row, src, tf, n)
  }

  /** The exchange is asked in whole milliseconds. */
  function FloorMs(t: int): int {
    t - t % 1000
  }

  /** Where the window that starts at `start` begins: the first bar it can return. */
  function First(src: Source, tf: int, start: int): nat
    requires tf > 0
  {
    Before(src, tf, FloorMs(start))
  }

  /** What a fetch of `[start, now)` returns: the window's bars in order from the first one on, as many of them
      as arrived; closed bars with their final values, a bar still forming with any values. */
  ghost predicate WindowPrefix(rows: seq<Row>, src: Source, tf: int, start: int, now: int)
    requires tf > 0
  {
    var lo := First(src, tf, start);
    && (rows != [] ==> lo + |rows| <= Before(src, tf, FloorMs(now)))
    && (forall i :: 0 <= i < |rows| ==> rows[i].time == OpenAt(src, tf, lo + i))
    && (forall i :: 0 <= i < |rows| && lo + i < Closed(src, tf, now) ==> rows[i].bar == src.bar(lo + i))
  }

  /** The exchange answers every window with a prefix of it, or the fetch fails. */
  ghost predicate Answers(fetch: (int, int) -> Fetched, src: Source, tf: int, now: int)
    requires tf > 0
  {
    forall start :: fetch(start, now).Frame? ==> WindowPrefix(fetch(start, now).rows, src, tf, start, now)
  }

  /** Dropping the forming bar leaves exactly the closed bars among those that arrived. */
  lemma FrameIsClosedBars(rows: seq<Row>, src: Source, tf: int, start: int, now: int)
    requires tf > 0 && WindowPrefix(rows, src, tf, start, now)
    ensures var lo, n, frame := First(src, tf, start), Closed(src, tf, now), DropFormingBar(rows, tf, now);
            && AreBars(frame, src, tf, lo, lo + |frame|)
            && (if lo + |rows| <= n then frame == rows else rows != [] ==> lo + |frame| == n)
  {
    var lo, n := First(src, tf, start), Closed(src, tf, now);
    if rows != [] {
      var last := lo + |rows| - 1;
      BeforeIs(src, tf, FloorMs(now), last);
      ClosedIs(src, tf, now, last);
      if last > n {
        OpenAtOrder(src, tf, n, last);
        ClosedIs(src, tf, now, n);
        assert false;
      }
    }
  }

  /** An unbroken run of agreeing rows is a run of consecutive source bars. */
  lemma {:induction false} UnbrokenIsConsecutive(rows: seq<Row>, src: Source, tf: int, n: nat) returns (a: nat)
    requires tf > 0 && rows != [] && Agrees(rows, src, tf, n)
    requires forall i :: 0 < i < |rows| ==> 2 * (rows[i].time - rows[i - 1].time) <= 3 * tf
    ensures a + |rows| <= n && AreBars(rows, src, tf, a, a + |rows|)
  {
    var last := |rows| - 1;
    assert IsBar(rows[last], src, tf, n);
    if last == 0 {
      var k: nat :| k < n && rows[last] == SourceRow(src, tf, k);
      a := k;
    } else {
      var init := rows[..last];
      a := UnbrokenIsConsecutive(init, src, tf, n);
      assert rows[last - 1] == init[last - 1] == SourceRow(src, tf, a + last - 1);
      NextBar(src, tf, n, a + last - 1, rows[last]);
    }
  }

  /** A bar that opens after bar `p`, by at most one and a half intervals, is bar `p + 1`. */
  lemma {:induction false} NextBar(src: Source, tf: int, n: nat, p: nat, row: Row)
    requires tf > 0 && IsBar(row, src, tf, n)
    requires 0 < row.time - OpenAt(src, tf, p) && 2 * (row.time - OpenAt(src, tf, p)) <= 3 * tf
    ensures p + 1 < n && row == SourceRow(src, tf, p + 1)
  {
    var k: nat :| k < n && row == SourceRow(src, tf, k);
    if k < p {
      OpenAtOrder(src, tf, k, p);
    }
    if k > p + 1 {
      OpenAtOrder(src, tf, p + 1, k);
    }
  }

  lemma SuffixAgrees(rows: seq<Row>, src: Source, tf: int, n: nat, c: nat)
    requires Agrees(rows, src, tf, n) && c <= |rows|
    ensures Agrees(rows[c..], src, tf, n)
  {
  }

  /** What the cache serves from agreeing rows is always a run of consecutive source bars, at most `limit` of
      them, ending at the newest row it holds. */
  lemma ReadIsConsecutive(all: seq<Row>, limit: nat, src: Source, tf: int, n: nat) returns (a: nat)
    requires tf > 0 && limit > 0 && all != [] && Agrees(all, src, tf, n)
    ensures var rows := UnbrokenTail(LastRows(all, limit), tf);
            && 0 < |rows| <= limit && a + |rows| <= n && AreBars(rows, src, tf, a, a + |rows|)
            && rows[|rows| - 1] == all[|all| - 1]
  {
    LastRowsAgree(all, limit, src, tf, n);
    var picked := LastRows(all, limit);
    TailIsUnbroken(picked, tf);
    SuffixAgrees(picked, src, tf, n, TailCut(picked, tf, |picked|));
    a := UnbrokenIsConsecutive(UnbrokenTail(picked, tf), src, tf, n);
  }

  lemma LastRowsAgree(all: seq<Row>, limit: nat, src: Source, tf: int, n: nat)
    requires limit > 0 && all != [] && Agrees(all, src, tf, n)
    ensures var picked := LastRows(all, limit);
            && 0 < |picked| <= limit && Agrees(picked, src, tf, n)
            && picked[|picked| - 1] == all[|all| - 1]
  {
    if |all| > limit { SuffixAgrees(all, src, tf, n, |all| - limit); }
  }

  /** The cut is the last hole: none after it, and one at it unless it is the first row. */
  lemma {:induction false} CutIsLastHole(rows: seq<Row>, tf: int, n: nat)
    requires n <= |rows|
    ensures var cut := TailCut(rows, tf, n);
            && (forall i :: cut < i < n ==> 2 * (rows[i].time - rows[i - 1].time) <= 3 * tf)
            && (0 < cut ==> 2 * (rows[cut].time - rows[cut - 1].time) > 3 * tf)
  {
    if n > 1 && 2 * (rows[n - 1].time - rows[n - 2].time) <= 3 * tf { CutIsLastHole(rows, tf, n - 1); }
  }

  lemma TailIsUnbroken(rows: seq<Row>, tf: int)
    requires rows != []
    ensures var tail := UnbrokenTail(rows, tf);
            && 0 < |tail| <= |rows| && tail[|tail| - 1] == rows[|rows| - 1]
            && forall i :: 0 < i < |tail| ==> 2 * (tail[i].time - tail[i - 1].time) <= 3 * tf
  {
    var cut := TailCut(rows, tf, |rows|);
    CutIsLastHole(rows, tf, |rows|);
    forall i | 0 < i < |rows| - cut
      ensures 2 * (rows[cut..][i].time - rows[cut..][i - 1].time) <= 3 * tf
    {
      assert rows[cut..][i] == rows[cut + i] && rows[cut..][i - 1] == rows[cut + i - 1];
    }
  }

  // ---------------------------------------------------------------- the upsert

  lemma {:induction false} PutMembers(rows: seq<Row>, row: Row)
    ensures row in Put(rows, row)
    ensures forall x :: x in Put(rows, row) ==> x == row || x in rows
    ensures forall x :: x in rows && x.time != row.time ==> x in Put(rows, row)
  {
    if rows != [] {
      var n := |rows| - 1;
      assert rows == rows[..n] + [rows[n]];
      if rows[n].time > row.time { PutMembers(rows[..n], row); }
    }
  }

  lemma {:induction false} PutKeepsOrder(rows: seq<Row>, row: Row)
    requires InKeyOrder(rows)
    ensures InKeyOrder(Put(rows, row))
  {
    if rows != [] {
      var n := |rows| - 1;
      if rows[n].time > row.time {
        PutKeepsOrder(rows[..n], row);
        PutMembers(rows[..n], row);
        var r := Put(rows[..n], row);
        forall i | 0 <= i < |r| ensures r[i].time < rows[n].time {
          assert r[i] in r;
        }
      }
    }
  }

  lemma {:induction false} PutAllAgrees(rows: seq<Row>, more: seq<Row>, src: Source, tf: int, n: nat)
    requires tf > 0 && Agrees(rows, src, tf, n) && forall row :: row in more ==> IsBar(row, src, tf, n)
    ensures Agrees(PutAll(rows, more), src, tf, n)
    ensures forall x :: x in rows || x in more ==> x in PutAll(rows, more)
  {
    if more != [] {
      var init, last := more[..|more| - 1], more[|more| - 1];
      assert more == init + [last];
      PutAllAgrees(rows, init, src, tf, n);
      PutAgrees(PutAll(rows, init), src, tf, n, last);
    }
  }

  /** Upserting a closed source bar into an agreeing series changes nothing else. */
  lemma {:induction false} PutAgrees(rows: seq<Row>, src: Source, tf: int, n: nat, row: Row)
    requires tf > 0 && Agrees(rows, src, tf, n) && IsBar(row, src, tf, n)
    ensures Agrees(Put(rows, row), src, tf, n)
    ensures forall x :: x in rows || x == row ==> x in Put(rows, row)
  {
    PutKeepsOrder(rows, row);
    PutMembers(rows, row);
    forall x | x in rows && x.time == row.time ensures x == row {
      SameTimeSameBar(src, tf, n, x, row);
    }
  }

  lemma SameTimeSameBar(src: Source, tf: int, n: nat, x: Row, y: Row)
    requires tf > 0 && IsBar(x, src, tf, n) && IsBar(y, src, tf, n) && x.time == y.time
    ensures x == y
  {
    var j: nat :| j < n && x == SourceRow(src, tf, j);
    var k: nat :| k < n && y == SourceRow(src, tf, k);
    if j < k { OpenAtOrder(src, tf, j, k); }
    if k < j { OpenAtOrder(src, tf, k, j); }
  }

  /** If the bars from `lo` up are all there, they are the last rows of the series. */
  lemma {:induction false} TopRows(rows: seq<Row>, src: Source, tf: int, lo: nat, n: nat)
    requires tf > 0 && lo <= n && Agrees(rows, src, tf, n)
    requires forall k :: lo <= k < n ==> SourceRow(src, tf, k) in rows
    ensures n - lo <= |rows| && AreBars(rows[|rows| - (n - lo)..], src, tf, lo, n)
    decreases n
  {
    if lo < n {
      LastIsNewest(rows, src, tf, n);
      var init := rows[..|rows| - 1];
      forall k | lo <= k < n - 1 ensures SourceRow(src, tf, k) in init {
        OlderInInit(rows, src, tf, k, n - 1);
      }
      TopRows(init, src, tf, lo, n - 1);
      OneMoreBar(rows, src, tf, lo, n, |rows| - (n - lo));
    }
  }

  lemma OlderInInit(rows: seq<Row>, src: Source, tf: int, k: nat, last: nat)
    requires tf > 0 && k < last && rows != [] && rows[|rows| - 1] == SourceRow(src, tf, last) &&
             SourceRow(src, tf, k) in rows
    ensures SourceRow(src, tf, k) in rows[..|rows| - 1]
  {
    OpenAtOrder(src, tf, k, last);
    var i :| 0 <= i < |rows| && rows[i] == SourceRow(src, tf, k);
    assert rows[..|rows| - 1][i] == rows[i];
  }

  lemma OneMoreBar(rows: seq<Row>, src: Source, tf: int, lo: nat, n: nat, from: nat)
    requires lo < n && |rows| - from == n - lo && rows[|rows| - 1] == SourceRow(src, tf, n - 1)
    requires AreBars(rows[..|rows| - 1][from..], src, tf, lo, n - 1)
    ensures AreBars(rows[from..], src, tf, lo, n)
  {
    var init := rows[..|rows| - 1][from..];
    assert rows[from..] == init + [rows[|rows| - 1]];
  }

  lemma LastIsNewest(rows: seq<Row>, src: Source, tf: int, n: nat)
    requires tf > 0 && 0 < n && Agrees(rows, src, tf, n) && SourceRow(src, tf, n - 1) in rows
    ensures rows[|rows| - 1] == SourceRow(src, tf, n - 1)
    ensures Agrees(rows[..|rows| - 1], src, tf, n - 1)
  {
    var m := |rows| - 1;
    var top := SourceRow(src, tf, n - 1);
    var i :| 0 <= i < |rows| && rows[i] == top;
    if i < m {
      NoneLater(rows[m], src, tf, n);
      assert false;
    }
    forall x | x in rows[..m] ensures IsBar(x, src, tf, n - 1) {
      var j :| 0 <= j < m && rows[j] == x;
      assert x in rows && x.time < top.time;
      var k: nat :| k < n && x == SourceRow(src, tf, k);
      assert k != n - 1;
    }
  }

  lemma {:induction false} NoneLater(row: Row, src: Source, tf: int, n: nat)
    requires tf > 0 && 0 < n && IsBar(row, src, tf, n)
    ensures row.time <= OpenAt(src, tf, n - 1)
  {
    var k: nat :| k < n && row == SourceRow(src, tf, k);
    if k < n - 1 { OpenAtOrder(src, tf, k, n - 1); }
  }
}
