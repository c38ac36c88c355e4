/** What `get_candles` guarantees against an exchange that answers each window, or the first part of it, or
    nothing: request by request and over whole runs. */
module CandleTheorems {
  import opened Candles
  import opened CandleAgreement
  import opened CandleAnswers

  /** The series' stored rows agree with the source as far as it has closed. */
  ghost predicate Sound(table: Table, s: Series, src: Source, now: int) {
    var tf := TfDelta(s.timeframe);
    Agrees(RowsOf(table, s), src, tf, Closed(src, tf, now))
  }

  /** Consecutive bars among the source's first `n`, at most `limit` of them. */
  ghost predicate Run(rows: seq<Row>, src: Source, tf: int, n: nat, limit: nat) {
    exists a: nat, b: nat :: AreBars(rows, src, tf, a, b) && a < b <= n && b - a <= limit
  }

  /** `rows` end at the source's newest closed bar. */
  ghost predicate EndsNewest(rows: seq<Row>, src: Source, tf: int, now: int)
    requires tf > 0
  {
    var n := Closed(src, tf, now);
    n > 0 && rows != [] && rows[|rows| - 1] == SourceRow(src, tf, n - 1)
  }

  /** `rows` end at bar `e - 1` and reach back to bar `a`, unless `limit` stops them earlier. */
  ghost predicate ReachesBack(rows: seq<Row>, src: Source, tf: int, e: nat, limit: nat, a: nat) {
    && 0 < |rows| <= limit && |rows| <= e && AreBars(rows, src, tf, e - |rows|, e)
    && (e - a <= |rows| || |rows| == limit)
  }

  /** Less than two intervals ago: the bar that opened then is the newest one closed. */
  predicate UpToDate(time: int, tf: int, now: int) {
    now - time < 2 * tf
  }

  predicate EndsUpToDate(rows: seq<Row>, tf: int, now: int) {
    rows != [] && UpToDate(Newest(rows), tf, now)
  }

  // ---------------------------------------------------------------- where a run ends

  /** A closed bar is the newest exactly if it opened less than two intervals ago. */
  lemma NewestExactly(src: Source, tf: int, now: int, b: nat)
    requires tf > 0 && 0 < b <= Closed(src, tf, now)
    ensures b == Closed(src, tf, now) <==> UpToDate(OpenAt(src, tf, b - 1), tf, now)
  {
    ClosedIs(src, tf, now, b);
  }

  /** A closed bar that is not stale and not the newest is the one before it, two intervals old to the instant. */
  lemma OneShortExactly(src: Source, tf: int, now: int, b: nat)
    requires tf > 0 && 0 < b <= Closed(src, tf, now) && !IsStale(OpenAt(src, tf, b - 1), tf, now)
    ensures b == Closed(src, tf, now) || b + 1 == Closed(src, tf, now)
    ensures b + 1 == Closed(src, tf, now) <==> now == OpenAt(src, tf, b - 1) + 2 * tf
  {
    var n := Closed(src, tf, now);
    NewestExactly(src, tf, now, b);
    if b + 1 < n {
      ClosedIs(src, tf, now, b + 1);
    }
  }

  lemma RunEndsNewest(rows: seq<Row>, src: Source, tf: int, now: int, limit: nat)
    requires tf > 0 && Run(rows, src, tf, Closed(src, tf, now), limit)
    ensures EndsNewest(rows, src, tf, now) <==> EndsUpToDate(rows, tf, now)
  {
    var a: nat, b: nat :| AreBars(rows, src, tf, a, b) && a < b <= Closed(src, tf, now) && b - a <= limit;
    NewestExactly(src, tf, now, b);
    if EndsNewest(rows, src, tf, now) {
      SameIndex(src, tf, b - 1, Closed(src, tf, now) - 1);
    }
  }

  lemma {:induction false} SameIndex(src: Source, tf: int, j: nat, k: nat)
    requires tf > 0 && OpenAt(src, tf, j) == OpenAt(src, tf, k)
    ensures j == k
  {
    if j < k { OpenAtOrder(src, tf, j, k); }
    if k < j { OpenAtOrder(src, tf, k, j); }
  }

  // ---------------------------------------------------------------- the window of a refresh

  /** A tail refresh starts at the bar before the newest cached one. */
  lemma TailWindow(all: seq<Row>, limit: nat, src: Source, tf: int, now: int) returns (a: nat, b: nat)
    requires tf >= 1000 && limit > 0 && all != [] && Agrees(all, src, tf, Closed(src, tf, now))
    requires TailOnly(UnbrokenTail(LastRows(all, limit), tf), limit, tf, now)
    ensures var rows := UnbrokenTail(LastRows(all, limit), tf);
            && a < b <= Closed(src, tf, now) && AreBars(rows, src, tf, a, b) && rows[|rows| - 1] == all[|all| - 1]
            && First(src, tf, FetchStart(rows, limit, tf, now)) == (if b == 1 then 0 else b - 2)
  {
    var rows := UnbrokenTail(LastRows(all, limit), tf);
    a := ReadIsConsecutive(all, limit, src, tf, Closed(src, tf, now));
    b := a + |rows|;
    BarBefore(src, tf, b - 1);
  }

  /** One interval before bar `k` opens there are `k - 1` bars, none before bar 0; the millisecond the exchange
      is asked for makes no difference. */
  lemma {:induction false} BarBefore(src: Source, tf: int, k: nat)
    requires tf >= 1000
    ensures First(src, tf, OpenAt(src, tf, k) - tf) == if k == 0 then 0 else k - 1
  {
    var from := FloorMs(OpenAt(src, tf, k) - tf);
    BeforeIs(src, tf, from, if k == 0 then 0 else k - 1);
    if k > 1 { BeforeIs(src, tf, from, k - 2); }
  }

  /** A whole window holds `limit` closed bars, or all there are. */
  lemma WholeWindow(src: Source, tf: int, now: int, limit: nat)
    requires tf > 0
    ensures var lo, n := First(src, tf, now - tf * (limit + 5)), Closed(src, tf, now);
            (0 < n ==> lo < n) && (lo == 0 || lo + limit <= n)
  {
    var start := now - tf * (limit + 5);
    var lo := First(src, tf, start);
    if lo > 0 {
      BeforeIs(src, tf, FloorMs(start), lo - 1);
      OpenAtShift(src, tf, lo - 1, limit + 1);
      WindowWidth(tf, limit);
      ClosedIs(src, tf, now, lo + limit);
    }
  }

  lemma WindowWidth(tf: int, limit: nat)
    requires tf > 0
    ensures tf * (limit + 1) + tf <= tf * (limit + 5)
  {
  }

  /** A refresh never asks for more than `limit + 5` closed bars: only a tail no wider than the served window is
      fetched as a tail, and a wider gap costs one window. */
  lemma FetchBounded(all: seq<Row>, limit: nat, src: Source, tf: int, now: int)
    requires tf >= 1000 && limit > 0 && Agrees(all, src, tf, Closed(src, tf, now))
    ensures var rows := UnbrokenTail(LastRows(all, limit), tf);
            Closed(src, tf, now) <= First(src, tf, FetchStart(rows, limit, tf, now)) + limit + 5
  {
    var rows := UnbrokenTail(LastRows(all, limit), tf);
    if TailOnly(rows, limit, tf, now) {
      TailBounded(all, limit, src, tf, now);
    } else {
      WholeWindowBounded(src, tf, now, now - tf * (limit + 5), limit + 5);
    }
  }

  lemma {:induction false} FewMissing(rows: seq<Row>, src: Source, tf: int, a: nat, b: nat, limit: nat, now: int)
    requires tf > 0 && a < b && AreBars(rows, src, tf, a, b) && TailOnly(rows, limit, tf, now)
    ensures now - OpenAt(src, tf, b - 1) <= tf * limit
  {
    var newest := rows[|rows| - 1].time;
    assert newest == OpenAt(src, tf, b - 1);
    hide AreBars, OpenAt, CeilDiv;
    CeilDivIs(now - newest, tf, limit);
  }

  lemma TailBounded(all: seq<Row>, limit: nat, src: Source, tf: int, now: int)
    requires tf >= 1000 && limit > 0 && all != [] && Agrees(all, src, tf, Closed(src, tf, now))
    requires TailOnly(UnbrokenTail(LastRows(all, limit), tf), limit, tf, now)
    ensures var rows := UnbrokenTail(LastRows(all, limit), tf);
            Closed(src, tf, now) <= First(src, tf, FetchStart(rows, limit, tf, now)) + limit + 1
  {
    hide Agrees, UnbrokenTail, LastRows, OpenAt, Before, First, FetchStart, Closed, AreBars, TailOnly;
    var a, b := TailWindow(all, limit, src, tf, now);
    FewMissing(UnbrokenTail(LastRows(all, limit), tf), src, tf, a, b, limit, now);
    ClosedSpan(src, tf, now, OpenAt(src, tf, b - 1), b - 1, limit);
  }

  lemma WholeWindowBounded(src: Source, tf: int, now: int, start: int, width: nat)
    requires tf >= 1000 && now - start <= tf * width
    ensures Closed(src, tf, now) <= First(src, tf, start) + width
  {
    var lo := First(src, tf, start);
    BeforeIs(src, tf, FloorMs(start), lo);
    ClosedSpan(src, tf, now, start, lo, width);
  }

  /** In `m` intervals before `now`, give or take less than one, at most `m` bars from bar `k` on close. */
  lemma {:induction false} ClosedSpan(src: Source, tf: int, now: int, from: int, k: nat, m: nat)
    requires tf > 0 && from - tf < OpenAt(src, tf, k) && now - from <= tf * m
    ensures Closed(src, tf, now) <= k + m
  {
    if Closed(src, tf, now) > k + m {
      ClosedIs(src, tf, now, k + m);
      OpenAtShift(src, tf, k, m);
      assert false;
    }
  }

  /** The frame a refresh works with: some bars from the window's first one on, all of them closed. */
  lemma RefreshFrame(table: Table, s: Series, limit: nat, now: int, src: Source, fetch: (int, int) -> Fetched)
    returns (lo: nat)
    requires Asked(limit) && Sound(table, s, src, now) && Answers(fetch, src, TfDelta(s.timeframe), now)
    ensures var tf := TfDelta(s.timeframe); var n := Closed(src, tf, now);
            var raw, fetched := Fetch(table, s, limit, now, fetch), Refetched(table, s, limit, now, fetch);
            && lo == First(src, tf, FetchStart(Read(table, s, limit), limit, tf, now))
            && (0 < n ==> lo < n) && (fetched.Frame? <==> raw.Frame?)
            && FrameInOrder(fetched)
            && (fetched.Frame? ==> IsFrame(fetched.rows, src, tf, lo, n))
            && (fetched.Frame? ==> (fetched.rows == [] <==> raw.rows == [] || n == 0))
            && (!TailOnly(Read(table, s, limit), limit, tf, now) ==> lo == 0 || lo + limit <= n)
  {
    var tf := TfDelta(s.timeframe);
    var rows := Read(table, s, limit);
    var start := FetchStart(rows, limit, tf, now);
    lo := First(src, tf, start);
    if TailOnly(rows, limit, tf, now) {
      var a, b := TailWindow(RowsOf(table, s), limit, src, tf, now);
    } else {
      WholeWindow(src, tf, now, limit);
    }
    if fetch(start, now).Frame? {
      FrameIsClosedBars(fetch(start, now).rows, src, tf, start, now);
      var frame := DropFormingBar(fetch(start, now).rows, tf, now);
      BarsInOrder(frame, src, tf, lo, lo + |frame|);
    }
  }

  /** Bars from bar `lo` on, all among the first `n`. */
  ghost predicate IsFrame(frame: seq<Row>, src: Source, tf: int, lo: nat, n: nat) {
    AreBars(frame, src, tf, lo, lo + |frame|) && (frame != [] ==> lo + |frame| <= n)
  }

  lemma {:induction false} BarsInOrder(rows: seq<Row>, src: Source, tf: int, a: nat, b: nat)
    requires tf > 0 && AreBars(rows, src, tf, a, b)
    ensures InKeyOrder(rows)
  {
    forall i, j | 0 <= i < j < |rows| ensures rows[i].time < rows[j].time {
      OpenAtOrder(src, tf, a + i, a + j);
    }
  }

  // ---------------------------------------------------------------- what the table holds after a refresh

  lemma {:induction false} UpsertBars(all: seq<Row>, frame: seq<Row>, src: Source, tf: int, n: nat, lo: nat, m: nat)
    requires tf > 0 && m <= n && Agrees(all, src, tf, n) && AreBars(frame, src, tf, lo, m)
    ensures Agrees(PutAll(all, frame), src, tf, n)
    ensures forall x :: x in all ==> x in PutAll(all, frame)
    ensures forall k :: lo <= k < m ==> SourceRow(src, tf, k) in PutAll(all, frame)
  {
    forall row | row in frame ensures IsBar(row, src, tf, n) {
      var i :| 0 <= i < |frame| && frame[i] == row;
      assert row == SourceRow(src, tf, lo + i);
    }
    PutAllAgrees(all, frame, src, tf, n);
    forall k | lo <= k < m ensures SourceRow(src, tf, k) in PutAll(all, frame) {
      assert frame[k - lo] in frame;
    }
  }

  /** Rows whose newest is bar `b - 1` are all among the first `b`. */
  lemma {:induction false} UpToNewest(all: seq<Row>, src: Source, tf: int, n: nat, b: nat)
    requires tf > 0 && Agrees(all, src, tf, n) && 0 < b && all != [] && Newest(all) == OpenAt(src, tf, b - 1)
    ensures Agrees(all, src, tf, b)
  {
    forall row | row in all ensures IsBar(row, src, tf, b) {
      assert row.time <= Newest(all);
      assert IsBar(row, src, tf, n);
      var k: nat :| k < n && row == SourceRow(src, tf, k);
      if b <= k { OpenAtOrder(src, tf, b - 1, k); }
    }
  }

  /** With the bars from `a` to `e - 1` stored and none later, a read ends at bar `e - 1` and reaches back at
      least to `a`, unless `limit` stops it earlier. */
  lemma ReadReachesBack(stored: seq<Row>, limit: nat, src: Source, tf: int, e: nat, a: nat)
    requires tf > 0 && limit > 0 && a < e && Agrees(stored, src, tf, e)
    requires forall k :: a <= k < e ==> SourceRow(src, tf, k) in stored
    ensures ReachesBack(UnbrokenTail(LastRows(stored, limit), tf), src, tf, e, limit, a)
  {
    var rows := UnbrokenTail(LastRows(stored, limit), tf);
    var first := ReadEndsAt(stored, limit, src, tf, e);
    TopRows(stored, src, tf, a, e);
    CutAboveHole(stored, src, tf, a, e, limit);
  }

  lemma ReadEndsAt(stored: seq<Row>, limit: nat, src: Source, tf: int, e: nat) returns (first: nat)
    requires tf > 0 && limit > 0 && 0 < e && Agrees(stored, src, tf, e) && SourceRow(src, tf, e - 1) in stored
    ensures var rows := UnbrokenTail(LastRows(stored, limit), tf);
            0 < |rows| <= limit && first + |rows| == e && AreBars(rows, src, tf, first, e)
  {
    LastIsNewest(stored, src, tf, e);
    first := ReadIsConsecutive(stored, limit, src, tf, e);
    SameIndex(src, tf, first + |UnbrokenTail(LastRows(stored, limit), tf)| - 1, e - 1);
  }

  /** The unbroken tail never cuts inside a run of consecutive bars. */
  lemma CutAboveHole(stored: seq<Row>, src: Source, tf: int, a: nat, n: nat, limit: nat)
    requires tf > 0 && limit > 0 && a < n
    requires n - a <= |stored| && AreBars(stored[|stored| - (n - a)..], src, tf, a, n)
    ensures var rows := UnbrokenTail(LastRows(stored, limit), tf); n - a <= |rows| || |rows| == limit
  {
    var picked, base := LastRows(stored, limit), |stored| - (n - a);
    var cut := TailCut(picked, tf, |picked|);
    CutIsLastHole(picked, tf, |picked|);
    forall j | base < j < |stored| ensures 2 * (stored[j].time - stored[j - 1].time) <= 3 * tf {
      assert stored[j] == stored[base..][j - base] && stored[j - 1] == stored[base..][j - 1 - base];
      StepIsOne(src, tf, a + (j - base));
    }
    if 0 < cut {
      var at := |stored| - |picked| + cut;
      assert picked[cut] == stored[at] && picked[cut - 1] == stored[at - 1];
    }
  }

  lemma StepIsOne(src: Source, tf: int, k: nat)
    requires 0 < k
    ensures OpenAt(src, tf, k) == OpenAt(src, tf, k - 1) + tf
  {
  }

  lemma LastOfBars(rows: seq<Row>, src: Source, tf: int, a: nat, b: nat, limit: nat)
    requires limit > 0 && AreBars(rows, src, tf, a, b)
    ensures AreBars(LastRows(rows, limit), src, tf, if b - a <= limit then a else b - limit, b)
  {
  }

  lemma ReadIsRun(table: Table, s: Series, limit: nat, src: Source, tf: int, n: nat)
    requires Asked(limit) && tf == TfDelta(s.timeframe) && RowsOf(table, s) != [] &&
             Agrees(RowsOf(table, s), src, tf, n)
    ensures Run(Read(table, s, limit), src, tf, n, limit)
  {
    var a := ReadIsConsecutive(RowsOf(table, s), limit, src, tf, n);
  }

  // ---------------------------------------------------------------- one request

  /** The newest closed bar is within reach: already cached, or in the frame, or stored and read back. */
  ghost predicate NewestAtHand(table: Table, s: Series, limit: nat, now: int, fetch: (int, int) -> Fetched,
          written: bool)
  {
    var tf := TfDelta(s.timeframe);
    var fetched := Refetched(table, s, limit, now, fetch);
    if Cached(table, s, limit, now) then EndsUpToDate(RowsOf(table, s), tf, now)
    else (fetched.Frame? && EndsUpToDate(fetched.rows, tf, now)) || (written && EndsUpToDate(RowsOf(table, s), tf, now))
  }

  /** The answer is a run of consecutive closed source bars, at most `limit`, and it ends at the newest closed
      bar exactly if that was at hand. */
  ghost predicate Faithful(response: Response, src: Source, tf: int, limit: nat, now: int, atHand: bool)
    requires tf > 0
  {
    response.Served? ==>
      && Run(response.rows, src, tf, Closed(src, tf, now), limit)
      && (EndsNewest(response.rows, src, tf, now) <==> atHand)
  }

  /** Cache agreement, one request. If the stored bars are closed source bars and the exchange answers with any
      prefix of the window asked for (or not at all), the stored bars still are closed source bars afterwards,
      and a 200 answer is a run of consecutive closed source bars that ends at the newest one exactly if that
      was at hand. */
  lemma CacheAgreement(table: Table, s: Series, limit: nat, now: int, src: Source, fetch: (int, int) -> Fetched,
          written: bool)
    requires Asked(limit) && Sound(table, s, src, now) && Answers(fetch, src, TfDelta(s.timeframe), now)
    ensures var (after, response) := Respond(table, s, limit, now, fetch, written);
            && Sound(after, s, src, now)
            && Faithful(response, src, TfDelta(s.timeframe), limit, now,
                 NewestAtHand(table, s, limit, now, fetch, written))
  {
    if Cached(table, s, limit, now) {
      RespondCases(table, s, limit, now, fetch, written);
      HitAgrees(table, s, limit, now, src);
    } else {
      MissAgrees(table, s, limit, now, src, fetch, written);
    }
  }

  lemma HitAgrees(table: Table, s: Series, limit: nat, now: int, src: Source)
    requires Asked(limit) && Sound(table, s, src, now) && Cached(table, s, limit, now)
    ensures var tf := TfDelta(s.timeframe); var rows := Read(table, s, limit);
            && Run(rows, src, tf, Closed(src, tf, now), limit)
            && (EndsNewest(rows, src, tf, now) <==> EndsUpToDate(RowsOf(table, s), tf, now))
  {
    var tf := TfDelta(s.timeframe);
    ReadEndsNewest(RowsOf(table, s), limit, tf);
    ReadIsRun(table, s, limit, src, tf, Closed(src, tf, now));
    RunEndsNewest(Read(table, s, limit), src, tf, now, limit);
  }

  lemma MissAgrees(table: Table, s: Series, limit: nat, now: int, src: Source, fetch: (int, int) -> Fetched,
          written: bool)
    requires Asked(limit) && Sound(table, s, src, now) && Answers(fetch, src, TfDelta(s.timeframe), now) &&
             !Cached(table, s, limit, now)
    ensures var (after, response) := Respond(table, s, limit, now, fetch, written);
            && Sound(after, s, src, now)
            && Faithful(response, src, TfDelta(s.timeframe), limit, now,
                 NewestAtHand(table, s, limit, now, fetch, written))
  {
    var lo := RefreshFrame(table, s, limit, now, src, fetch);
    MissAnswers(table, s, limit, now, fetch, written);
    var fetched := Refetched(table, s, limit, now, fetch);
    if fetched.Frame? && fetched.rows != [] {
      var tf := TfDelta(s.timeframe);
      UpsertBars(RowsOf(table, s), fetched.rows, src, tf, Closed(src, tf, now), lo, lo + |fetched.rows|);
      AnswerAgrees(table, s, limit, now, src, tf, fetched.rows, lo, written);
    }
  }

  lemma AnswerAgrees(table: Table, s: Series, limit: nat, now: int, src: Source, tf: int, frame: seq<Row>, lo: nat,
          written: bool)
    requires Asked(limit) && tf == TfDelta(s.timeframe) && Sound(table, s, src, now)
    requires frame != [] && InKeyOrder(frame) && IsFrame(frame, src, tf, lo, Closed(src, tf, now))
    ensures var rows := Answer(table, s, limit, now, frame, written);
            && Run(rows, src, tf, Closed(src, tf, now), limit)
            && (EndsNewest(rows, src, tf, now) <==>
                 EndsUpToDate(frame, tf, now) || (written && EndsUpToDate(RowsOf(table, s), tf, now)))
  {
    AnswerIsRun(table, s, limit, now, src, tf, Closed(src, tf, now), frame, lo, written);
    AnswerEnd(table, s, limit, now, frame, written);
    RunEndsNewest(Answer(table, s, limit, now, frame, written), src, tf, now, limit);
  }

  /** Closed bars do not change, so with agreeing rows the session's second read is the table's. */
  lemma {:induction false} AgreeingRowsStay(table: Table, s: Series, limit: nat, src: Source, tf: int, n: nat,
          frame: seq<Row>)
    requires tf == TfDelta(s.timeframe) && frame != [] && Agrees(RowsOf(table, s), src, tf, n)
    requires Agrees(PutAll(RowsOf(table, s), frame), src, tf, n)
    ensures ReadAgain(table, Upsert(table, s, frame), s, limit) == Read(Upsert(table, s, frame), s, limit)
  {
    var after := Upsert(table, s, frame);
    ReadIsStored(table, s, limit);
    ReadIsStored(after, s, limit);
    forall x, y | x in Read(table, s, limit) && y in Read(after, s, limit) && x.time == y.time ensures x == y {
      SameTimeSameBar(src, tf, n, x, y);
    }
    ReadInOrder(table, s, limit);
    hide Read;
    LoadedExactly(Read(table, s, limit), Read(after, s, limit));
  }

  lemma AnswerIsRun(table: Table, s: Series, limit: nat, now: int, src: Source, tf: int, n: nat, frame: seq<Row>,
          lo: nat, written: bool)
    requires Asked(limit) && tf == TfDelta(s.timeframe) && Agrees(RowsOf(table, s), src, tf, n)
    requires InKeyOrder(frame) && frame != [] && IsFrame(frame, src, tf, lo, n)
    ensures Run(Answer(table, s, limit, now, frame, written), src, tf, n, limit)
  {
    if AnswersFromTable(table, s, now, frame, written) {
      UpsertBars(RowsOf(table, s), frame, src, tf, n, lo, lo + |frame|);
      NewestOfPutAll(RowsOf(table, s), frame);
      ReadIsRun(Upsert(table, s, frame), s, limit, src, tf, n);
      AgreeingRowsStay(table, s, limit, src, tf, n, frame);
    } else {
      LastOfBars(frame, src, tf, lo, lo + |frame|, limit);
    }
  }

  /** A cache hit ends at the newest closed bar, or one bar before it, exactly at the instant `newest + 2 * tf`. */
  lemma HitOneShortExactly(table: Table, s: Series, limit: nat, now: int, src: Source)
    requires Asked(limit) && Sound(table, s, src, now) && Cached(table, s, limit, now)
    ensures var tf := TfDelta(s.timeframe); var n := Closed(src, tf, now);
            var rows := Read(table, s, limit);
            && (EndsNewest(rows, src, tf, now) || (n > 1 && rows[|rows| - 1] == SourceRow(src, tf, n - 2)))
            && (!EndsNewest(rows, src, tf, now) <==> now == Newest(rows) + 2 * tf)
  {
    HitAgrees(table, s, limit, now, src);
    RunOneShort(Read(table, s, limit), src, TfDelta(s.timeframe), now, limit);
  }

  lemma RunOneShort(rows: seq<Row>, src: Source, tf: int, now: int, limit: nat)
    requires tf > 0 && Run(rows, src, tf, Closed(src, tf, now), limit) && rows != [] && !IsStale(Newest(rows), tf, now)
    ensures EndsNewest(rows, src, tf, now) ||
            (Closed(src, tf, now) > 1 && rows[|rows| - 1] == SourceRow(src, tf, Closed(src, tf, now) - 2))
    ensures !EndsNewest(rows, src, tf, now) <==> now == Newest(rows) + 2 * tf
  {
    RunEndsNewest(rows, src, tf, now, limit);
    var a: nat, b: nat :| AreBars(rows, src, tf, a, b) && a < b <= Closed(src, tf, now) && b - a <= limit;
    OneShortExactly(src, tf, now, b);
    NewestExactly(src, tf, now, b);
  }

  /** A request that misses the cache fails exactly when the fetch fails, nothing arrives, or no bar has ever
      closed. */
  lemma UnavailableExactly(table: Table, s: Series, limit: nat, now: int, src: Source, fetch: (int, int) -> Fetched,
          written: bool)
    requires Asked(limit) && Sound(table, s, src, now) && Answers(fetch, src, TfDelta(s.timeframe), now)
    requires !Cached(table, s, limit, now)
    ensures var raw := Fetch(table, s, limit, now, fetch);
            Respond(table, s, limit, now, fetch, written).1.Unavailable? <==>
              raw.Failed? || raw.rows == [] || Closed(src, TfDelta(s.timeframe), now) == 0
  {
    RespondCases(table, s, limit, now, fetch, written);
    var lo := RefreshFrame(table, s, limit, now, src, fetch);
  }

  // ---------------------------------------------------------------- how far an answer reaches back

  /** An answer made of the stored run `[a, b)` and a frame reaching from bar `lo` to bar `m - 1`: the run and
      everything after it, up to `limit`, if the frame was written and what is stored then is not stale; else
      the frame alone. */
  ghost predicate FrameAnswer(rows: seq<Row>, src: Source, tf: int, limit: nat, now: int, a: nat, b: nat, lo: nat,
          m: nat, written: bool)
    requires lo < m
  {
    if written && !IsStale(OpenAt(src, tf, Ending(m, b) - 1), tf, now)
    then ReachesBack(rows, src, tf, Ending(m, b), limit, a)
    else ReachesBack(rows, src, tf, m, limit, lo) && |rows| <= m - lo
  }

  /** The stored rows end with the run `[a, b)`, which the frame joins; or the frame ends at or after all of
      them, and nothing is known of what comes before it (`a == b == lo`). */
  ghost predicate Joins(all: seq<Row>, src: Source, tf: int, lo: nat, m: nat, a: nat, b: nat) {
    && lo < m && a <= b && lo <= b && (a < b || b == lo)
    && (forall k :: a <= k < b ==> SourceRow(src, tf, k) in all)
    && Agrees(all, src, tf, Ending(m, b))
  }

  lemma AnswerReaches(table: Table, s: Series, limit: nat, now: int, src: Source, tf: int, frame: seq<Row>, lo: nat,
          a: nat, b: nat, written: bool)
    requires Asked(limit) && tf == TfDelta(s.timeframe) && frame != [] && AreBars(frame, src, tf, lo, lo + |frame|)
    requires Joins(RowsOf(table, s), src, tf, lo, lo + |frame|, a, b)
    ensures FrameAnswer(Answer(table, s, limit, now, frame, written), src, tf, limit, now, a, b, lo, lo + |frame|,
              written)
  {
    TopIs(RowsOf(table, s), frame, src, tf, lo, a, b);
    if AnswersFromTable(table, s, now, frame, written) {
      TableReachesBack(table, s, limit, src, tf, frame, lo, a, b);
    } else {
      FrameReachesBack(frame, limit, src, tf, lo, lo + |frame|);
    }
  }

  lemma FrameReachesBack(frame: seq<Row>, limit: nat, src: Source, tf: int, lo: nat, m: nat)
    requires limit > 0 && lo < m && AreBars(frame, src, tf, lo, m)
    ensures ReachesBack(LastRows(frame, limit), src, tf, m, limit, lo) && |LastRows(frame, limit)| <= m - lo
  {
    LastOfBars(frame, src, tf, lo, m, limit);
  }

  lemma TableReachesBack(table: Table, s: Series, limit: nat, src: Source, tf: int, frame: seq<Row>, lo: nat, a: nat,
          b: nat)
    requires limit > 0 && tf == TfDelta(s.timeframe) && frame != [] && AreBars(frame, src, tf, lo, lo + |frame|)
    requires Joins(RowsOf(table, s), src, tf, lo, lo + |frame|, a, b)
    ensures ReachesBack(ReadAgain(table, Upsert(table, s, frame), s, limit), src, tf, Ending(lo + |frame|, b), limit, a)
  {
    hide Joins, ReachesBack, AreBars, UnbrokenTail, ReadAgain;
    StoredReachesBack(RowsOf(table, s), frame, limit, src, tf, lo, lo + |frame|, a, b);
    JoinedRowsStay(table, s, limit, src, tf, frame, lo, a, b);
  }

  lemma JoinedRowsStay(table: Table, s: Series, limit: nat, src: Source, tf: int, frame: seq<Row>, lo: nat, a: nat,
          b: nat)
    requires tf == TfDelta(s.timeframe) && frame != [] && AreBars(frame, src, tf, lo, lo + |frame|)
    requires Joins(RowsOf(table, s), src, tf, lo, lo + |frame|, a, b)
    ensures ReadAgain(table, Upsert(table, s, frame), s, limit) == Read(Upsert(table, s, frame), s, limit)
  {
    var e := Ending(lo + |frame|, b);
    UpsertBars(RowsOf(table, s), frame, src, tf, e, lo, lo + |frame|);
    hide Joins, AreBars, Read, ReadAgain;
    AgreeingRowsStay(table, s, limit, src, tf, e, frame);
  }

  lemma {:induction false} StoredReachesBack(all: seq<Row>, frame: seq<Row>, limit: nat, src: Source, tf: int,
          lo: nat, m: nat, a: nat,
          b: nat)
    requires tf > 0 && limit > 0 && AreBars(frame, src, tf, lo, m) && Joins(all, src, tf, lo, m, a, b)
    ensures ReachesBack(UnbrokenTail(LastRows(PutAll(all, frame), limit), tf), src, tf, Ending(m, b), limit, a)
  {
    UpsertBars(all, frame, src, tf, Ending(m, b), lo, m);
    ReadReachesBack(PutAll(all, frame), limit, src, tf, Ending(m, b), a);
  }

  /** The later of two ends. */
  function Ending(m: nat, b: nat): nat {
    if m < b then b else m
  }

  lemma TopIs(all: seq<Row>, frame: seq<Row>, src: Source, tf: int, lo: nat, a: nat, b: nat)
    requires tf > 0 && frame != [] && AreBars(frame, src, tf, lo, lo + |frame|)
    requires Joins(all, src, tf, lo, lo + |frame|, a, b)
    ensures Top(all, frame) == OpenAt(src, tf, Ending(lo + |frame|, b) - 1)
  {
    var m := lo + |frame|;
    assert Newest(frame) == OpenAt(src, tf, m - 1);
    if m < b {
      LastIsNewest(all, src, tf, b);
      OpenAtOrder(src, tf, m - 1, b - 1);
    } else if all != [] {
      assert all[|all| - 1] in all;
      NoneLater(all[|all| - 1], src, tf, m);
    }
  }

  /** The last `limit` of the source's first `n` bars, or all `n` while there are fewer. */
  ghost predicate LastClosed(rows: seq<Row>, src: Source, tf: int, n: nat, limit: nat) {
    AreBars(rows, src, tf, if n <= limit then 0 else n - limit, n)
  }

  /** A whole-window refresh whose frame reaches the newest closed bar answers exactly the last `limit` closed
      bars (all of them while there are fewer), written or not; an unwritten one only then. */
  lemma WholeWindowExact(table: Table, s: Series, limit: nat, now: int, src: Source, fetch: (int, int) -> Fetched,
          written: bool)
    requires Asked(limit) && Sound(table, s, src, now) && Answers(fetch, src, TfDelta(s.timeframe), now)
    requires !Cached(table, s, limit, now) && !TailOnly(Read(table, s, limit), limit, TfDelta(s.timeframe), now)
    requires Respond(table, s, limit, now, fetch, written).1.Served?
    ensures var rows := Respond(table, s, limit, now, fetch, written).1.rows;
            var complete := EndsUpToDate(Refetched(table, s, limit, now, fetch).rows, TfDelta(s.timeframe), now);
            && (complete ==> LastClosed(rows, src, TfDelta(s.timeframe), Closed(src, TfDelta(s.timeframe), now), limit))
            && (LastClosed(rows, src, TfDelta(s.timeframe), Closed(src, TfDelta(s.timeframe), now), limit) ==>
                 complete || written)
  {
    hide Answers, AreBars, IsFrame, IsBar, Answer, Refetched, Respond, Read, Run;
    var lo := RefreshFrame(table, s, limit, now, src, fetch);
    MissAnswers(table, s, limit, now, fetch, written);
    var frame := Refetched(table, s, limit, now, fetch).rows;
    var rows := Respond(table, s, limit, now, fetch, written).1.rows;
    if EndsUpToDate(frame, TfDelta(s.timeframe), now) {
      CompleteFrame(table, s, limit, now, src, TfDelta(s.timeframe), Closed(src, TfDelta(s.timeframe), now), frame, lo,
            written);
    } else if LastClosed(rows, src, TfDelta(s.timeframe), Closed(src, TfDelta(s.timeframe), now), limit) {
      CacheAgreement(table, s, limit, now, src, fetch, written);
      LastClosedEndsNewest(rows, src, TfDelta(s.timeframe), now, limit);
    }
  }

  lemma LastClosedEndsNewest(rows: seq<Row>, src: Source, tf: int, now: int, limit: nat)
    requires tf > 0 && Run(rows, src, tf, Closed(src, tf, now), limit) &&
             LastClosed(rows, src, tf, Closed(src, tf, now), limit)
    ensures EndsNewest(rows, src, tf, now)
  {
  }

  /** What a refresh answers from a frame that reaches the newest closed bar. */
  lemma CompleteFrame(table: Table, s: Series, limit: nat, now: int, src: Source, tf: int, n: nat, frame: seq<Row>,
          lo: nat, written: bool)
    requires Asked(limit) && tf == TfDelta(s.timeframe) && n == Closed(src, tf, now) &&
             Agrees(RowsOf(table, s), src, tf, n)
    requires IsFrame(frame, src, tf, lo, n) && EndsUpToDate(frame, tf, now)
    ensures lo + |frame| == n && ReachesBack(Answer(table, s, limit, now, frame, written), src, tf, n, limit, lo)
  {
    NewestExactly(src, tf, now, lo + |frame|);
    AnswerReaches(table, s, limit, now, src, tf, frame, lo, lo, lo, written);
  }

  /** The first bar of a tail refresh over a cached run that ends at bar `b - 1`. */
  function TailFrom(b: nat): nat {
    if b <= 1 then 0 else b - 2
  }

  /** A tail refresh whose write succeeds gives up nothing the cache held. When the write fails, or too little
      arrived to make the table fresh, it answers from the fetched tail alone. */
  lemma TailRefreshExtends(table: Table, s: Series, limit: nat, now: int, src: Source, fetch: (int, int) -> Fetched,
          written: bool)
    returns (a: nat, b: nat)
    requires Asked(limit) && Sound(table, s, src, now) && Answers(fetch, src, TfDelta(s.timeframe), now)
    requires !Cached(table, s, limit, now) && TailOnly(Read(table, s, limit), limit, TfDelta(s.timeframe), now)
    requires Respond(table, s, limit, now, fetch, written).1.Served?
    ensures a < b && AreBars(Read(table, s, limit), src, TfDelta(s.timeframe), a, b)
    ensures First(src, TfDelta(s.timeframe),
              FetchStart(Read(table, s, limit), limit, TfDelta(s.timeframe), now)) == TailFrom(b)
    ensures var m := TailFrom(b) + |Refetched(table, s, limit, now, fetch).rows|;
            && TailFrom(b) < m <= Closed(src, TfDelta(s.timeframe), now)
            && FrameAnswer(Respond(table, s, limit, now, fetch, written).1.rows, src, TfDelta(s.timeframe), limit, now,
                 a, b, TailFrom(b), m, written)
  {
    hide AreBars, Answers, Answer, FrameAnswer, Refetched, Respond;
    a, b := TailFrame(table, s, limit, now, src, fetch);
    MissAnswers(table, s, limit, now, fetch, written);
    TailAnswered(table, s, limit, now, src, TfDelta(s.timeframe), Closed(src, TfDelta(s.timeframe), now),
                 Refetched(table, s, limit, now, fetch).rows, a, b, written);
  }

  lemma TailFrame(table: Table, s: Series, limit: nat, now: int, src: Source, fetch: (int, int) -> Fetched)
    returns (a: nat, b: nat)
    requires Asked(limit) && Sound(table, s, src, now) && Answers(fetch, src, TfDelta(s.timeframe), now)
    requires TailOnly(Read(table, s, limit), limit, TfDelta(s.timeframe), now)
    ensures FrameInOrder(Refetched(table, s, limit, now, fetch))
    ensures a < b && AreBars(Read(table, s, limit), src, TfDelta(s.timeframe), a, b)
    ensures RowsOf(table, s) != [] && Newest(RowsOf(table, s)) == OpenAt(src, TfDelta(s.timeframe), b - 1)
    ensures First(src, TfDelta(s.timeframe),
              FetchStart(Read(table, s, limit), limit, TfDelta(s.timeframe), now)) == TailFrom(b)
    ensures var fetched := Refetched(table, s, limit, now, fetch);
            fetched.Frame? ==> IsFrame(fetched.rows, src, TfDelta(s.timeframe), TailFrom(b),
                  Closed(src, TfDelta(s.timeframe), now))
  {
    hide Agrees, AreBars, IsFrame, Before, OpenAt, Closed, FetchStart, Refetched, Fetch, TailCut, FrameInOrder, Answers;
    a, b := TailWindow(RowsOf(table, s), limit, src, TfDelta(s.timeframe), now);
    NewestIsLast(RowsOf(table, s), Read(table, s, limit), src, TfDelta(s.timeframe), a, b);
    var lo := RefreshFrame(table, s, limit, now, src, fetch);
  }

  lemma {:induction false} NewestIsLast(all: seq<Row>, rows: seq<Row>, src: Source, tf: int, a: nat, b: nat)
    requires all != [] && rows != [] && rows[|rows| - 1] == all[|all| - 1] && a < b && AreBars(rows, src, tf, a, b)
    ensures Newest(all) == OpenAt(src, tf, b - 1)
  {
  }

  lemma {:induction false} TailAnswered(table: Table, s: Series, limit: nat, now: int, src: Source, tf: int, n: nat,
          frame: seq<Row>,
          a: nat, b: nat, written: bool)
    requires Asked(limit) && tf == TfDelta(s.timeframe) && Agrees(RowsOf(table, s), src, tf, n)
    requires a < b && AreBars(Read(table, s, limit), src, tf, a, b)
    requires RowsOf(table, s) != [] && Newest(RowsOf(table, s)) == OpenAt(src, tf, b - 1)
    requires frame != [] && IsFrame(frame, src, tf, TailFrom(b), n)
    ensures FrameAnswer(Answer(table, s, limit, now, frame, written), src, tf, limit, now, a, b, TailFrom(b),
              TailFrom(b) + |frame|, written)
  {
    hide Joins, AreBars, Agrees, Answer, FrameAnswer, Read;
    TailJoins(table, s, limit, src, tf, n, TailFrom(b) + |frame|, a, b);
    AnswerReaches(table, s, limit, now, src, tf, frame, TailFrom(b), a, b, written);
  }

  lemma {:induction false} TailJoins(table: Table, s: Series, limit: nat, src: Source, tf: int, n: nat, m: nat,
          a: nat, b: nat)
    requires tf > 0 && Agrees(RowsOf(table, s), src, tf, n) && TailFrom(b) < m && a < b
    requires RowsOf(table, s) != [] && AreBars(Read(table, s, limit), src, tf, a, b)
    requires Newest(RowsOf(table, s)) == OpenAt(src, tf, b - 1)
    ensures Joins(RowsOf(table, s), src, tf, TailFrom(b), m, a, b)
  {
    UpToNewest(RowsOf(table, s), src, tf, n, b);
    MoreBars(RowsOf(table, s), src, tf, b, Ending(m, b));
    ReadIsStored(table, s, limit);
    forall k | a <= k < b ensures SourceRow(src, tf, k) in RowsOf(table, s) {
      assert Read(table, s, limit)[k - a] in Read(table, s, limit);
    }
  }

  lemma ReadIsStored(table: Table, s: Series, limit: nat)
    ensures forall row :: row in Read(table, s, limit) ==> row in RowsOf(table, s)
  {
    var picked := Select(table, s, limit);
    assert forall row :: row in picked ==> row in RowsOf(table, s);
  }

  lemma MoreBars(rows: seq<Row>, src: Source, tf: int, n: nat, m: nat)
    requires Agrees(rows, src, tf, n) && n <= m
    ensures Agrees(rows, src, tf, m)
  {
    forall row | row in rows ensures IsBar(row, src, tf, m) {
      assert IsBar(row, src, tf, n);
    }
  }

  // ---------------------------------------------------------------- how long an answer is

  /** Half the bars asked for, or every bar that has closed. */
  predicate LongEnough(rows: seq<Row>, limit: nat, n: nat) {
    |rows| >= limit / 2 || |rows| == n
  }

  /** When the fetched frame reaches the newest closed bar (or none was needed), an answer is long enough exactly
      if it was cached, or written, or fetched as a whole window, or the tail alone suffices: from the bar before
      the newest cached one on, half of `limit` have closed, or that bar is the source's first. */
  lemma LongEnoughExactly(table: Table, s: Series, limit: nat, now: int, src: Source, fetch: (int, int) -> Fetched,
          written: bool)
    requires Asked(limit) && Sound(table, s, src, now) && Answers(fetch, src, TfDelta(s.timeframe), now)
    requires Respond(table, s, limit, now, fetch, written).1.Served?
    requires Cached(table, s, limit, now) ||
             EndsUpToDate(Refetched(table, s, limit, now, fetch).rows, TfDelta(s.timeframe), now)
    ensures var tf := TfDelta(s.timeframe); var n := Closed(src, tf, now);
            var rows := Read(table, s, limit);
            var lo := First(src, tf, FetchStart(rows, limit, tf, now));
            LongEnough(Respond(table, s, limit, now, fetch, written).1.rows, limit, n) <==>
              Cached(table, s, limit, now) || written || !TailOnly(rows, limit, tf, now) || n - lo >= limit / 2 ||
                  lo == 0
  {
    RespondCases(table, s, limit, now, fetch, written);
    if Cached(table, s, limit, now) {
    } else if TailOnly(Read(table, s, limit), limit, TfDelta(s.timeframe), now) {
      LongTail(table, s, limit, now, src, fetch, written);
    } else {
      WholeWindowExact(table, s, limit, now, src, fetch, written);
    }
  }

  lemma LongTail(table: Table, s: Series, limit: nat, now: int, src: Source, fetch: (int, int) -> Fetched,
          written: bool)
    requires Asked(limit) && Sound(table, s, src, now) && Answers(fetch, src, TfDelta(s.timeframe), now)
    requires !Cached(table, s, limit, now) && TailOnly(Read(table, s, limit), limit, TfDelta(s.timeframe), now)
    requires Respond(table, s, limit, now, fetch, written).1.Served?
    requires EndsUpToDate(Refetched(table, s, limit, now, fetch).rows, TfDelta(s.timeframe), now)
    ensures var tf := TfDelta(s.timeframe); var n := Closed(src, tf, now);
            var lo := First(src, tf, FetchStart(Read(table, s, limit), limit, tf, now));
            LongEnough(Respond(table, s, limit, now, fetch, written).1.rows, limit, n) <==>
                  written || n - lo >= limit / 2 || lo == 0
  {
    var a, b := TailFrame(table, s, limit, now, src, fetch);
    MissAnswers(table, s, limit, now, fetch, written);
    LongTailAnswer(table, s, limit, now, src, TfDelta(s.timeframe), Closed(src, TfDelta(s.timeframe), now),
                   Refetched(table, s, limit, now, fetch).rows, a, b, written);
  }

  lemma {:induction false} LongTailAnswer(table: Table, s: Series, limit: nat, now: int, src: Source, tf: int, n: nat,
          frame: seq<Row>,
          a: nat, b: nat, written: bool)
    requires Asked(limit) && tf == TfDelta(s.timeframe) && n == Closed(src, tf, now) &&
             Agrees(RowsOf(table, s), src, tf, n)
    requires a < b && AreBars(Read(table, s, limit), src, tf, a, b) && HaveEnough(Read(table, s, limit), limit)
    requires RowsOf(table, s) != [] && Newest(RowsOf(table, s)) == OpenAt(src, tf, b - 1)
    requires IsFrame(frame, src, tf, TailFrom(b), n) && EndsUpToDate(frame, tf, now)
    ensures LongEnough(Answer(table, s, limit, now, frame, written), limit, n) <==>
              written || n - TailFrom(b) >= limit / 2 || TailFrom(b) == 0
  {
    NewestExactly(src, tf, now, TailFrom(b) + |frame|);
    NewestBar(RowsOf(table, s), src, tf, n, b);
    hide Answer, FrameAnswer, Agrees;
    TailAnswered(table, s, limit, now, src, tf, n, frame, a, b, written);
    TailLength(Answer(table, s, limit, now, frame, written), src, tf, limit, now, a, b, n, written);
  }

  lemma TailLength(rows: seq<Row>, src: Source, tf: int, limit: nat, now: int, a: nat, b: nat, n: nat, written: bool)
    requires Asked(limit) && tf > 0 && a < b <= n && b - a >= limit / 2 && n == Closed(src, tf, now) && TailFrom(b) < n
    requires FrameAnswer(rows, src, tf, limit, now, a, b, TailFrom(b), n, written)
    ensures LongEnough(rows, limit, n) <==> written || n - TailFrom(b) >= limit / 2 || TailFrom(b) == 0
  {
    NewestExactly(src, tf, now, n);
  }

  lemma NewestBar(all: seq<Row>, src: Source, tf: int, n: nat, b: nat)
    requires tf > 0 && Agrees(all, src, tf, n) && 0 < b && all != [] && Newest(all) == OpenAt(src, tf, b - 1)
    ensures b <= n
  {
    assert all[|all| - 1] in all;
    var k: nat :| k < n && all[|all| - 1] == SourceRow(src, tf, k);
    SameIndex(src, tf, k, b - 1);
  }

  // ---------------------------------------------------------------- whole runs

  /** A request, or another writer storing one bar. */
  datatype Step =
    | Ask(s: Series, limit: nat, now: int, fetch: (int, int) -> Fetched, written: bool)
    | Store(s: Series, now: int, row: Row)

  function After(table: Table, step: Step): Table {
    match step
    case Ask(s, limit, now, fetch, written) => Respond(table, s, limit, now, fetch, written).0
    case Store(s, _, row) => table[s := Put(RowsOf(table, s), row)]
  }

  /** The step keeps to its side of the bargain: an asked limit, an exchange that answers from the window asked
      for, a writer that stores closed bars. */
  ghost predicate Legal(step: Step, world: Series -> Source) {
    var tf := TfDelta(step.s.timeframe);
    match step
    case Ask(s, limit, now, fetch, _) => Asked(limit) && Answers(fetch, world(s), tf, now)
    case Store(s, now, row) => IsBar(row, world(s), tf, Closed(world(s), tf, now))
  }

  ghost predicate LegalRun(steps: seq<Step>, world: Series -> Source, from: int) {
    steps == [] || (from <= steps[0].now && Legal(steps[0], world) && LegalRun(steps[1..], world, steps[0].now))
  }

  ghost predicate AllSound(table: Table, world: Series -> Source, now: int) {
    forall s :: Sound(table, s, world(s), now)
  }

  /** Every answer of the run is a run of closed bars that ends at the newest exactly if that was at hand. */
  ghost predicate AllFaithful(table: Table, steps: seq<Step>, world: Series -> Source)
    decreases steps
  {
    steps == [] ||
    (&& (steps[0].Ask? ==>
           var Ask(s, limit, now, fetch, written) := steps[0];
           Faithful(Respond(table, s, limit, now, fetch, written).1, world(s), TfDelta(s.timeframe), limit, now,
                    NewestAtHand(table, s, limit, now, fetch, written)))
     && AllFaithful(After(table, steps[0]), steps[1..], world))
  }

  /** Over whole runs, from the empty table or any that agrees, with any mix of series, limits, failed and
      truncated fetches and failed writes, and another writer at work. */
  lemma {:induction false} EveryAnswerFaithful(table: Table, steps: seq<Step>, world: Series -> Source, from: int)
    requires AllSound(table, world, from) && LegalRun(steps, world, from)
    ensures AllFaithful(table, steps, world)
    decreases steps
  {
    if steps != [] {
      var step := steps[0];
      forall s ensures Sound(table, s, world(s), step.now) {
        SoundLater(table, s, world(s), from, step.now);
      }
      forall s ensures Sound(After(table, step), s, world(s), step.now) {
        StepSound(table, step, world, s);
      }
      if step.Ask? {
        CacheAgreement(table, step.s, step.limit, step.now, world(step.s), step.fetch, step.written);
      }
      EveryAnswerFaithful(After(table, step), steps[1..], world, step.now);
    }
  }

  lemma SoundLater(table: Table, s: Series, src: Source, now: int, later: int)
    requires Sound(table, s, src, now) && now <= later
    ensures Sound(table, s, src, later)
  {
    var tf := TfDelta(s.timeframe);
    ClosedMono(src, tf, now, later);
    MoreBars(RowsOf(table, s), src, tf, Closed(src, tf, now), Closed(src, tf, later));
  }

  lemma StepSound(table: Table, step: Step, world: Series -> Source, s: Series)
    requires Legal(step, world) && Sound(table, s, world(s), step.now)
    ensures Sound(After(table, step), s, world(s), step.now)
  {
    var tf := TfDelta(s.timeframe);
    match step {
      case Ask(asked, limit, now, fetch, written) =>
        RespondCases(table, asked, limit, now, fetch, written);
        if s == asked {
          CacheAgreement(table, s, limit, now, world(s), fetch, written);
        }
      case Store(stored, now, row) =>
        if s == stored {
          PutAgrees(RowsOf(table, s), world(s), tf, Closed(world(s), tf, now), row);
        }
    }
  }
}
