/** What `get_candles` answers whatever the exchange returns: where an answer ends, when it is stale, and what
    the upsert and the next request make of it. */
module CandleAnswers {
  import opened Candles
  import opened CandleAgreement

  ghost predicate Asked(limit: nat) {
    1 <= limit <= 2000
  }

  predicate Cached(table: Table, s: Series, limit: nat, now: int) {
    Hit(Read(table, s, limit), limit, TfDelta(s.timeframe), now)
  }

  /** What a miss fetches, before and after the forming bar is dropped. */
  function Fetch(table: Table, s: Series, limit: nat, now: int, fetch: (int, int) -> Fetched): Fetched {
    fetch(FetchStart(Read(table, s, limit), limit, TfDelta(s.timeframe), now), now)
  }

  function Refetched(table: Table, s: Series, limit: nat, now: int, fetch: (int, int) -> Fetched): Fetched {
    var tf := TfDelta(s.timeframe);
    ClosedFrame(fetch, FetchStart(Read(table, s, limit), limit, tf, now), tf, now)
  }

  lemma RespondCases(table: Table, s: Series, limit: nat, now: int, fetch: (int, int) -> Fetched, written: bool)
    ensures Cached(table, s, limit, now) ==>
              Respond(table, s, limit, now, fetch, written) == (table, Served(Read(table, s, limit)))
    ensures !Cached(table, s, limit, now) ==>
              Respond(table, s, limit, now, fetch, written) ==
                AfterRefresh(table, s, limit, now, Refetched(table, s, limit, now, fetch), written)
    ensures forall other :: other != s ==>
              RowsOf(Respond(table, s, limit, now, fetch, written).0, other) == RowsOf(table, other)
  {
  }

  // ---------------------------------------------------------------- what the cache alone decides

  /** Without the exchange, a request is answered exactly if the unbroken run in the cache has half of the bars
      asked for and ends no more than two intervals ago; and then with that run. */
  lemma AnsweredWithoutExchange(table: Table, s: Series, limit: nat, now: int, fetch: (int, int) -> Fetched,
          written: bool)
    requires forall start: int :: fetch(start, now).Failed?
    ensures var rows := Read(table, s, limit);
            var response := Respond(table, s, limit, now, fetch, written).1;
            && (response.Served? <==>
                  rows != [] && |rows| >= limit / 2 && now - Newest(rows) <= 2 * TfDelta(s.timeframe))
            && (response.Served? ==> response.rows == rows)
            && Respond(table, s, limit, now, fetch, written).0 == table
  {
    RespondCases(table, s, limit, now, fetch, written);
  }

  /** And with an exchange at work, such a run is served as it stands. */
  lemma ServedFromCache(table: Table, s: Series, limit: nat, now: int, fetch: (int, int) -> Fetched, written: bool)
    requires var rows := Read(table, s, limit);
             rows != [] && |rows| >= limit / 2 && now - Newest(rows) <= 2 * TfDelta(s.timeframe)
    ensures Respond(table, s, limit, now, fetch, written) == (table, Served(Read(table, s, limit)))
  {
    RespondCases(table, s, limit, now, fetch, written);
  }

  /** Where the fetch of a request that is not so served starts: one interval before the newest cached bar if
      half of the bars asked for are there and no more than `limit` intervals are missing, else `limit + 5`
      intervals ago. */
  lemma FetchStartExactly(rows: seq<Row>, limit: nat, tf: int, now: int)
    requires tf > 0
    ensures FetchStart(rows, limit, tf, now) ==
              if rows != [] && |rows| >= limit / 2 && now - Newest(rows) <= tf * limit then Newest(rows) - tf
              else now - tf * (limit + 5)
  {
    if rows != [] { CeilDivIs(now - Newest(rows), tf, limit); }
  }

  lemma CeilDivIs(a: int, b: int, q: nat)
    requires b > 0
    ensures CeilDiv(a, b) <= q <==> a <= b * q
  {
    var c := (-a) / b;
    assert b * c <= -a < b * (c + 1);
    if -c <= q { MulMono(0 - q, c, b); }
    if -c > q { MulMono(c + 1, 0 - q, b); }
  }

  lemma MulMono(i: int, j: int, b: int)
    requires i <= j && b > 0
    ensures b * i <= b * j
  {
  }

  // ---------------------------------------------------------------- the upsert

  /** The upsert updates rather than ignores: whatever was stored before, every fetched row is stored as
      fetched, every row at another time stays, and there is still one row per time. */
  lemma {:induction false} UpsertReplaces(rows: seq<Row>, more: seq<Row>)
    requires InKeyOrder(rows) && InKeyOrder(more)
    ensures InKeyOrder(PutAll(rows, more))
    ensures forall x :: x in more ==> x in PutAll(rows, more)
    ensures forall x :: x in rows && (forall y :: y in more ==> y.time != x.time) ==> x in PutAll(rows, more)
    ensures forall x :: x in PutAll(rows, more) ==> x in rows || x in more
    decreases |more|
  {
    if more != [] {
      var init, last := more[..|more| - 1], more[|more| - 1];
      UpsertReplaces(rows, init);
      PutKeepsOrder(PutAll(rows, init), last);
      PutMembers(PutAll(rows, init), last);
      assert forall y :: y in init ==> y in more && y.time != last.time;
      assert forall y :: y in more ==> y in init || y == last;
    }
  }

  // ---------------------------------------------------------------- the second read

  lemma {:induction false} HeldIs(held: seq<Row>, row: Row)
    ensures Held(held, row).time == row.time
    ensures Held(held, row) == row || Held(held, row) in held
    ensures (forall x :: x in held ==> x.time != row.time) ==> Held(held, row) == row
  {
    if held != [] && held[|held| - 1].time != row.time {
      var init := held[..|held| - 1];
      HeldIs(init, row);
      assert forall x :: x in init ==> x in held;
    }
  }

  lemma {:induction false} LoadedAt(held: seq<Row>, rows: seq<Row>, i: nat)
    requires i < |rows|
    ensures Loaded(held, rows)[i] == Held(held, rows[i])
  {
    if i < |rows| - 1 { LoadedAt(held, rows[..|rows| - 1], i); }
  }

  lemma {:induction false} LoadedNewest(held: seq<Row>, rows: seq<Row>)
    requires rows != []
    ensures Newest(Loaded(held, rows)) == Newest(rows)
  {
    HeldIs(held, rows[|rows| - 1]);
  }

  /** No held row has another's time but not its values. */
  ghost predicate UpToDateRows(held: seq<Row>, rows: seq<Row>) {
    forall x, y :: x in held && y in rows && x.time == y.time ==> x == y
  }

  /** The session returns the rows as they are in the table exactly if it holds none of them in an older state. */
  lemma {:induction false} LoadedExactly(held: seq<Row>, rows: seq<Row>)
    requires InKeyOrder(held)
    ensures Loaded(held, rows) == rows <==> UpToDateRows(held, rows)
  {
    if UpToDateRows(held, rows) {
      forall i | 0 <= i < |rows| ensures Loaded(held, rows)[i] == rows[i] {
        LoadedAt(held, rows, i);
        HeldIs(held, rows[i]);
      }
    }
    if Loaded(held, rows) == rows {
      forall x, y | x in held && y in rows && x.time == y.time ensures x == y {
        var i :| 0 <= i < |rows| && rows[i] == y;
        LoadedAt(held, rows, i);
        HeldIfThere(held, x, y);
      }
    }
  }

  lemma {:induction false} HeldIfThere(held: seq<Row>, x: Row, row: Row)
    requires InKeyOrder(held) && x in held && x.time == row.time
    ensures Held(held, row) == x
  {
    if held[|held| - 1] != x {
      assert x in held[..|held| - 1];
      HeldIfThere(held[..|held| - 1], x, row);
    }
  }

  // ---------------------------------------------------------------- where an answer ends

  function Newest(rows: seq<Row>): int
    requires rows != []
  {
    rows[|rows| - 1].time
  }

  /** The newest time in the series once the frame has been stored. */
  function Top(all: seq<Row>, frame: seq<Row>): int
    requires frame != []
  {
    if all != [] && Newest(frame) < Newest(all) then Newest(all) else Newest(frame)
  }

  lemma {:induction false} NewestOfPutAll(rows: seq<Row>, more: seq<Row>)
    requires InKeyOrder(rows) && InKeyOrder(more) && more != []
    ensures var r := PutAll(rows, more); r != [] && Newest(r) == Top(rows, more)
    decreases |more|
  {
    var init := more[..|more| - 1];
    if init == [] {
      assert PutAll(rows, init) == rows;
    } else {
      NewestOfPutAll(rows, init);
    }
  }

  lemma LastRowsEnd(rows: seq<Row>, limit: nat)
    requires limit > 0 && rows != []
    ensures LastRows(rows, limit) != [] && Newest(LastRows(rows, limit)) == Newest(rows)
  {
  }

  lemma ReadEndsNewest(all: seq<Row>, limit: nat, tf: int)
    requires limit > 0
    ensures var rows := UnbrokenTail(LastRows(all, limit), tf);
            (rows == [] <==> all == []) && (all != [] ==> rows[|rows| - 1] == all[|all| - 1])
  {
    if all != [] {
      TailIsUnbroken(LastRows(all, limit), tf);
    }
  }

  lemma ReadBackNewest(table: Table, s: Series, limit: nat, frame: seq<Row>)
    requires limit > 0 && InKeyOrder(RowsOf(table, s)) && InKeyOrder(frame) && frame != []
    ensures var after := Upsert(table, s, frame);
            && Read(after, s, limit) != [] && Newest(Read(after, s, limit)) == Top(RowsOf(table, s), frame)
            && ReadAgain(table, after, s, limit) != []
            && Newest(ReadAgain(table, after, s, limit)) == Top(RowsOf(table, s), frame)
  {
    LoadedAgain(table, s, limit, frame);
    NewestOfPutAll(RowsOf(table, s), frame);
    ReadEndsNewest(PutAll(RowsOf(table, s), frame), limit, TfDelta(s.timeframe));
  }

  lemma LoadedAgain(table: Table, s: Series, limit: nat, frame: seq<Row>)
    ensures var after := Upsert(table, s, frame);
            Read(after, s, limit) != [] ==>
              ReadAgain(table, after, s, limit) != [] &&
                  Newest(ReadAgain(table, after, s, limit)) == Newest(Read(after, s, limit))
  {
    var rows := Read(Upsert(table, s, frame), s, limit);
    if rows != [] { LoadedNewest(Read(table, s, limit), rows); }
  }

  /** The refresh answers from the table it has just written, not from the frame. */
  ghost predicate AnswersFromTable(table: Table, s: Series, now: int, frame: seq<Row>, written: bool)
    requires frame != []
  {
    written && !IsStale(Top(RowsOf(table, s), frame), TfDelta(s.timeframe), now)
  }

  lemma ServesTable(table: Table, s: Series, limit: nat, now: int, frame: seq<Row>)
    requires limit > 0 && InKeyOrder(RowsOf(table, s)) && InKeyOrder(frame) && frame != []
    requires AnswersFromTable(table, s, now, frame, true)
    ensures var after := Upsert(table, s, frame);
            AfterRefresh(table, s, limit, now, Frame(frame), true) == (after, Served(ReadAgain(table, after, s, limit)))
  {
    ReadBackNewest(table, s, limit, frame);
  }

  lemma ServesFrame(table: Table, s: Series, limit: nat, now: int, frame: seq<Row>, written: bool)
    requires limit > 0 && InKeyOrder(RowsOf(table, s)) && InKeyOrder(frame) && frame != []
    requires !AnswersFromTable(table, s, now, frame, written)
    ensures AfterRefresh(table, s, limit, now, Frame(frame), written) ==
              (if written then Upsert(table, s, frame) else table, Served(LastRows(frame, limit)))
  {
    if written {
      ReadBackNewest(table, s, limit, frame);
    }
  }

  /** What a refresh answers. */
  ghost function Answer(table: Table, s: Series, limit: nat, now: int, frame: seq<Row>, written: bool): seq<Row>
    requires frame != []
  {
    if AnswersFromTable(table, s, now, frame, written)
    then ReadAgain(table, Upsert(table, s, frame), s, limit) else LastRows(frame, limit)
  }

  lemma RefreshAnswers(table: Table, s: Series, limit: nat, now: int, frame: seq<Row>, written: bool)
    requires limit > 0 && InKeyOrder(RowsOf(table, s)) && InKeyOrder(frame) && frame != []
    ensures AfterRefresh(table, s, limit, now, Frame(frame), written) ==
              (if written then Upsert(table, s, frame) else table, Served(Answer(table, s, limit, now, frame, written)))
  {
    if AnswersFromTable(table, s, now, frame, written) {
      ServesTable(table, s, limit, now, frame);
    } else {
      ServesFrame(table, s, limit, now, frame, written);
    }
  }

  /** A miss answers 503 without a frame, and otherwise what the refresh answers. */
  lemma MissAnswers(table: Table, s: Series, limit: nat, now: int, fetch: (int, int) -> Fetched, written: bool)
    requires limit > 0 && InKeyOrder(RowsOf(table, s)) && FrameInOrder(Refetched(table, s, limit, now, fetch))
    requires !Cached(table, s, limit, now)
    ensures var fetched := Refetched(table, s, limit, now, fetch);
            Respond(table, s, limit, now, fetch, written) ==
              if fetched.Failed? || fetched.rows == [] then (table, Unavailable)
              else (if written then Upsert(table, s, fetched.rows) else table,
                    Served(Answer(table, s, limit, now, fetched.rows, written)))
  {
    RespondCases(table, s, limit, now, fetch, written);
    var fetched := Refetched(table, s, limit, now, fetch);
    if fetched.Frame? && fetched.rows != [] {
      RefreshAnswers(table, s, limit, now, fetched.rows, written);
    }
  }

  ghost predicate FrameInOrder(fetched: Fetched) {
    fetched.Frame? ==> InKeyOrder(fetched.rows)
  }

  /** Where a refresh's answer ends: at the newest row of the written table if that is not stale, else where the
      frame ends. */
  lemma AnswerEnd(table: Table, s: Series, limit: nat, now: int, frame: seq<Row>, written: bool)
    requires limit > 0 && InKeyOrder(RowsOf(table, s)) && InKeyOrder(frame) && frame != []
    ensures var rows := Answer(table, s, limit, now, frame, written);
            && rows != []
            && Newest(rows) ==
                 if AnswersFromTable(table, s, now, frame, written) then Top(RowsOf(table, s), frame) else Newest(frame)
  {
    if AnswersFromTable(table, s, now, frame, written) {
      ReadBackNewest(table, s, limit, frame);
    } else {
      LastRowsEnd(frame, limit);
    }
  }

  // ---------------------------------------------------------------- stale answers

  ghost predicate StaleAnswer(response: Response, tf: int, now: int) {
    response.Served? && response.rows != [] && IsStale(Newest(response.rows), tf, now)
  }

  predicate NewestStale(rows: seq<Row>, tf: int, now: int) {
    rows == [] || IsStale(Newest(rows), tf, now)
  }

  /** The module promises that stale bars are never served silently. That is so exactly when not both: the
      fetched frame ends in a stale bar, and the refresh cannot fall back on a cached newest bar that is not
      stale, because there is none or because the write failed. */
  lemma StaleServedExactly(table: Table, s: Series, limit: nat, now: int, fetch: (int, int) -> Fetched, written: bool)
    requires Asked(limit) && InKeyOrder(RowsOf(table, s)) && FrameInOrder(Refetched(table, s, limit, now, fetch))
    ensures var tf := TfDelta(s.timeframe);
            var fetched := Refetched(table, s, limit, now, fetch);
            StaleAnswer(Respond(table, s, limit, now, fetch, written).1, tf, now) <==>
              && !Cached(table, s, limit, now)
              && fetched.Frame? && fetched.rows != [] && NewestStale(fetched.rows, tf, now)
              && (!written || NewestStale(RowsOf(table, s), tf, now))
  {
    RespondCases(table, s, limit, now, fetch, written);
    var fetched := Refetched(table, s, limit, now, fetch);
    if !Cached(table, s, limit, now) {
      MissAnswers(table, s, limit, now, fetch, written);
      if fetched.Frame? && fetched.rows != [] {
        AnswerEnd(table, s, limit, now, fetched.rows, written);
      }
    }
  }

  // ---------------------------------------------------------------- the next request

  /** A written refresh is not repeated if its answer was good enough: the table it leaves answers the same
      request at the same instant from the cache exactly when the answer was not stale and had half the rows
      asked for; with rows at the same times, and with the same values exactly if the refresh corrected none of
      the cached rows it answered with. */
  lemma RefreshThenHit(table: Table, s: Series, limit: nat, now: int, fetch: (int, int) -> Fetched)
    requires Asked(limit) && InKeyOrder(RowsOf(table, s)) && FrameInOrder(Refetched(table, s, limit, now, fetch))
    requires !Cached(table, s, limit, now) && Respond(table, s, limit, now, fetch, true).1.Served?
    ensures var (after, response) := Respond(table, s, limit, now, fetch, true);
            var hit := Read(after, s, limit);
            && response.rows != []
            && (Cached(after, s, limit, now) <==>
                  HaveEnough(response.rows, limit) && !IsStale(Newest(response.rows), TfDelta(s.timeframe), now))
            && (Cached(after, s, limit, now) ==> SameTimes(response.rows, hit))
            && (Cached(after, s, limit, now) ==> (response.rows == hit <==> UpToDateRows(Read(table, s, limit), hit)))
  {
    MissAnswers(table, s, limit, now, fetch, true);
    var frame := Refetched(table, s, limit, now, fetch).rows;
    AnswerEnd(table, s, limit, now, frame, true);
    ReadBackNewest(table, s, limit, frame);
    var held, hit := Read(table, s, limit), Read(Upsert(table, s, frame), s, limit);
    ReadInOrder(table, s, limit);
    LoadedExactly(held, hit);
    LoadedTimes(held, hit);
  }

  ghost predicate SameTimes(a: seq<Row>, b: seq<Row>) {
    |a| == |b| && forall i :: 0 <= i < |a| ==> a[i].time == b[i].time
  }

  lemma {:induction false} LoadedTimes(held: seq<Row>, rows: seq<Row>)
    ensures SameTimes(Loaded(held, rows), rows)
  {
    forall i | 0 <= i < |rows| ensures Loaded(held, rows)[i].time == rows[i].time {
      LoadedAt(held, rows, i);
      HeldIs(held, rows[i]);
    }
  }

  lemma ReadInOrder(table: Table, s: Series, limit: nat)
    requires InKeyOrder(RowsOf(table, s))
    ensures InKeyOrder(Read(table, s, limit))
  {
    var picked := Select(table, s, limit);
    assert InKeyOrder(picked);
  }

  /** A half-formed bar in the table, and a refresh that corrects it: the table holds the right values, and the
      answer the wrong ones. */
  lemma CorrectionServedLate(s: Series, wrong: Bar, right: Bar, later: seq<Bar>)
    requires wrong != right && |later| == 2
    ensures var tf := TfDelta(s.timeframe);
            var frame := ThreeBars(tf, right, later);
            var (after, response) := Respond(map[s := [Row(0, wrong)]], s, 3, tf * 3, (_, _) => Frame(frame), true);
            && Read(after, s, 3) == frame
            && response == Served(frame[0 := Row(0, wrong)])
  {
    var tf := TfDelta(s.timeframe);
    var table := map[s := [Row(0, wrong)]];
    var frame := ThreeBars(tf, right, later);
    var fetch := (_: int, _: int) => Frame(frame);
    OneRowStale(s, wrong);
    StoringThree(tf, wrong, right, later);
    assert Refetched(table, s, 3, tf * 3, fetch) == Frame(frame);
    AnsweringThree(s, wrong, right, later);
    hide Respond, Refetched, Answer, Read, Upsert, Cached, InKeyOrder, TfDelta;
    MissAnswers(table, s, 3, tf * 3, fetch, true);
  }

  lemma AnsweringThree(s: Series, wrong: Bar, right: Bar, later: seq<Bar>)
    requires |later| == 2
    ensures var tf := TfDelta(s.timeframe);
            var table, frame := map[s := [Row(0, wrong)]], ThreeBars(tf, right, later);
            && Read(Upsert(table, s, frame), s, 3) == frame
            && Answer(table, s, 3, tf * 3, frame, true) == frame[0 := Row(0, wrong)]
  {
    var tf := TfDelta(s.timeframe);
    ReadingThree(s, wrong, right, later);
    FreshThree(s, wrong, right, later);
    OneRowStale(s, wrong);
    LoadedThree(tf, wrong, right, later);
    hide Read, Upsert, Loaded, AnswersFromTable, ThreeBars;
  }

  lemma ReadingThree(s: Series, wrong: Bar, right: Bar, later: seq<Bar>)
    requires |later| == 2
    ensures var table, frame := map[s := [Row(0, wrong)]], ThreeBars(TfDelta(s.timeframe), right, later);
            Read(Upsert(table, s, frame), s, 3) == frame
  {
    StoringThree(TfDelta(s.timeframe), wrong, right, later);
    hide PutAll, UnbrokenTail, LastRows;
  }

  lemma FreshThree(s: Series, wrong: Bar, right: Bar, later: seq<Bar>)
    requires |later| == 2
    ensures var tf := TfDelta(s.timeframe);
            AnswersFromTable(map[s := [Row(0, wrong)]], s, tf * 3, ThreeBars(tf, right, later), true)
  {
  }

  function ThreeBars(tf: int, first: Bar, later: seq<Bar>): seq<Row>
    requires |later| == 2
  {
    [Row(0, first), Row(tf, later[0]), Row(tf * 2, later[1])]
  }

  lemma OneRowStale(s: Series, bar: Bar)
    ensures var tf := TfDelta(s.timeframe);
            Read(map[s := [Row(0, bar)]], s, 3) == [Row(0, bar)] && !Cached(map[s := [Row(0, bar)]], s, 3, tf * 3)
  {
  }

  lemma StoringThree(tf: int, wrong: Bar, right: Bar, later: seq<Bar>)
    requires tf > 0 && |later| == 2
    ensures var frame := ThreeBars(tf, right, later);
            && InKeyOrder(frame) && PutAll([Row(0, wrong)], frame) == frame
            && UnbrokenTail(LastRows(frame, 3), tf) == frame
  {
    var frame := ThreeBars(tf, right, later);
    assert frame[..2] == [frame[0], frame[1]] && frame[..2][..1] == [frame[0]] && [frame[0]][..0] == [];
    assert PutAll([Row(0, wrong)], []) == [Row(0, wrong)];
    assert PutAll([Row(0, wrong)], [frame[0]]) == [frame[0]];
    assert PutAll([Row(0, wrong)], frame[..2]) == [frame[0], frame[1]];
    assert TailCut(frame, tf, 1) == 0 && TailCut(frame, tf, 2) == 0;
  }

  lemma LoadedThree(tf: int, wrong: Bar, right: Bar, later: seq<Bar>)
    requires tf > 0 && |later| == 2
    ensures var frame := ThreeBars(tf, right, later);
            Loaded([Row(0, wrong)], frame) == frame[0 := Row(0, wrong)]
  {
    var frame := ThreeBars(tf, right, later);
    forall i | 0 <= i < 3 ensures Loaded([Row(0, wrong)], frame)[i] == frame[0 := Row(0, wrong)][i] {
      LoadedAt([Row(0, wrong)], frame, i);
      assert [Row(0, wrong)][..0] == [];
    }
  }
}
